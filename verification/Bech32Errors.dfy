/** Up to three substituted symbols within a window of 1023 change the Bech32 remainder. */
module Bech32Errors {
  import opened Gf32
  import opened Gf1024

  const WINDOW := 1023

  /** How many symbols differ. */
  function Distance(v: seq<Sym>, w: seq<Sym>): nat
    requires |v| == |w|
  {
    if v == [] then 0 else (if v[0] == w[0] then 0 else 1) + Distance(v[1..], w[1..])
  }

  /** Symbols that differ lie within one window. */
  predicate Together(v: seq<Sym>, w: seq<Sym>)
    requires |v| == |w|
  {
    forall i, j | 0 <= i < j < |v| && v[i] != w[i] && v[j] != w[j] :: j - i < WINDOW
  }

  predicate AllZero(v: seq<Sym>) { forall i | 0 <= i < |v| :: v[i] == ZERO }

  lemma {:induction false} NoDistance(v: seq<Sym>, w: seq<Sym>)
    requires |v| == |w| && Distance(v, w) == 0
    ensures AllZero(AddAll(v, w))
  {
    hide Add;
    if v != [] {
      NoDistance(v[1..], w[1..]);
      AddFacts(v[0], 0, 0);
      forall i | 0 <= i < |v| ensures AddAll(v, w)[i] == ZERO {
        if i > 0 { assert AddAll(v, w)[i] == AddAll(v[1..], w[1..])[i - 1]; }
      }
    }
  }

  lemma {:induction false} FirstDifferent(v: seq<Sym>, w: seq<Sym>) returns (i: nat)
    requires |v| == |w| && Distance(v, w) > 0
    ensures i < |v| && v[i] != w[i] && v[..i] == w[..i]
    ensures Distance(v[i + 1..], w[i + 1..]) == Distance(v, w) - 1
  {
    if v[0] != w[0] {
      i := 0;
    } else {
      var j := FirstDifferent(v[1..], w[1..]);
      i := j + 1;
      assert v[1..][j + 1..] == v[i + 1..] && w[1..][j + 1..] == w[i + 1..];
      assert v[..i] == [v[0]] + v[1..][..j] && w[..i] == [w[0]] + w[1..][..j];
    }
  }

  lemma {:induction false} SelfSum(v: seq<Sym>)
    ensures AllZero(AddAll(v, v))
  {
    hide Add;
    forall i | 0 <= i < |v| ensures AddAll(v, v)[i] == ZERO { AddFacts(v[i], 0, 0); }
  }

  lemma {:induction false} AddAllSplit(v: seq<Sym>, w: seq<Sym>, i: nat)
    requires |v| == |w| && i < |v|
    ensures AddAll(v, w) == AddAll(v[..i], w[..i]) + [Add(v[i], w[i])] + AddAll(v[i + 1..], w[i + 1..])
  {
    hide Add;
  }

  /** The first difference: zeroes, a nonzero symbol, and the differences after it. */
  lemma {:induction false} FirstDifference(v: seq<Sym>, w: seq<Sym>) returns (i: nat)
    requires |v| == |w| && Distance(v, w) > 0
    ensures i < |v| && v[i] != w[i] && Add(v[i], w[i]) != ZERO && AllZero(AddAll(v[..i], w[..i]))
    ensures Distance(v[i + 1..], w[i + 1..]) == Distance(v, w) - 1
    ensures AddAll(v, w) == AddAll(v[..i], w[..i]) + [Add(v[i], w[i])] + AddAll(v[i + 1..], w[i + 1..])
  {
    hide Add, AddAll, Distance, AllZero;
    i := FirstDifferent(v, w);
    SelfSum(v[..i]);
    AddAllSplit(v, w, i);
    AddFacts(v[i], w[i], 0);
  }

  lemma {:induction false} AddAllLength(v: seq<Sym>, w: seq<Sym>)
    requires |v| == |w|
    ensures |AddAll(v, w)| == |v|
  {
  }

  // ---- remainders of zeroes with two or three other symbols ----

  lemma {:induction false} IterIter(k: nat, l: nat, s: Residue)
    ensures Iter(k, Iter(l, s)) == Iter(k + l, s)
  {
    hide TimesX;
    if k > 0 { IterIter(k - 1, l, s); }
  }

  lemma {:induction false} RemainderZeros(s: Residue, v: seq<Sym>)
    requires AllZero(v)
    ensures Remainder(s, v) == Iter(|v|, s)
  {
    hide TimesX, Sum;
    if v != [] {
      RemainderZeros(s, v[..|v| - 1]);
      SumFacts(TimesX(Remainder(s, v[..|v| - 1])), NIL);
    }
  }

  /** One nonzero symbol among zeroes leaves a nonzero remainder. */
  lemma {:induction false} OneSymbol(v: seq<Sym>, d: Sym, w: seq<Sym>)
    requires AllZero(v) && AllZero(w) && d != ZERO
    ensures Remainder(NIL, v + [d] + w) == Iter(|w|, Const(d)) && Remainder(NIL, v + [d] + w) != NIL
  {
    hide TimesX, Sum, Remainder, Iter;
    RemainderZeros(NIL, v);
    IterNil(|v|);
    RemainderAppend(NIL, v, d);
    FeedLow(NIL, d);
    RemainderConcat(NIL, v + [d], w);
    RemainderZeros(Const(d), w);
    IterNonzero(|w|, Const(d));
  }

  /** d * x^p + e is not a multiple of the generator. */
  lemma {:induction false} TwoTerms(p: nat, d: Sym, e: Sym)
    requires 0 < p < WINDOW && d != ZERO
    ensures Sum(Iter(p, Const(d)), Const(e)) != NIL
  {
    hide TimesX, Sum;
    if p == 1 {
      assert Iter(0, Const(d)) == Const(d);
      FeedLow(Const(d), e);
    } else {
      hide Iter;
      ThreeTerms(p, d, 1, ZERO, e);
      IterNil(1);
      SumFacts(Iter(p, Const(d)), NIL);
    }
  }

  /** After d, the symbols v, and e: d * x^(|v| + 1) + e. */
  lemma {:induction false} TwoSymbols(u: seq<Sym>, d: Sym, v: seq<Sym>, e: Sym)
    requires AllZero(u) && AllZero(v) && d != ZERO
    ensures Remainder(NIL, u + [d] + v + [e]) == Sum(Iter(|v| + 1, Const(d)), Const(e))
  {
    hide TimesX, Sum, Remainder, AllZero;
    OneSymbol(u, d, v);
    RemainderAppend(NIL, u + [d] + v, e);
  }

  lemma {:induction false} ThreeSymbols(u: seq<Sym>, d: Sym, v: seq<Sym>, e: Sym, w: seq<Sym>, f: Sym)
    requires AllZero(u) && AllZero(v) && AllZero(w) && d != ZERO
    ensures Remainder(NIL, u + [d] + v + [e] + w + [f])
            == Sum(Sum(Iter(|w| + |v| + 2, Const(d)), Iter(|w| + 1, Const(e))), Const(f))
  {
    hide TimesX, Sum, Remainder, AllZero;
    TwoSymbols(u, d, v, e);
    var t := Iter(|v| + 1, Const(d));
    RemainderConcat(NIL, u + [d] + v + [e], w);
    RemainderZeros(Sum(t, Const(e)), w);
    RemainderAppend(NIL, u + [d] + v + [e] + w, f);
    IterSum(|w| + 1, t, Const(e));
    IterIter(|w| + 1, |v| + 1, Const(d));
  }

  /** Zeroes at the end do not make a remainder vanish. */
  lemma {:induction false} ZeroesAfter(v: seq<Sym>, z: seq<Sym>)
    requires AllZero(z) && Remainder(NIL, v) != NIL
    ensures Remainder(NIL, v + z) != NIL
  {
    hide TimesX, Sum, Remainder, Iter, AllZero;
    RemainderConcat(NIL, v, z);
    RemainderZeros(Remainder(NIL, v), z);
    IterNonzero(|z|, Remainder(NIL, v));
  }

  // ---- the guarantee ----

  lemma {:induction false} OneChanged(v: seq<Sym>, w: seq<Sym>)
    requires |v| == |w| && Distance(v, w) == 1
    ensures Remainder(NIL, AddAll(v, w)) != NIL
  {
    hide Add, Sum, TimesX, Remainder, Iter, Distance, AddAll, AllZero;
    var i := FirstDifference(v, w);
    NoDistance(v[i + 1..], w[i + 1..]);
    OneSymbol(AddAll(v[..i], w[..i]), Add(v[i], w[i]), AddAll(v[i + 1..], w[i + 1..]));
  }

  lemma {:induction false} TwoChanged(v: seq<Sym>, w: seq<Sym>)
    requires |v| == |w| && Distance(v, w) == 2 && Together(v, w)
    ensures Remainder(NIL, AddAll(v, w)) != NIL
  {
    hide Add, Sum, TimesX, Remainder, Iter, Distance, AddAll, AllZero;
    var i := FirstDifference(v, w);
    var v1, w1 := v[i + 1..], w[i + 1..];
    var j := FirstDifference(v1, w1);
    assert v1[j] == v[i + 1 + j] && w1[j] == w[i + 1 + j];
    var u, m, z := AddAll(v[..i], w[..i]), AddAll(v1[..j], w1[..j]), AddAll(v1[j + 1..], w1[j + 1..]);
    var d, e := Add(v[i], w[i]), Add(v1[j], w1[j]);
    AddAllLength(v1[..j], w1[..j]);
    NoDistance(v1[j + 1..], w1[j + 1..]);
    TwoSymbols(u, d, m, e);
    TwoTerms(j + 1, d, e);
    ZeroesAfter(u + [d] + m + [e], z);
    assert AddAll(v, w) == u + [d] + m + [e] + z;
  }

  lemma {:induction false} ThreeChanged(v: seq<Sym>, w: seq<Sym>)
    requires |v| == |w| && Distance(v, w) == 3 && Together(v, w)
    ensures Remainder(NIL, AddAll(v, w)) != NIL
  {
    hide Add, Sum, TimesX, Remainder, Iter, Distance, AddAll, AllZero;
    var i := FirstDifference(v, w);
    var v1, w1 := v[i + 1..], w[i + 1..];
    var j := FirstDifference(v1, w1);
    var v2, w2 := v1[j + 1..], w1[j + 1..];
    var k := FirstDifference(v2, w2);
    assert v2[k] == v[i + j + k + 2] && w2[k] == w[i + j + k + 2];
    var u, m, n := AddAll(v[..i], w[..i]), AddAll(v1[..j], w1[..j]), AddAll(v2[..k], w2[..k]);
    var z := AddAll(v2[k + 1..], w2[k + 1..]);
    var d, e, f := Add(v[i], w[i]), Add(v1[j], w1[j]), Add(v2[k], w2[k]);
    AddAllLength(v1[..j], w1[..j]);
    AddAllLength(v2[..k], w2[..k]);
    NoDistance(v2[k + 1..], w2[k + 1..]);
    ThreeSymbols(u, d, m, e, n, f);
    ThreeTerms(k + j + 2, d, k + 1, e, f);
    ZeroesAfter(u + [d] + m + [e] + n + [f], z);
    assert AddAll(v, w) == u + [d] + m + [e] + n + [f] + z;
  }

  /** One, two or three substituted symbols within a window of 1023 change the remainder. */
  lemma {:induction false} ErrorsDetected(s: Residue, v: seq<Sym>, w: seq<Sym>)
    requires |v| == |w| && 1 <= Distance(v, w) <= 3 && Together(v, w)
    ensures Remainder(s, v) != Remainder(s, w)
  {
    hide Sum, Remainder, Distance, AddAll, Together;
    RemainderSum(s, s, v, w);
    SumFacts(s, s);
    SumFacts(Remainder(s, v), NIL);
    if Distance(v, w) == 1 {
      OneChanged(v, w);
    } else if Distance(v, w) == 2 {
      TwoChanged(v, w);
    } else {
      ThreeChanged(v, w);
    }
  }
}
