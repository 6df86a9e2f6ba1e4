/** The field GF(32) and the residues of polynomials over it modulo the Bech32 generator (BIP 173, "Checksum"). */
module Gf32 {

  /** A 5-bit value: an element of GF(32), the polynomial in a over GF(2) with a^5 = a^3 + 1. */
  type Sym = bv5

  const ZERO: Sym := 0
  const ONE: Sym := 1

  function Add(x: Sym, y: Sym): Sym { x ^ y }

  /** Multiplication by a. */
  function TimesA(x: Sym): Sym { (x << 1) ^ (if x & 16 != 0 then 9 else 0) }

  predicate Has(x: Sym, m: Sym) { x & m != 0 }

  function If(on: bool, x: Sym): Sym { if on then x else 0 }

  function Five(a: Sym, b: Sym, c: Sym, d: Sym, e: Sym): Sym { Add(Add(Add(Add(a, b), c), d), e) }

  function Mul(x: Sym, y: Sym): Sym {
    var y1 := TimesA(y);
    var y2 := TimesA(y1);
    var y3 := TimesA(y2);
    Five(If(Has(x, 1), y), If(Has(x, 2), y1), If(Has(x, 4), y2), If(Has(x, 8), y3), If(Has(x, 16), TimesA(y3)))
  }

  // ---- the field laws ----

  lemma {:induction false} AddSwap(a: Sym, b: Sym, c: Sym, d: Sym)
    ensures Add(Add(a, b), Add(c, d)) == Add(Add(a, c), Add(b, d))
  {
  }

  lemma {:induction false} AddFacts(x: Sym, y: Sym, z: Sym)
    ensures Add(ZERO, x) == x && Add(x, ZERO) == x && Add(x, x) == ZERO && Add(x, y) == Add(y, x)
    ensures Add(x, Add(y, z)) == Add(Add(x, y), z) && Add(x, Add(x, y)) == y && (Add(x, y) == ZERO ==> x == y)
  {
  }

  lemma {:induction false} IfFacts(on: bool, x: Sym, y: Sym)
    ensures If(on, Add(x, y)) == Add(If(on, x), If(on, y)) && TimesA(If(on, x)) == If(on, TimesA(x))
  {
  }

  lemma {:induction false} TimesAAdd(x: Sym, y: Sym)
    ensures TimesA(Add(x, y)) == Add(TimesA(x), TimesA(y))
  {
  }

  lemma {:induction false} FiveAdd(a: Sym, b: Sym, c: Sym, d: Sym, e: Sym, a1: Sym, b1: Sym, c1: Sym, d1: Sym, e1: Sym)
    ensures Five(Add(a, a1), Add(b, b1), Add(c, c1), Add(d, d1), Add(e, e1))
            == Add(Five(a, b, c, d, e), Five(a1, b1, c1, d1, e1))
  {
  }

  lemma {:induction false} FiveTimesA(a: Sym, b: Sym, c: Sym, d: Sym, e: Sym)
    ensures Five(TimesA(a), TimesA(b), TimesA(c), TimesA(d), TimesA(e)) == TimesA(Five(a, b, c, d, e))
  {
    hide TimesA, Add;
    TimesAAdd(a, b);
    TimesAAdd(Add(a, b), c);
    TimesAAdd(Add(Add(a, b), c), d);
    TimesAAdd(Add(Add(Add(a, b), c), d), e);
  }

  lemma {:induction false} IfHas(x: Sym, y: Sym, m: Sym, k: Sym)
    requires m == 1 || m == 2 || m == 4 || m == 8 || m == 16
    ensures If(Has(Add(x, y), m), k) == Add(If(Has(x, m), k), If(Has(y, m), k))
  {
  }

  lemma {:induction false} MulAdd(x: Sym, y: Sym, k: Sym)
    ensures Mul(Add(x, y), k) == Add(Mul(x, k), Mul(y, k))
  {
    hide Add, If, TimesA, Has, Five;
    var k1 := TimesA(k);
    var k2 := TimesA(k1);
    var k3 := TimesA(k2);
    var k4 := TimesA(k3);
    IfHas(x, y, 1, k);
    IfHas(x, y, 2, k1);
    IfHas(x, y, 4, k2);
    IfHas(x, y, 8, k3);
    IfHas(x, y, 16, k4);
    FiveAdd(If(Has(x, 1), k), If(Has(x, 2), k1), If(Has(x, 4), k2), If(Has(x, 8), k3), If(Has(x, 16), k4),
            If(Has(y, 1), k), If(Has(y, 2), k1), If(Has(y, 4), k2), If(Has(y, 8), k3), If(Has(y, 16), k4));
  }

  lemma {:induction false} MulRightA(x: Sym, y: Sym)
    ensures Mul(x, TimesA(y)) == TimesA(Mul(x, y))
  {
    hide Add, If, TimesA, Has, Five;
    var y1 := TimesA(y);
    var y2 := TimesA(y1);
    var y3 := TimesA(y2);
    var y4 := TimesA(y3);
    IfFacts(Has(x, 1), y, y);
    IfFacts(Has(x, 2), y1, y);
    IfFacts(Has(x, 4), y2, y);
    IfFacts(Has(x, 8), y3, y);
    IfFacts(Has(x, 16), y4, y);
    FiveTimesA(If(Has(x, 1), y), If(Has(x, 2), y1), If(Has(x, 4), y2), If(Has(x, 8), y3), If(Has(x, 16), y4));
  }

  lemma {:induction false} MulPlus(x: Sym, y: Sym, z: Sym)
    ensures Mul(x, Add(y, z)) == Add(Mul(x, y), Mul(x, z))
  {
    hide Add, If, TimesA, Has, Five;
    var y1, z1 := TimesA(y), TimesA(z);
    var y2, z2 := TimesA(y1), TimesA(z1);
    var y3, z3 := TimesA(y2), TimesA(z2);
    var y4, z4 := TimesA(y3), TimesA(z3);
    TimesAAdd(y, z);
    TimesAAdd(y1, z1);
    TimesAAdd(y2, z2);
    TimesAAdd(y3, z3);
    IfFacts(Has(x, 1), y, z);
    IfFacts(Has(x, 2), y1, z1);
    IfFacts(Has(x, 4), y2, z2);
    IfFacts(Has(x, 8), y3, z3);
    IfFacts(Has(x, 16), y4, z4);
    FiveAdd(If(Has(x, 1), y), If(Has(x, 2), y1), If(Has(x, 4), y2), If(Has(x, 8), y3), If(Has(x, 16), y4),
            If(Has(x, 1), z), If(Has(x, 2), z1), If(Has(x, 4), z2), If(Has(x, 8), z3), If(Has(x, 16), z4));
  }

  lemma {:induction false} MulUnits(y: Sym)
    ensures Mul(y, ONE) == y && Mul(ONE, y) == y && Mul(y, ZERO) == ZERO && Mul(ZERO, y) == ZERO
  {
    hide Mul;
    MulOnLeft(y);
    MulOnRight(y);
  }

  lemma {:induction false} MulOnLeft(y: Sym)
    ensures Mul(ONE, y) == y && Mul(ZERO, y) == ZERO
  {
  }

  lemma {:induction false} MulOnRight(y: Sym)
    ensures Mul(y, ONE) == y && Mul(y, ZERO) == ZERO
  {
  }

  lemma {:induction false} ByBits(y: Sym)
    ensures y == Five(If(Has(y, 1), 1), If(Has(y, 2), 2), If(Has(y, 4), 4), If(Has(y, 8), 8), If(Has(y, 16), 16))
    ensures TimesA(1) == 2 && TimesA(2) == 4 && TimesA(4) == 8 && TimesA(8) == 16
  {
  }

  lemma {:induction false} MulIf(on: bool, x: Sym, y: Sym)
    ensures Mul(x, If(on, y)) == If(on, Mul(x, y))
  {
    hide Mul;
    MulUnits(x);
  }

  lemma {:induction false} MulFive(x: Sym, a: Sym, b: Sym, c: Sym, d: Sym, e: Sym)
    ensures Mul(x, Five(a, b, c, d, e)) == Five(Mul(x, a), Mul(x, b), Mul(x, c), Mul(x, d), Mul(x, e))
  {
    hide Mul, Add;
    MulPlus(x, a, b);
    MulPlus(x, Add(a, b), c);
    MulPlus(x, Add(Add(a, b), c), d);
    MulPlus(x, Add(Add(Add(a, b), c), d), e);
  }

  lemma {:induction false} MulCommutes(x: Sym, y: Sym)
    ensures Mul(x, y) == Mul(y, x)
  {
    hide Add, If, TimesA, Has, Five;
    ByBits(x);
    MulUnits(y);
    MulRightA(y, 1);
    MulRightA(y, 2);
    MulRightA(y, 4);
    MulRightA(y, 8);
    MulFive(y, If(Has(x, 1), 1), If(Has(x, 2), 2), If(Has(x, 4), 4), If(Has(x, 8), 8), If(Has(x, 16), 16));
    MulIf(Has(x, 1), y, 1);
    MulIf(Has(x, 2), y, 2);
    MulIf(Has(x, 4), y, 4);
    MulIf(Has(x, 8), y, 8);
    MulIf(Has(x, 16), y, 16);
  }

  lemma {:induction false} MulAssoc(x: Sym, y: Sym, z: Sym)
    ensures Mul(Mul(x, y), z) == Mul(x, Mul(y, z))
  {
    hide Add, If, TimesA, Has, Five;
    var y1 := TimesA(y);
    var y2 := TimesA(y1);
    var y3 := TimesA(y2);
    var y4 := TimesA(y3);
    MulCommutes(y, z);
    MulCommutes(Mul(x, y), z);
    MulFive(z, If(Has(x, 1), y), If(Has(x, 2), y1), If(Has(x, 4), y2), If(Has(x, 8), y3), If(Has(x, 16), y4));
    MulIf(Has(x, 1), z, y);
    MulIf(Has(x, 2), z, y1);
    MulIf(Has(x, 4), z, y2);
    MulIf(Has(x, 8), z, y3);
    MulIf(Has(x, 16), z, y4);
    MulRightA(z, y);
    MulRightA(z, y1);
    MulRightA(z, y2);
    MulRightA(z, y3);
  }

  lemma {:induction false} MulNonzero(x: Sym, k: Sym)
    requires Mul(x, k) == ZERO
    ensures x == ZERO || k == ZERO
  {
  }

  // ---- residues: coefficients of x^5 .. x^0 ----

  datatype Residue = Residue(c0: Sym, c1: Sym, c2: Sym, c3: Sym, c4: Sym, c5: Sym)

  function Groups(r: Residue): seq<Sym> { [r.c0, r.c1, r.c2, r.c3, r.c4, r.c5] }

  function Const(v: Sym): Residue { Residue(0, 0, 0, 0, 0, v) }

  const UNIT := Const(1)

  const NIL := Const(0)

  const GENERATOR := Residue(29, 22, 20, 21, 29, 18)

  function Sum(s: Residue, t: Residue): Residue {
    Residue(Add(s.c0, t.c0), Add(s.c1, t.c1), Add(s.c2, t.c2), Add(s.c3, t.c3), Add(s.c4, t.c4), Add(s.c5, t.c5))
  }

  function Multiple(k: Sym, s: Residue): Residue {
    Residue(Mul(k, s.c0), Mul(k, s.c1), Mul(k, s.c2), Mul(k, s.c3), Mul(k, s.c4), Mul(k, s.c5))
  }

  function Shifted(s: Residue): Residue { Residue(s.c1, s.c2, s.c3, s.c4, s.c5, 0) }

  /** s * x modulo x^6 + {29}x^5 + {22}x^4 + {20}x^3 + {21}x^2 + {29}x + {18}. */
  function TimesX(s: Residue): Residue { Sum(Shifted(s), Multiple(s.c0, GENERATOR)) }

  lemma {:induction false} SumSwap(s: Residue, t: Residue, p: Residue, q: Residue)
    ensures Sum(Sum(s, t), Sum(p, q)) == Sum(Sum(s, p), Sum(t, q))
  {
    hide Add;
    AddSwap(s.c0, t.c0, p.c0, q.c0);
    AddSwap(s.c1, t.c1, p.c1, q.c1);
    AddSwap(s.c2, t.c2, p.c2, q.c2);
    AddSwap(s.c3, t.c3, p.c3, q.c3);
    AddSwap(s.c4, t.c4, p.c4, q.c4);
    AddSwap(s.c5, t.c5, p.c5, q.c5);
  }

  lemma {:induction false} SumFacts(s: Residue, t: Residue)
    ensures Sum(s, NIL) == s && Sum(NIL, s) == s && Sum(s, s) == NIL && Sum(s, Sum(s, t)) == t
    ensures Sum(s, t) == NIL ==> s == t
  {
  }

  lemma {:induction false} ConstSum(x: Sym, y: Sym)
    ensures Const(Add(x, y)) == Sum(Const(x), Const(y))
  {
  }

  lemma {:induction false} MultipleAdd(k: Sym, l: Sym, s: Residue)
    ensures Multiple(Add(k, l), s) == Sum(Multiple(k, s), Multiple(l, s))
  {
    hide Mul, Add;
    MulAdd(k, l, s.c0);
    MulAdd(k, l, s.c1);
    MulAdd(k, l, s.c2);
    MulAdd(k, l, s.c3);
    MulAdd(k, l, s.c4);
    MulAdd(k, l, s.c5);
  }

  lemma {:induction false} ShiftedSum(s: Residue, t: Residue)
    ensures Shifted(Sum(s, t)) == Sum(Shifted(s), Shifted(t)) && Sum(s, t).c0 == Add(s.c0, t.c0)
  {
  }

  lemma {:induction false} TimesXSum(s: Residue, t: Residue)
    ensures TimesX(Sum(s, t)) == Sum(TimesX(s), TimesX(t))
  {
    hide Sum, Multiple, Shifted, Add;
    ShiftedSum(s, t);
    MultipleAdd(s.c0, t.c0, GENERATOR);
    SumSwap(Shifted(s), Shifted(t), Multiple(s.c0, GENERATOR), Multiple(t.c0, GENERATOR));
  }

  lemma {:induction false} TimesXLow(s: Residue)
    requires s.c0 == 0
    ensures TimesX(s) == Shifted(s)
  {
    hide Mul;
    MulUnits(29);
    MulUnits(22);
    MulUnits(20);
    MulUnits(21);
    MulUnits(18);
  }

  lemma {:induction false} TimesXInjective(s: Residue)
    requires TimesX(s) == NIL
    ensures s == NIL
  {
    hide Mul, Add;
    AddFacts(Mul(s.c0, 18), 0, 0);
    MulNonzero(s.c0, 18);
    TimesXLow(s);
  }

  // ---- powers of x ----

  function Iter(k: nat, s: Residue): Residue {
    if k == 0 then s else TimesX(Iter(k - 1, s))
  }

  lemma {:induction false} IterNonzero(k: nat, s: Residue)
    requires s != NIL
    ensures Iter(k, s) != NIL
  {
    hide TimesX;
    if k > 0 {
      IterNonzero(k - 1, s);
      if TimesX(Iter(k - 1, s)) == NIL { TimesXInjective(Iter(k - 1, s)); }
    }
  }

  lemma {:induction false} IterSum(k: nat, s: Residue, t: Residue)
    ensures Iter(k, Sum(s, t)) == Sum(Iter(k, s), Iter(k, t))
  {
    hide TimesX, Sum;
    if k > 0 {
      IterSum(k - 1, s, t);
      TimesXSum(Iter(k - 1, s), Iter(k - 1, t));
    }
  }

  lemma {:induction false} IterNil(k: nat)
    ensures Iter(k, NIL) == NIL
  {
    hide Iter, Sum;
    IterSum(k, NIL, NIL);
    SumFacts(NIL, NIL);
    SumFacts(Iter(k, NIL), NIL);
  }

  // ---- remainders of symbol sequences ----

  /** s * x + v. */
  function Feed(s: Residue, v: Sym): Residue { Sum(TimesX(s), Const(v)) }

  /** The polynomial s * x^n + v[0] * x^(n-1) + ... + v[n-1], modulo the generator. */
  function Remainder(s: Residue, v: seq<Sym>): Residue {
    if v == [] then s else Feed(Remainder(s, v[..|v| - 1]), v[|v| - 1])
  }

  function AddAll(v: seq<Sym>, w: seq<Sym>): seq<Sym>
    requires |v| == |w|
  {
    seq(|v|, i requires 0 <= i < |v| => Add(v[i], w[i]))
  }

  /** Remainders add up. */
  lemma {:induction false} RemainderSum(s: Residue, t: Residue, v: seq<Sym>, w: seq<Sym>)
    requires |v| == |w|
    ensures Remainder(Sum(s, t), AddAll(v, w)) == Sum(Remainder(s, v), Remainder(t, w))
  {
    hide Sum, TimesX, Add;
    if v == [] {
    } else {
      var n := |v| - 1;
      assert AddAll(v, w)[..n] == AddAll(v[..n], w[..n]);
      RemainderSum(s, t, v[..n], w[..n]);
      var a, b := Remainder(s, v[..n]), Remainder(t, w[..n]);
      TimesXSum(a, b);
      ConstSum(v[n], w[n]);
      SumSwap(TimesX(a), TimesX(b), Const(v[n]), Const(w[n]));
    }
  }

  lemma {:induction false} RemainderConcat(s: Residue, v: seq<Sym>, w: seq<Sym>)
    ensures Remainder(s, v + w) == Remainder(Remainder(s, v), w)
  {
    hide Feed;
    if w == [] {
      assert v + w == v;
    } else {
      var m := w[..|w| - 1];
      assert (v + w)[..|v + w| - 1] == v + m;
      RemainderConcat(s, v, m);
    }
  }

  lemma {:induction false} RemainderAppend(s: Residue, v: seq<Sym>, x: Sym)
    ensures Remainder(s, v + [x]) == Feed(Remainder(s, v), x) && Remainder(s, []) == s
  {
    hide Feed;
    assert (v + [x])[..|v|] == v;
  }

  // ---- the checksum ----

  const SIX_ZEROS: seq<Sym> := [0, 0, 0, 0, 0, 0]

  function ResidueOf(cs: seq<Sym>): Residue
    requires |cs| == 6
  {
    Residue(cs[0], cs[1], cs[2], cs[3], cs[4], cs[5])
  }

  lemma {:induction false} FeedLow(s: Residue, v: Sym)
    requires s.c0 == 0
    ensures Feed(s, v) == Residue(s.c1, s.c2, s.c3, s.c4, s.c5, v)
  {
    hide TimesX;
    TimesXLow(s);
  }

  lemma {:induction false} RemainderSix(cs: seq<Sym>)
    requires |cs| == 6
    ensures Remainder(NIL, cs) == ResidueOf(cs)
  {
    hide Feed, Remainder;
    var v := cs;
    FeedLow(NIL, v[0]);
    FeedLow(Const(v[0]), v[1]);
    FeedLow(Residue(0, 0, 0, 0, v[0], v[1]), v[2]);
    FeedLow(Residue(0, 0, 0, v[0], v[1], v[2]), v[3]);
    FeedLow(Residue(0, 0, v[0], v[1], v[2], v[3]), v[4]);
    FeedLow(Residue(0, v[0], v[1], v[2], v[3], v[4]), v[5]);
    RemainderAppend(NIL, [], v[0]);
    RemainderAppend(NIL, v[..1], v[1]);
    RemainderAppend(NIL, v[..2], v[2]);
    RemainderAppend(NIL, v[..3], v[3]);
    RemainderAppend(NIL, v[..4], v[4]);
    RemainderAppend(NIL, v[..5], v[5]);
    assert [] + [v[0]] == v[..1] && v[..1] + [v[1]] == v[..2] && v[..2] + [v[2]] == v[..3];
    assert v[..3] + [v[3]] == v[..4] && v[..4] + [v[4]] == v[..5] && v[..5] + [v[5]] == v;
  }

  /** Six final symbols are added to the remainder that six zeroes would leave. */
  lemma {:induction false} RemainderOfTail(s: Residue, cs: seq<Sym>)
    requires |cs| == 6
    ensures Remainder(s, cs) == Sum(Remainder(s, SIX_ZEROS), ResidueOf(cs))
  {
    assert AddAll(SIX_ZEROS, cs) == cs;
    hide Sum, Remainder, AddAll;
    RemainderSum(s, NIL, SIX_ZEROS, cs);
    RemainderSix(cs);
    SumFacts(s, NIL);
  }

  /** Exactly one final group of six symbols makes the remainder `goal`. */
  lemma {:induction false} TailUnique(s: Residue, cs: seq<Sym>, goal: Residue)
    requires |cs| == 6
    ensures Remainder(s, cs) == goal <==> ResidueOf(cs) == Sum(Remainder(s, SIX_ZEROS), goal)
  {
    hide Sum, Remainder;
    var r := Remainder(s, SIX_ZEROS);
    RemainderOfTail(s, cs);
    SumFacts(r, ResidueOf(cs));
    SumFacts(r, goal);
  }
}
