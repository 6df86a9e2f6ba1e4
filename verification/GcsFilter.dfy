/** Golomb-coded set filters (BIP 158, sections "Set Construction" and "Set Querying/Decompression"). */
module GcsFilter {
  import opened Wrappers
  import Nonlinear
  import opened Limbs
  import opened BitStreams
  import opened GolombRice

  type uint64 = x: nat | x < TWO64

  // ---- mapping a hash into a range ----

  /** The upper 64 bits of the product, computed from 32-bit halves. */
  function MapIntoRange(x: uint64, n: uint64): nat {
    var xHi, xLo, nHi, nLo := x / BASE, x % BASE, n / BASE, n % BASE;
    Halves(x, n);
    var ac, ad, bc, bd := xHi * nHi, xHi * nLo, xLo * nHi, xLo * nLo;
    var mid34 := bd / BASE + bc % BASE + ad % BASE;
    ac + bc / BASE + ad / BASE + mid34 / BASE
  }

  lemma {:induction false} Halves(x: uint64, n: uint64)
    ensures x / BASE < BASE && n / BASE < BASE
    ensures 0 <= x / BASE * (n / BASE) && 0 <= x / BASE * (n % BASE)
    ensures 0 <= x % BASE * (n / BASE) && 0 <= x % BASE * (n % BASE)
  {
    Nonlinear.DivBelow(x, BASE, BASE);
    Nonlinear.DivBelow(n, BASE, BASE);
    Nonlinear.MulNonneg(x / BASE, n / BASE);
    Nonlinear.MulNonneg(x / BASE, n % BASE);
    Nonlinear.MulNonneg(x % BASE, n / BASE);
    Nonlinear.MulNonneg(x % BASE, n % BASE);
  }

  /** The piecewise computation is exact, and lands below the range's size. */
  lemma {:induction false} MapIntoRangeExact(x: uint64, n: uint64)
    ensures 0 <= x * n
    ensures MapIntoRange(x, n) == x * n / TWO64
    ensures n > 0 ==> MapIntoRange(x, n) < n
  {
    var a: nat, b: nat, c: nat, d: nat := x / BASE, x % BASE, n / BASE, n % BASE;
    Halves(x, n);
    Nonlinear.MulNonneg(x, n);
    Nonlinear.DivMul(x, BASE);
    Nonlinear.DivMul(n, BASE);
    Piecewise(a, b, c, d);
    if n > 0 {
      Nonlinear.MulStrict(x, TWO64, n);
      Nonlinear.DivBelow(x * n, n, TWO64);
    }
  }

  lemma {:induction false} Piecewise(a: nat, b: nat, c: nat, d: nat)
    requires 0 <= a * c && 0 <= a * d && 0 <= b * c && 0 <= b * d
    ensures var mid := b * d / BASE + b * c % BASE + a * d % BASE;
            (a * BASE + b) * (c * BASE + d) / TWO64 == a * c + b * c / BASE + a * d / BASE + mid / BASE
  {
    var bd, bc, ad, ac := b * d, b * c, a * d, a * c;
    Expand(a, b, c, d);
    var mid := bd / BASE + bc % BASE + ad % BASE;
    var low := mid % BASE * BASE + bd % BASE;
    var high := ac + bc / BASE + ad / BASE + mid / BASE;
    assert high * TWO64 + low == ac * TWO64 + (bc + ad) * BASE + bd;
    assert 0 <= low < TWO64;
    Nonlinear.ModExact(high * TWO64 + low, high, TWO64, low);
  }

  lemma {:induction false} Expand(a: nat, b: nat, c: nat, d: nat)
    ensures (a * BASE + b) * (c * BASE + d) == a * c * TWO64 + (b * c + a * d) * BASE + b * d
  {
    Nonlinear.MulAdd(a * BASE, b, c * BASE + d);
    Nonlinear.MulDist(a * BASE, c * BASE, d);
    Nonlinear.MulDist(b, c * BASE, d);
  }

  // ---- sorted sets of hashes ----

  predicate Sorted(s: seq<nat>) {
    forall i, j | 0 <= i < j < |s| :: s[i] <= s[j]
  }

  /** Inserts at the place that keeps the order. */
  method SortedInsert(s: seq<nat>, x: nat) returns (r: seq<nat>)
    requires Sorted(s)
    ensures Sorted(r) && multiset(r) == multiset(s) + multiset{x}
  {
    var i := |s|;
    while i > 0 && s[i - 1] > x
      invariant 0 <= i <= |s| && (i < |s| ==> s[i] > x)
    {
      i := i - 1;
    }
    r := s[..i] + [x] + s[i..];
    InsertedSorted(s, i, x);
    assert s == s[..i] + s[i..];
  }

  lemma {:induction false} InsertedSorted(s: seq<nat>, i: nat, x: nat)
    requires Sorted(s) && i <= |s| && (i > 0 ==> s[i - 1] <= x) && (i < |s| ==> x <= s[i])
    ensures Sorted(s[..i] + [x] + s[i..])
  {
    var r := s[..i] + [x] + s[i..];
    forall j, k | 0 <= j < k < |r| ensures r[j] <= r[k] {
      assert j < i ==> r[j] == s[j];
      assert j > i ==> r[j] == s[j - 1];
      assert k < i ==> r[k] == s[k];
      assert k > i ==> r[k] == s[k - 1];
    }
  }

  // ---- the encoding ----

  function Delta(values: seq<nat>, i: nat): nat
    requires Sorted(values) && i < |values|
  {
    if i == 0 then values[0] else values[i] - values[i - 1]
  }

  /** The codes of the differences between neighbours. */
  function EncodeAll(p: nat, values: seq<nat>): seq<bool>
    requires Sorted(values)
  {
    if values == [] then []
    else
      var last := |values| - 1;
      EncodeAll(p, values[..last]) + Code(p, Delta(values, last))
  }

  lemma {:induction false} EncodePrefix(p: nat, values: seq<nat>, i: nat)
    requires Sorted(values) && i <= |values|
    ensures EncodeAll(p, values[..i]) <= EncodeAll(p, values)
    decreases |values|
  {
    if i < |values| {
      var last := |values| - 1;
      EncodePrefix(p, values[..last], i);
      assert values[..last][..i] == values[..i];
    } else {
      assert values[..i] == values;
    }
  }

  /** The stream at the start of code number `i` yields difference number `i`. */
  lemma {:induction false} DecodeNext(p: nat, values: seq<nat>, bits: seq<bool>, i: nat)
    requires Sorted(values) && EncodeAll(p, values) <= bits && i < |values|
    ensures DecodeAt(bits, |EncodeAll(p, values[..i])|, p)
         == Some((Delta(values, i) % TWO64, |EncodeAll(p, values[..i + 1])|))
  {
    hide Code, DecodeAt;
    EncodePrefix(p, values, i + 1);
    var before, code := EncodeAll(p, values[..i]), Code(p, Delta(values, i));
    assert values[..i + 1][..i] == values[..i];
    assert EncodeAll(p, values[..i + 1]) == before + code;
    var after := bits[|before + code|..];
    assert bits == before + code + after;
    DecodeCode(before, p, Delta(values, i), after);
  }

  // ---- filters ----

  type Element = seq<Byte>

  /** `p` is the coding parameter, `m` the inverse false positive rate, `hash` the keyed hash. */
  datatype Params = Params(p: nat, m: uint32, hash: Element -> uint64)

  /** `data` is the encoded filter after the element count. */
  datatype Filter = Filter(params: Params, n: uint32, f: uint64, data: seq<Byte>) {

    function HashToRange(e: Element): nat { MapIntoRange(params.hash(e), f) }

    /** The stream is the code of exactly these numbers, padded to a whole byte. */
    ghost predicate Encodes(values: seq<nat>) {
      && Sorted(values) && |values| == n && params.p < 64
      && EncodeAll(params.p, values) <= AllBits(data)
      && 8 * |data| < |EncodeAll(params.p, values)| + 8
    }

    /** The stream has the codes that the element count announces. */
    predicate Complete() { params.p < 64 && SkipCodes(AllBits(data), params.p, n).Some? }

    /** The numbers that the filter stands for, as 64-bit running sums. */
    function Values(): (values: seq<nat>)
      requires Complete()
      ensures |values| == n
    {
      Running(AllBits(data), params.p, n)
    }

    /** The hashes of a set of elements, sorted. */
    method BuildHashedSet(elements: set<Element>) returns (hashed: seq<nat>)
      ensures Sorted(hashed) && |hashed| == |elements|
      ensures forall v :: v in hashed <==> exists e :: e in elements && HashToRange(e) == v
    {
      hashed := [];
      var todo := elements;
      while todo != {}
        invariant todo <= elements && Sorted(hashed) && |hashed| == |elements| - |todo|
        invariant forall v :: v in hashed <==> exists e :: e in elements - todo && HashToRange(e) == v
      {
        var e :| e in todo;
        ghost var was := hashed;
        hashed := SortedInsert(hashed, HashToRange(e));
        forall v ensures v in hashed <==> exists d :: d in elements - (todo - {e}) && HashToRange(d) == v {
          assert v in hashed <==> v in multiset(was) + multiset{HashToRange(e)};
          if v in was {
            var d :| d in elements - todo && HashToRange(d) == v;
            assert d in elements - (todo - {e});
          }
          if v == HashToRange(e) { assert e in elements - (todo - {e}); }
        }
        assert |hashed| == |multiset(hashed)| && |was| == |multiset(was)|;
        todo := todo - {e};
      }
      assert elements - {} == elements;
    }

    /** Whether one of the sorted query hashes is found: both lists are walked once, in step. */
    method MatchInternal(hashes: seq<nat>) returns (r: Option<bool>)
      requires Sorted(hashes) && Complete()
      ensures r == Some(Finds(Values(), hashes))
    {
      hide DecodeAt, AllBits, SkipCodes, Running;
      ghost var bits, values := AllBits(data), Values();
      var reader := new BitReader(data);
      var value := 0;
      var at := 0;
      ghost var top: nat := 0;
      SkipNothing(bits, params.p);
      for i := 0 to n
        invariant reader.Valid() && reader.bytes == data && SkipCodes(bits, params.p, i) == Some(reader.Pos())
        invariant value == Last(values[..i])
        invariant 0 <= at <= |hashes| && Passed(values, hashes, i, at, top)
      {
        RunningNext(bits, params.p, i, n);
        var delta := DecodeNumber(reader, params.p);
        value := (value + delta.value) % TWO64;
        assert Last(values[..i + 1]) == values[i];
        while true
          invariant 0 <= at <= |hashes| && Passing(values, hashes, i, at, top)
          decreases |hashes| - at
        {
          if at == |hashes| {
            NoneLeft(values, hashes, i, top);
            return Some(false);
          } else if hashes[at] == value {
            assert Leads(values, i) && values[i] in hashes;
            return Some(true);
          } else if hashes[at] > value {
            break;
          }
          at := at + 1;
        }
        NextPassed(values, hashes, i, at, top);
        top := if i > 0 && top > value then top else value;
      }
      return Some(false);
    }

    /** An element matches exactly when its hash is found. */
    method Match(e: Element) returns (r: Option<bool>)
      requires Complete()
      ensures r == Some(Finds(Values(), [HashToRange(e)]))
    {
      r := MatchInternal([HashToRange(e)]);
    }

    method MatchAny(elements: set<Element>) returns (r: Option<bool>)
      requires Complete()
      ensures r == Some(exists e :: e in elements && Finds(Values(), [HashToRange(e)]))
    {
      var queries := BuildHashedSet(elements);
      r := MatchInternal(queries);
      if Finds(Values(), queries) {
        var i :| 0 <= i < |Values()| && Leads(Values(), i) && Values()[i] in queries;
        var e :| e in elements && HashToRange(e) == Values()[i];
        assert Values()[i] in [HashToRange(e)];
      }
      if exists e :: e in elements && Finds(Values(), [HashToRange(e)]) {
        var e :| e in elements && Finds(Values(), [HashToRange(e)]);
        var i :| 0 <= i < |Values()| && Leads(Values(), i) && Values()[i] in [HashToRange(e)];
        assert Values()[i] in queries;
      }
    }
  }

  // ---- what a walk in step finds ----

  /** No earlier number is larger. */
  predicate Leads(values: seq<nat>, i: nat)
    requires i < |values|
  {
    forall j | 0 <= j < i :: values[j] <= values[i]
  }

  /** Some number that leads is among the hashes. Of a sorted list every number leads. */
  predicate Finds(values: seq<nat>, hashes: seq<nat>) {
    exists i | 0 <= i < |values| :: Leads(values, i) && values[i] in hashes
  }

  lemma {:induction false} FindsSorted(values: seq<nat>, hashes: seq<nat>)
    requires Sorted(values)
    ensures Finds(values, hashes) <==> exists h :: h in values && h in hashes
  {
    if exists h :: h in values && h in hashes {
      var h :| h in values && h in hashes;
      var i :| 0 <= i < |values| && values[i] == h;
      assert Leads(values, i);
    }
  }

  /** Halfway through number i: the hashes before `at` are below `top` or below number i,
      the others above `top`, the largest number so far. */
  ghost predicate Passing(values: seq<nat>, hashes: seq<nat>, i: nat, at: nat, top: nat)
    requires i < |values| && at <= |hashes|
  {
    && (forall j | 0 <= j < i :: values[j] <= top) && (i > 0 ==> top in values[..i])
    && (forall k | 0 <= k < at :: hashes[k] < values[i] || (i > 0 && hashes[k] < top))
    && (forall k | at <= k < |hashes| :: i > 0 ==> hashes[k] > top)
    && (forall j | 0 <= j < i && Leads(values, j) :: values[j] !in hashes)
  }

  ghost predicate Passed(values: seq<nat>, hashes: seq<nat>, i: nat, at: nat, top: nat)
    requires i <= |values| && at <= |hashes|
  {
    && (forall j | 0 <= j < i :: values[j] <= top) && (i > 0 ==> top in values[..i])
    && (forall k | 0 <= k < at :: i > 0 && hashes[k] < top)
    && (forall k | at <= k < |hashes| :: i > 0 ==> hashes[k] > top)
    && (forall j | 0 <= j < i && Leads(values, j) :: values[j] !in hashes)
  }

  lemma {:induction false} NextPassed(values: seq<nat>, hashes: seq<nat>, i: nat, at: nat, top: nat)
    requires i < |values| && at < |hashes| && Sorted(hashes)
    requires Passing(values, hashes, i, at, top) && hashes[at] > values[i]
    ensures Passed(values, hashes, i + 1, at, if i > 0 && top > values[i] then top else values[i])
  {
    var top' := if i > 0 && top > values[i] then top else values[i];
    assert values[..i + 1] == values[..i] + [values[i]];
    if Leads(values, i) {
      if i > 0 { var j :| 0 <= j < i && values[j] == top; }
      forall k | 0 <= k < |hashes| ensures hashes[k] != values[i] { }
    }
  }

  lemma {:induction false} NoneLeft(values: seq<nat>, hashes: seq<nat>, i: nat, top: nat)
    requires i < |values| && Passing(values, hashes, i, |hashes|, top)
    ensures !Finds(values, hashes)
  {
    forall m | 0 <= m < |values| && Leads(values, m) ensures values[m] !in hashes {
      if m >= i {
        if i > 0 { var j :| 0 <= j < i && values[j] == top; }
        forall k | 0 <= k < |hashes| ensures hashes[k] != values[m] { }
      }
    }
  }

  lemma {:induction false} EncodeNone(p: nat)
    ensures EncodeAll(p, []) == []
  {
  }

  /** Builds the filter of a set of elements, unless it is too large. */
  method Build(params: Params, elements: set<Element>) returns (r: Option<Filter>, ghost values: seq<nat>)
    requires params.p < 64
    ensures r.Some? <==> |elements| < BASE
    ensures r.Some? ==>
      && r.value.params == params && r.value.n == |elements| && r.value.f == |elements| * params.m
      && r.value.Encodes(values) && (forall v | v in values :: v < TWO64)
      && forall v :: v in values <==> exists e :: e in elements && r.value.HashToRange(e) == v
  {
    values := [];
    if |elements| >= BASE {
      return None, [];
    }
    RangeFits(|elements|, params.m);
    var filter := Filter(params, |elements|, |elements| * params.m, []);
    if elements == {} {
      return Some(filter), [];
    }
    var hashed := filter.BuildHashedSet(elements);
    forall v | v in hashed ensures v < TWO64 {
      var e :| e in elements && filter.HashToRange(e) == v;
      HashInRange(filter, e);
    }
    var data := EncodeHashes(params.p, hashed);
    return Some(filter.(data := data)), hashed;
  }

  lemma {:induction false} RangeFits(n: nat, m: uint32)
    requires n < BASE
    ensures 0 <= n * m < TWO64
  {
    Nonlinear.MulNonneg(n, m);
    Nonlinear.MulMono(n, BASE - 1, m);
    Nonlinear.MulMono(m, BASE - 1, BASE - 1);
  }

  lemma {:induction false} HashInRange(filter: Filter, e: Element)
    ensures filter.HashToRange(e) < TWO64
  {
    var h := filter.params.hash(e);
    MapIntoRangeExact(h, filter.f);
    if filter.f == 0 {
      assert h * 0 == 0;
    }
  }

  /** The loop that writes the codes, and the final flush. */
  method EncodeHashes(p: nat, hashed: seq<nat>) returns (data: seq<Byte>)
    requires p < 64 && Sorted(hashed)
    ensures EncodeAll(p, hashed) <= AllBits(data) && 8 * |data| < |EncodeAll(p, hashed)| + 8
  {
    hide Code, AllBits, ToBits, FromBits, Zeros;
    var writer := new BitWriter();
    var last := 0;
    for i := 0 to |hashed|
      invariant fresh(writer) && writer.Valid()
      invariant writer.Bits() == EncodeAll(p, hashed[..i]) && last == if i == 0 then 0 else hashed[i - 1]
    {
      assert hashed[..i + 1][..i] == hashed[..i];
      EncodeNumber(writer, p, hashed[i] - last);
      last := hashed[i];
    }
    assert hashed[..|hashed|] == hashed;
    writer.Flush();
    data := writer.out;
  }

  /** No element of the set is ever missed, and a match means a shared hash. */
  method QueryBuilt(params: Params, elements: set<Element>, e: Element) returns (r: Option<bool>)
    requires params.p < 64 && |elements| < BASE
    ensures r.Some? && (e in elements ==> r.value)
    ensures r.value <==> exists d :: d in elements && SameHash(params, |elements|, d, e)
  {
    var filter, values := Build(params, elements);
    var h := filter.value.HashToRange(e);
    BuiltAnswers(filter.value, values, [h]);
    r := filter.value.Match(e);
    if r.value {
      ghost var d :| d in elements && filter.value.HashToRange(d) == h;
    } else {
      assert h in [h];
      assert forall d | d in elements :: filter.value.HashToRange(d) in values;
    }
  }

  /** Two elements a filter of `n` elements cannot tell apart. */
  predicate SameHash(params: Params, n: nat, d: Element, e: Element)
    requires n < BASE
  {
    RangeFits(n, params.m);
    MapIntoRange(params.hash(d), n * params.m) == MapIntoRange(params.hash(e), n * params.m)
  }

  // ---- reading a filter back ----

  /** The position after `n` codes, if the stream has that many. */
  function SkipCodes(bits: seq<bool>, p: nat, n: nat): Option<nat> {
    if n == 0 then Some(0)
    else
      var before := SkipCodes(bits, p, n - 1);
      if before.None? then None
      else
        var d := DecodeAt(bits, before.value, p);
        if d.None? then None else Some(d.value.1)
  }

  function Last(values: seq<nat>): nat { if values == [] then 0 else values[|values| - 1] }

  /** The running sums of the first n numbers, in 64 bits. */
  function Running(bits: seq<bool>, p: nat, n: nat): (values: seq<nat>)
    requires SkipCodes(bits, p, n).Some?
    ensures |values| == n
  {
    if n == 0 then []
    else
      var before := Running(bits, p, n - 1);
      before + [(Last(before) + DecodeAt(bits, SkipCodes(bits, p, n - 1).value, p).value.0) % TWO64]
  }

  lemma {:induction false} SkipNothing(bits: seq<bool>, p: nat)
    ensures SkipCodes(bits, p, 0) == Some(0)
  {
  }

  lemma {:induction false} SkipNone(bits: seq<bool>, p: nat, i: nat, n: nat)
    requires i <= n && SkipCodes(bits, p, i).None?
    ensures SkipCodes(bits, p, n).None?
    decreases n
  {
    if i < n { SkipNone(bits, p, i, n - 1); }
  }

  /** Each number is read where the one before it ended and added to the sum so far. */
  lemma {:induction false} RunningNext(bits: seq<bool>, p: nat, i: nat, n: nat)
    requires i < n && SkipCodes(bits, p, n).Some?
    ensures SkipCodes(bits, p, i).Some? && SkipCodes(bits, p, i + 1).Some?
    ensures var d := DecodeAt(bits, SkipCodes(bits, p, i).value, p);
            && d.Some? && SkipCodes(bits, p, i + 1) == Some(d.value.1)
            && Running(bits, p, n)[i] == (Last(Running(bits, p, n)[..i]) + d.value.0) % TWO64
    decreases n
  {
    hide DecodeAt;
    if i == n - 1 {
      assert Running(bits, p, n)[..i] == Running(bits, p, i);
    } else {
      RunningNext(bits, p, i, n - 1);
      assert Running(bits, p, n)[..i] == Running(bits, p, n - 1)[..i];
    }
  }

  function Wrapped(values: seq<nat>): seq<nat> { seq(|values|, i requires 0 <= i < |values| => values[i] % TWO64) }

  /** The running sums of the code of a sorted list are its numbers, in 64 bits. */
  lemma {:induction false} RunningEncoded(p: nat, values: seq<nat>, bits: seq<bool>, i: nat)
    requires Sorted(values) && EncodeAll(p, values) <= bits && i <= |values|
    ensures SkipCodes(bits, p, i) == Some(|EncodeAll(p, values[..i])|)
    ensures Running(bits, p, i) == Wrapped(values[..i])
    decreases i
  {
    hide DecodeAt, Code, EncodeAll;
    EncodeNone(p);
    if i > 0 {
      RunningEncoded(p, values, bits, i - 1);
      DecodeNext(p, values, bits, i - 1);
      var last := if i == 1 then 0 else values[i - 2];
      assert Last(Wrapped(values[..i - 1])) == last % TWO64;
      Nonlinear.ModSum(last % TWO64, values[i - 1] - last, TWO64);
      Nonlinear.ModSum(values[i - 1] - last, last, TWO64);
    }
  }

  /** Accepts a stream of exactly `n` codes with no whole byte left over. */
  method FromEncoded(params: Params, n: nat, data: seq<Byte>) returns (r: Option<Filter>)
    requires params.p < 64
    ensures var end := SkipCodes(AllBits(data), params.p, n);
            r.Some? <==> n < BASE && end.Some? && 8 * |data| - end.value < 8
    ensures r.Some? ==>
      && r.value.params == params && r.value.n == n && r.value.f == n * params.m && r.value.data == data
      && r.value.Complete()
  {
    hide DecodeAt, AllBits;
    if n >= BASE {
      return None;
    }
    var reader := new BitReader(data);
    for i := 0 to n
      invariant fresh(reader) && reader.Valid() && reader.bytes == data
      invariant SkipCodes(AllBits(data), params.p, i) == Some(reader.Pos())
    {
      var d := DecodeNumber(reader, params.p);
      if d.None? {
        SkipNone(AllBits(data), params.p, i + 1, n);
        return None;
      }
    }
    if reader.next != |data| {
      return None;
    }
    RangeFits(n, params.m);
    return Some(Filter(params, n, n * params.m, data));
  }

  /** Whatever stream has n codes encodes some sorted list of n numbers, bounded by its length. */
  lemma {:induction false} CodesEncode(bits: seq<bool>, p: nat, n: nat) returns (values: seq<nat>)
    requires SkipCodes(bits, p, n).Some?
    ensures var end := SkipCodes(bits, p, n).value;
            && end <= |bits| && Sorted(values) && |values| == n && EncodeAll(p, values) == bits[..end]
            && forall v | v in values :: v < end * Pow2(p)
  {
    hide DecodeAt, Code, EncodeAll, Pow2;
    if n == 0 {
      values := [];
      EncodeNone(p);
    } else {
      var start := SkipCodes(bits, p, n - 1).value;
      var before := CodesEncode(bits, p, n - 1);
      var x := ReadIsCode(bits, start, p);
      var end := SkipCodes(bits, p, n).value;
      var last := if n == 1 then 0 else before[n - 2];
      if n > 1 { assert before[n - 2] in before; }
      values := before + [last + x];
      Extended(p, before, x);
      assert bits[..end] == bits[..start] + bits[start..end];
      forall v | v in values ensures v < end * Pow2(p) {
        if v in before { BoundGrows(start, end, v, 0, Pow2(p)); } else { BoundGrows(start, end, last, x, Pow2(p)); }
      }
    }
  }

  lemma {:induction false} BoundGrows(start: nat, end: nat, v: nat, x: nat, w: nat)
    requires start < end && w > 0 && (v == 0 || v < start * w) && x < (end - start) * w
    ensures v + x < end * w
  {
    Nonlinear.MulAdd(start, end - start, w);
    Nonlinear.MulNonneg(start, w);
  }

  lemma {:induction false} Extended(p: nat, before: seq<nat>, x: nat)
    requires Sorted(before)
    ensures var last := if before == [] then 0 else before[|before| - 1];
            Sorted(before + [last + x]) && EncodeAll(p, before + [last + x]) == EncodeAll(p, before) + Code(p, x)
  {
    hide Code;
    var last := if before == [] then 0 else before[|before| - 1];
    var values := before + [last + x];
    assert values[..|before|] == before;
  }

  /** Every accepted filter encodes a sorted list, and answers from it in 64 bits. */
  lemma {:induction false} AcceptedEncodes(filter: Filter) returns (values: seq<nat>)
    requires filter.Complete()
    requires 8 * |filter.data| - SkipCodes(AllBits(filter.data), filter.params.p, filter.n).value < 8
    ensures filter.Encodes(values) && filter.Values() == Wrapped(values)
  {
    hide EncodeAll, SkipCodes, AllBits;
    values := CodesEncode(AllBits(filter.data), filter.params.p, filter.n);
    RunningEncoded(filter.params.p, values, AllBits(filter.data), filter.n);
    assert values[..filter.n] == values;
  }

  /** A built filter survives being written out and read back, and answers exactly from its numbers. */
  lemma {:induction false} BuiltAnswers(filter: Filter, values: seq<nat>, hashes: seq<nat>)
    requires filter.Encodes(values) && forall v | v in values :: v < TWO64
    ensures filter.Complete()
    ensures 8 * |filter.data| - SkipCodes(AllBits(filter.data), filter.params.p, filter.n).value < 8
    ensures Finds(filter.Values(), hashes) <==> exists h :: h in values && h in hashes
  {
    hide EncodeAll, SkipCodes, AllBits, Running;
    RunningEncoded(filter.params.p, values, AllBits(filter.data), filter.n);
    assert values[..filter.n] == values;
    forall i | 0 <= i < |values| ensures Wrapped(values)[i] == values[i] { assert values[i] in values; }
    assert Wrapped(values) == values;
    FindsSorted(values, hashes);
  }
}
