/** Single bits of 64-bit words under the machine's operations. */
module Words64 {

  type Word = bv64

  predicate Bit(w: Word, b: bv6) { (w >> b) & 1 == 1 }

  function And(x: Word, y: Word): Word { x & y }
  function Or(x: Word, y: Word): Word { x | y }
  function Xor(x: Word, y: Word): Word { x ^ y }
  function Not(x: Word): Word { !x }

  function OneBit(v: bool): Word { if v then 1 else 0 }
  function Shifted(v: bool, b: bv6): Word { OneBit(v) << b }
  function Negated(v: bool): Word { 0 - OneBit(v) }

  lemma {:induction false} BitAnd(x: Word, y: Word, b: bv6)
    ensures Bit(And(x, y), b) == (Bit(x, b) && Bit(y, b))
  {
  }

  lemma {:induction false} BitOrPlain(x: Word, y: Word, b: bv6)
    ensures Bit(x | y, b) == (Bit(x, b) || Bit(y, b))
  {
  }

  lemma {:induction false} BitOr(x: Word, y: Word, b: bv6)
    ensures Bit(Or(x, y), b) == (Bit(x, b) || Bit(y, b))
  {
    hide Bit;
    BitOrPlain(x, y, b);
  }

  lemma {:induction false} BitXorPlain(x: Word, y: Word, b: bv6)
    ensures Bit(x ^ y, b) == (Bit(x, b) != Bit(y, b))
  {
  }

  lemma {:induction false} BitXor(x: Word, y: Word, b: bv6)
    ensures Bit(Xor(x, y), b) == (Bit(x, b) != Bit(y, b))
  {
    hide Bit;
    BitXorPlain(x, y, b);
  }

  lemma {:induction false} BitNot(x: Word, b: bv6)
    ensures Bit(Not(x), b) == !Bit(x, b)
  {
  }

  lemma {:induction false} BitNegated(v: bool, b: bv6)
    ensures Bit(Negated(v), b) == v
  {
  }

  lemma {:induction false} BitShifted(v: bool, b: bv6, c: bv6)
    ensures Bit(Shifted(v, b), c) == (v && c == b)
  {
  }
}

/** The rolling Bloom filter (`CRollingBloomFilter`): every position carries a two-bit generation
    tag, kept in two parallel bit planes of 64-bit words. */
module RollingBloom {
  import opened Wrappers
  import Nonlinear
  import opened Words64

  const TWO32: nat := 0x1_0000_0000

  /** Bit `b` of the words `2 * pair` and `2 * pair + 1`. */
  datatype Position = Position(pair: nat, b: bv6)

  // ---- single words ----

  /** The two bits of a generation number. */
  predicate LowBit(gen: nat) { gen % 2 == 1 }
  predicate HighBit(gen: nat) { gen / 2 == 1 }

  /** `w` with bit `b` replaced by `v`. */
  function WithBit(w: Word, b: bv6, v: bool): Word {
    Or(And(w, Not(Shifted(true, b))), Shifted(v, b))
  }

  lemma {:induction false} BitWritten(w: Word, b: bv6, v: bool, c: bv6)
    ensures Bit(WithBit(w, b, v), c) == if c == b then v else Bit(w, c)
  {
    hide Bit, And, Or, Not, Shifted;
    var one := Shifted(true, b);
    BitOr(And(w, Not(one)), Shifted(v, b), c);
    BitAnd(w, Not(one), c);
    BitNot(one, c);
    BitShifted(true, b, c);
    BitShifted(v, b, c);
  }

  /** The mask that keeps every bit whose tag differs from the generation. */
  function KeepMask(p1: Word, p2: Word, gen: nat): Word {
    Or(Xor(p1, Negated(LowBit(gen))), Xor(p2, Negated(HighBit(gen))))
  }

  lemma {:induction false} BitKept(p1: Word, p2: Word, gen: nat, b: bv6)
    ensures Bit(KeepMask(p1, p2, gen), b) == (Bit(p1, b) != LowBit(gen) || Bit(p2, b) != HighBit(gen))
  {
    hide Bit, Or, Xor, Negated;
    var m1, m2 := Negated(LowBit(gen)), Negated(HighBit(gen));
    BitOr(Xor(p1, m1), Xor(p2, m2), b);
    BitXor(p1, m1, b);
    BitXor(p2, m2, b);
    BitNegated(LowBit(gen), b);
    BitNegated(HighBit(gen), b);
  }

  /** Two tag bits as a number: 0 for unset, 1 to 3 for a generation. */
  function Tag(p1: Word, p2: Word, b: bv6): nat { (if Bit(p1, b) then 1 else 0) + (if Bit(p2, b) then 2 else 0) }

  /** The wipe clears exactly the positions tagged with the generation. */
  lemma {:induction false} WipeTag(p1: Word, p2: Word, gen: nat, b: bv6)
    requires 1 <= gen <= 3
    ensures var mask := KeepMask(p1, p2, gen);
            Tag(And(p1, mask), And(p2, mask), b) == if Tag(p1, p2, b) == gen then 0 else Tag(p1, p2, b)
  {
    hide Bit, KeepMask, And;
    BitKept(p1, p2, gen, b);
    BitAnd(p1, KeepMask(p1, p2, gen), b);
    BitAnd(p2, KeepMask(p1, p2, gen), b);
  }

  lemma {:induction false} TagWritten(p1: Word, p2: Word, b: bv6, gen: nat, c: bv6)
    requires 1 <= gen <= 3
    ensures Tag(WithBit(p1, b, LowBit(gen)), WithBit(p2, b, HighBit(gen)), c)
         == if c == b then gen else Tag(p1, p2, c)
  {
    hide Bit, WithBit;
    BitWritten(p1, b, LowBit(gen), c);
    BitWritten(p2, b, HighBit(gen), c);
  }

  lemma {:induction false} EitherBit(p1: Word, p2: Word, b: bv6)
    ensures ((p1 | p2) >> b) & 1 == 0 <==> Tag(p1, p2, b) == 0
  {
  }

  // ---- the whole bit field ----

  predicate InField(data: seq<Word>, x: Position) { 2 * x.pair + 1 < |data| }

  function TagAt(data: seq<Word>, x: Position): nat
    requires InField(data, x)
  {
    Tag(data[2 * x.pair], data[2 * x.pair + 1], x.b)
  }

  /** The field with every position of one generation cleared. */
  function Wiped(data: seq<Word>, gen: nat): (data': seq<Word>)
    requires |data| % 2 == 0
    ensures |data'| == |data|
  {
    seq(|data|, i requires 0 <= i < |data| =>
      if i % 2 == 0 then And(data[i], KeepMask(data[i], data[i + 1], gen))
      else And(data[i], KeepMask(data[i - 1], data[i], gen)))
  }

  lemma {:induction false} WipedLength(data: seq<Word>, gen: nat)
    requires |data| % 2 == 0
    ensures |Wiped(data, gen)| == |data|
  {
  }

  lemma {:induction false} WipedPair(data: seq<Word>, gen: nat, i: nat)
    requires |data| % 2 == 0 && i % 2 == 0 && i + 1 < |data|
    ensures var mask := KeepMask(data[i], data[i + 1], gen);
            Wiped(data, gen)[i] == And(data[i], mask) && Wiped(data, gen)[i + 1] == And(data[i + 1], mask)
  {
    hide And, KeepMask;
  }

  lemma {:induction false} WipedTag(data: seq<Word>, gen: nat, x: Position)
    requires |data| % 2 == 0 && InField(data, x) && 1 <= gen <= 3
    ensures TagAt(Wiped(data, gen), x) == if TagAt(data, x) == gen then 0 else TagAt(data, x)
  {
    hide And, KeepMask, Tag;
    var i := 2 * x.pair;
    WipedPair(data, gen, i);
    WipeTag(data[i], data[i + 1], gen, x.b);
  }

  /** The field with one position tagged. */
  function Tagged(data: seq<Word>, x: Position, gen: nat): (data': seq<Word>)
    requires InField(data, x)
    ensures |data'| == |data|
  {
    data[2 * x.pair := WithBit(data[2 * x.pair], x.b, LowBit(gen))]
        [2 * x.pair + 1 := WithBit(data[2 * x.pair + 1], x.b, HighBit(gen))]
  }

  lemma {:induction false} TaggedTag(data: seq<Word>, x: Position, gen: nat, y: Position)
    requires InField(data, x) && InField(data, y) && 1 <= gen <= 3
    ensures TagAt(Tagged(data, x, gen), y) == if y == x then gen else TagAt(data, y)
  {
    TagWritten(data[2 * x.pair], data[2 * x.pair + 1], x.b, gen, y.b);
  }

  // ---- what the tags mean ----

  /** The tag that stands for generation number `g`. */
  function GenTag(g: nat): (tag: nat)
    ensures 1 <= tag <= 3
  {
    g % 3 + 1
  }

  /** The last generation, of `size` keys each, in which some key had position `x`. */
  function Stamp(touched: seq<set<Position>>, size: nat, x: Position): Option<nat>
    requires size > 0
  {
    if touched == [] then None
    else
      var last := |touched| - 1;
      if x in touched[last] then Some(last / size) else Stamp(touched[..last], size, x)
  }

  /** What the field shows in generation `now`: a position is set, with the tag of the last
      generation that touched it, if that is one of the last three. */
  function TagFor(touched: seq<set<Position>>, size: nat, now: nat, x: Position): nat
    requires size > 0
  {
    match Stamp(touched, size, x)
    case None => 0
    case Some(g) => if g + 2 >= now then GenTag(g) else 0
  }

  lemma {:induction false} StampBound(touched: seq<set<Position>>, size: nat, x: Position, now: nat)
    requires size > 0 && |touched| <= (now + 1) * size
    ensures Stamp(touched, size, x).Some? ==> Stamp(touched, size, x).value <= now
    decreases |touched|
  {
    if touched != [] {
      var last := |touched| - 1;
      if x in touched[last] {
        Nonlinear.DivBelow(last, now + 1, size);
      } else {
        StampBound(touched[..last], size, x, now);
      }
    }
  }

  /** Moving on to the next generation means wiping the tag it will use. */
  lemma {:induction false} NextGeneration(touched: seq<set<Position>>, size: nat, now: nat, x: Position)
    requires size > 0 && |touched| <= (now + 1) * size
    ensures var tag := TagFor(touched, size, now, x);
            TagFor(touched, size, now + 1, x) == if tag == GenTag(now + 1) then 0 else tag
  {
    StampBound(touched, size, x, now);
    match Stamp(touched, size, x)
    case None =>
    case Some(g) => if g + 2 >= now { assert g == now - 2 || g == now - 1 || g == now; }
  }

  /** A position is set exactly when one of the recent keys has it. */
  lemma {:induction false} SetIffRecent(touched: seq<set<Position>>, size: nat, now: nat, x: Position)
    requires size > 0
    ensures TagFor(touched, size, now, x) != 0
       <==> exists j :: 0 <= j < |touched| && j + 2 * size >= now * size && x in touched[j]
    decreases |touched|
  {
    if touched != [] {
      var last := |touched| - 1;
      DivAgainst(last, size, now);
      if x !in touched[last] {
        SetIffRecent(touched[..last], size, now, x);
        assert TagFor(touched, size, now, x) == TagFor(touched[..last], size, now, x);
        if exists j :: 0 <= j < |touched| && j + 2 * size >= now * size && x in touched[j] {
          var j :| 0 <= j < |touched| && j + 2 * size >= now * size && x in touched[j];
          assert x in touched[..last][j];
        }
      }
    }
  }

  lemma {:induction false} DivAgainst(j: nat, size: nat, now: nat)
    requires size > 0
    ensures j / size + 2 >= now <==> j + 2 * size >= now * size
  {
    Nonlinear.DivMul(j, size);
    var q := j / size;
    if q + 2 >= now {
      Nonlinear.MulMono(now, q + 2, size);
    } else {
      Nonlinear.MulMono(q + 3, now, size);
    }
  }

  lemma {:induction false} EvenNext(p: nat, n: nat)
    requires p % 2 == 0 && n % 2 == 0 && p < n
    ensures p + 1 < n && (p + 1) % 2 == 1 && (p + 2) % 2 == 0
  {
  }

  lemma {:induction false} NextTag(g: nat)
    ensures GenTag(g + 1) == if GenTag(g) == 3 then 1 else GenTag(g) + 1
  {
  }

  type uint32 = x: nat | x < TWO32

  lemma {:induction false} PairBelow(h: nat, size: nat)
    requires h < TWO32 && size > 0 && size % 2 == 0
    ensures 0 <= h * size && 0 <= h * size / TWO32 / 2 && 2 * (h * size / TWO32 / 2) + 1 < size
  {
    Nonlinear.MulNonneg(h, size);
    Nonlinear.MulStrict(h, TWO32, size);
    Nonlinear.DivBelow(h * size, size, TWO32);
    Nonlinear.DivNonneg(h * size, TWO32);
    HalfBelow(h * size / TWO32, size);
  }

  lemma {:induction false} HalfBelow(x: nat, size: nat)
    requires x < size && size % 2 == 0
    ensures 0 <= x / 2 && 2 * (x / 2) + 1 < size
  {
  }

  function PairOf(h: uint32, size: nat): nat {
    Nonlinear.MulNonneg(h, size);
    h * size / TWO32 / 2
  }

  function BitOf(h: uint32): bv6 { (h % 64) as bv6 }

  lemma {:induction false} PairScales(h: uint32, size: nat)
    ensures PairOf(h, size) * (2 * TWO32) <= h * size < (PairOf(h, size) + 1) * (2 * TWO32)
  {
    Nonlinear.MulNonneg(h, size);
    HalfScaled(h * size);
  }

  lemma {:induction false} HalfScaled(m: nat)
    ensures m / TWO32 / 2 * (2 * TWO32) <= m < (m / TWO32 / 2 + 1) * (2 * TWO32)
  {
  }

  lemma {:induction false} BitIs(h: uint32)
    ensures BitOf(h) as int == h % 64
  {
  }

  class RollingBloomFilter<K(!new)> {
    const nEntriesPerGeneration: nat
    const nHashFuncs: nat
    const data: array<Word>
    /** The seeded hash: hash number, tweak, key. */
    const hash: (nat, nat, K) -> uint32
    var nEntriesThisGeneration: nat
    var nGeneration: nat
    var nTweak: nat
    /** The keys inserted since the last reset, and the number of the current generation. */
    ghost var keys: seq<K>
    ghost var now: nat

    ghost predicate Wf() {
      nEntriesPerGeneration > 0 && data.Length > 0 && data.Length % 2 == 0
    }

    /** The position of a key under one hash: the low six bits of the hash give the bit, its high
        bits, scaled to the field's length, the word pair. */
    function PositionOf(n: nat, tweak: nat, key: K): (x: Position)
      requires data.Length > 0 && data.Length % 2 == 0
      ensures 2 * x.pair + 1 < data.Length
    {
      var h := hash(n, tweak, key);
      PairBelow(h, data.Length);
      Position(PairOf(h, data.Length), BitOf(h))
    }

    /** The pair is the same fraction of the field as the hash is of 2^32, rounded down; the bit is the hash
        modulo 64. */
    lemma PositionScales(n: nat, tweak: nat, key: K)
      requires data.Length > 0 && data.Length % 2 == 0
      ensures var h, x := hash(n, tweak, key), PositionOf(n, tweak, key);
              && x.pair * (2 * TWO32) <= h * data.Length < (x.pair + 1) * (2 * TWO32)
              && x.b as int == h % 64
    {
      hide PairOf, BitOf;
      PairScales(hash(n, tweak, key), data.Length);
      BitIs(hash(n, tweak, key));
    }

    ghost function Positions(key: K, tweak: nat, count: nat): set<Position>
      requires Wf()
    {
      set n | 0 <= n < count :: PositionOf(n, tweak, key)
    }

    ghost function Touched(keys: seq<K>, tweak: nat): seq<set<Position>>
      requires Wf()
    {
      seq(|keys|, j requires 0 <= j < |keys| && Wf() => Positions(keys[j], tweak, nHashFuncs))
    }

    /** The tags are exactly those of the last three generations' keys. */
    ghost predicate Valid()
      reads this, data
    {
      && Wf()
      && nGeneration == GenTag(now)
      && nEntriesThisGeneration <= nEntriesPerGeneration
      && |keys| == now * nEntriesPerGeneration + nEntriesThisGeneration
      && (nEntriesThisGeneration == 0 ==> keys == [])
      && Shows(data[..], now, nTweak, keys)
    }

    ghost predicate Shows(d: seq<Word>, now: nat, tweak: nat, keys: seq<K>)
      requires Wf() && |d| == data.Length
    {
      forall x | InField(d, x) :: TagAt(d, x) == TagFor(Touched(keys, tweak), nEntriesPerGeneration, now, x)
    }

    /** How many of the latest keys the filter vouches for. */
    ghost function Window(): nat
      reads this
    {
      2 * nEntriesPerGeneration + nEntriesThisGeneration
    }

    constructor (nEntriesPerGeneration: nat, nHashFuncs: nat, words: nat,
                 hash: (nat, nat, K) -> uint32, tweak: nat)
      requires nEntriesPerGeneration > 0 && words > 0 && words % 2 == 0
      ensures Valid() && keys == [] && fresh(data)
      ensures this.nEntriesPerGeneration == nEntriesPerGeneration && this.nHashFuncs == nHashFuncs
    {
      this.nEntriesPerGeneration, this.nHashFuncs, this.hash := nEntriesPerGeneration, nHashFuncs, hash;
      data := new Word[words](_ => 0);
      nEntriesThisGeneration, nGeneration, nTweak := 0, 1, tweak;
      keys, now := [], 0;
    }

    method Reset(tweak: nat)
      requires Valid()
      modifies this, data
      ensures Valid() && keys == [] && nTweak == tweak && nEntriesThisGeneration == 0
    {
      nTweak := tweak;
      nEntriesThisGeneration := 0;
      nGeneration := 1;
      for i := 0 to data.Length
        modifies data
        invariant forall j | 0 <= j < i :: data[j] == 0
      {
        data[i] := 0;
      }
      keys, now := [], 0;
    }

    /** Clears every position tagged with the generation about to be reused. */
    method Wipe()
      requires Wf()
      modifies data
      ensures data[..] == Wiped(old(data[..]), nGeneration)
    {
      hide And, KeepMask, Wiped;
      ghost var was := data[..];
      WipedLength(was, nGeneration);
      ghost var wiped := Wiped(was, nGeneration);
      var p := 0;
      while p < data.Length
        invariant 0 <= p <= data.Length && p % 2 == 0
        invariant forall i | 0 <= i < data.Length :: data[i] == if i < p then wiped[i] else was[i]
      {
        EvenNext(p, data.Length);
        var p1, p2 := data[p], data[p + 1];
        var mask := KeepMask(p1, p2, nGeneration);
        WipedPair(was, nGeneration, p);
        data[p] := And(p1, mask);
        data[p + 1] := And(p2, mask);
        p := p + 2;
      }
      assert data[..] == wiped;
    }

    lemma WipeShows(d: seq<Word>, now: nat, tweak: nat, keys: seq<K>)
      requires Wf() && |d| == data.Length && Shows(d, now, tweak, keys)
      requires |keys| <= (now + 1) * nEntriesPerGeneration
      ensures Shows(Wiped(d, GenTag(now + 1)), now + 1, tweak, keys)
    {
      var wiped := Wiped(d, GenTag(now + 1));
      forall x | InField(wiped, x)
        ensures TagAt(wiped, x) == TagFor(Touched(keys, tweak), nEntriesPerGeneration, now + 1, x)
      {
        WipedTag(d, GenTag(now + 1), x);
        NextGeneration(Touched(keys, tweak), nEntriesPerGeneration, now, x);
      }
    }

    /** Starts the next generation. */
    method Rotate()
      requires Valid() && nEntriesThisGeneration == nEntriesPerGeneration
      modifies this, data
      ensures keys == old(keys) && nTweak == old(nTweak)
      ensures now == old(now) + 1 && nGeneration == GenTag(now) && nEntriesThisGeneration == 0
      ensures |keys| == now * nEntriesPerGeneration
      ensures Shows(data[..], now, nTweak, keys)
    {
      hide TagAt, TagFor, Wiped;
      nEntriesThisGeneration := 0;
      nGeneration := nGeneration + 1;
      if nGeneration == 4 {
        nGeneration := 1;
      }
      NextTag(now);
      Nonlinear.MulNext(now, nEntriesPerGeneration);
      WipeShows(data[..], now, nTweak, keys);
      Wipe();
      now := now + 1;
      assert data[..] == Wiped(old(data[..]), GenTag(now));
    }

    /** The field half-way through an insertion: `count` positions of the key are tagged. */
    ghost predicate Tagging(d: seq<Word>, now: nat, tweak: nat, keys: seq<K>, key: K, count: nat)
      requires Wf() && |d| == data.Length
    {
      forall x | InField(d, x) :: TagAt(d, x) ==
        if x in Positions(key, tweak, count) then GenTag(now)
        else TagFor(Touched(keys, tweak), nEntriesPerGeneration, now, x)
    }

    lemma TaggingStep(d: seq<Word>, now: nat, tweak: nat, keys: seq<K>, key: K, count: nat)
      requires Wf() && |d| == data.Length && Tagging(d, now, tweak, keys, key, count)
      ensures Tagging(Tagged(d, PositionOf(count, tweak, key), GenTag(now)), now, tweak, keys, key, count + 1)
    {
      var at := PositionOf(count, tweak, key);
      assert Positions(key, tweak, count + 1) == Positions(key, tweak, count) + {at};
      forall x | InField(d, x) ensures TagAt(Tagged(d, at, GenTag(now)), x) ==
        if x in Positions(key, tweak, count + 1) then GenTag(now)
        else TagFor(Touched(keys, tweak), nEntriesPerGeneration, now, x)
      {
        TaggedTag(d, at, GenTag(now), x);
      }
    }

    lemma TaggingDone(d: seq<Word>, now: nat, tweak: nat, keys: seq<K>, key: K)
      requires Wf() && |d| == data.Length && Tagging(d, now, tweak, keys, key, nHashFuncs)
      requires now * nEntriesPerGeneration <= |keys| < (now + 1) * nEntriesPerGeneration
      ensures Shows(d, now, tweak, keys + [key])
    {
      var touched, touched' := Touched(keys, tweak), Touched(keys + [key], tweak);
      assert touched'[..|keys|] == touched;
      Nonlinear.DivExact(|keys|, now, nEntriesPerGeneration);
    }

    /** Adds a key; older keys lose their tags only when a generation is reused. */
    method Insert(key: K)
      requires Valid()
      modifies this, data
      ensures Valid() && keys == old(keys) + [key] && nTweak == old(nTweak)
      ensures nEntriesThisGeneration ==
                if old(nEntriesThisGeneration) == nEntriesPerGeneration then 1 else old(nEntriesThisGeneration) + 1
    {
      if nEntriesThisGeneration == nEntriesPerGeneration {
        Rotate();
      }
      Nonlinear.MulNext(now, nEntriesPerGeneration);
      nEntriesThisGeneration := nEntriesThisGeneration + 1;
      for n := 0 to nHashFuncs
        modifies data
        invariant Tagging(data[..], now, nTweak, keys, key, n)
      {
        TaggingStep(data[..], now, nTweak, keys, key, n);
        SetTag(PositionOf(n, nTweak, key));
      }
      TaggingDone(data[..], now, nTweak, keys, key);
      keys := keys + [key];
    }

    /** Writes the current generation's two bits at a position. */
    method SetTag(x: Position)
      requires InField(data[..], x)
      modifies data
      ensures data[..] == Tagged(old(data[..]), x, nGeneration)
    {
      var i := 2 * x.pair;
      data[i] := WithBit(data[i], x.b, LowBit(nGeneration));
      data[i + 1] := WithBit(data[i + 1], x.b, HighBit(nGeneration));
      assert data[..] == Tagged(old(data[..]), x, nGeneration);
    }

    /** Some key among the latest Window() has the position. */
    ghost predicate RecentlyTouched(x: Position)
      requires Wf()
      reads this
    {
      exists j :: 0 <= j < |keys| && j + Window() >= |keys| && x in Positions(keys[j], nTweak, nHashFuncs)
    }

    /** Positive exactly when every position of the key is shared with one of the latest Window()
        keys; in particular always for those keys themselves. */
    method Contains(key: K) returns (r: bool)
      requires Valid()
      ensures r <==> forall n | 0 <= n < nHashFuncs :: RecentlyTouched(PositionOf(n, nTweak, key))
      ensures (exists j :: 0 <= j < |keys| && |keys| - j <= 2 * nEntriesPerGeneration + nEntriesThisGeneration
                           && keys[j] == key) ==> r
    {
      r := true;
      var n := 0;
      while n < nHashFuncs
        invariant 0 <= n <= nHashFuncs
        invariant forall m | 0 <= m < n :: RecentlyTouched(PositionOf(m, nTweak, key))
      {
        var x := PositionOf(n, nTweak, key);
        TouchedWhenSet(x);
        if ((data[2 * x.pair] | data[2 * x.pair + 1]) >> x.b) & 1 == 0 {
          return false;
        }
        n := n + 1;
      }
    }

    lemma TouchedWhenSet(x: Position)
      requires Valid() && InField(data[..], x)
      ensures ((data[2 * x.pair] | data[2 * x.pair + 1]) >> x.b) & 1 == 0 <==> !RecentlyTouched(x)
    {
      hide Tag, TagFor, Bit;
      var touched := Touched(keys, nTweak);
      EitherBit(data[2 * x.pair], data[2 * x.pair + 1], x.b);
      SetIffRecent(touched, nEntriesPerGeneration, now, x);
      assert TagAt(data[..], x) == TagFor(touched, nEntriesPerGeneration, now, x);
      if RecentlyTouched(x) {
        var j :| 0 <= j < |keys| && j + Window() >= |keys| && x in Positions(keys[j], nTweak, nHashFuncs);
        assert x in touched[j];
      }
      if TagAt(data[..], x) != 0 {
        var j :| 0 <= j < |touched| && j + 2 * nEntriesPerGeneration >= now * nEntriesPerGeneration && x in touched[j];
        assert x in Positions(keys[j], nTweak, nHashFuncs);
      }
    }
  }
}
