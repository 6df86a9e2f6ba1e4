/** The 32-bit "compact" encoding of difficulty targets, and the work a block proves. */
module Compact {
  import Nonlinear
  import opened Limbs
  import LimbShifts
  import opened ArithUint256

  // ---- the format: 8 bits of exponent, one sign bit, 23 bits of mantissa ----

  function Exponent(c: uint32): nat { c / 0x100_0000 }

  predicate SignBit(c: uint32) { c / 0x80_0000 % 2 == 1 }

  function Mantissa(c: uint32): nat { c % 0x80_0000 }

  /** The three fields side by side make up the number. */
  lemma {:induction false} Fields(c: uint32)
    ensures c == Exponent(c) * 0x100_0000 + (if SignBit(c) then 0x80_0000 else 0) + Mantissa(c)
    ensures Exponent(c) < 256 && Mantissa(c) < 0x80_0000
  {
  }

  /** The magnitude a compact number stands for: mantissa * 256^(exponent-3), rounded down. */
  function Magnitude(c: uint32): nat {
    Scale(Mantissa(c), Exponent(c))
  }

  function Scale(word: nat, size: nat): nat {
    if size <= 3 then LimbShifts.Quotient(word, Pow2(8 * (3 - size)))
    else
      Nonlinear.MulNonneg(word, Pow2(8 * (size - 3)));
      word * Pow2(8 * (size - 3))
  }

  /** Number of bits needed to write `v`. */
  function BitLength(v: nat): nat {
    if v == 0 then 0 else 1 + BitLength(v / 2)
  }

  lemma {:induction false} BitLengthBounds(v: nat)
    ensures v < Pow2(BitLength(v))
    ensures v > 0 ==> Pow2(BitLength(v) - 1) <= v
  {
    if v > 0 { BitLengthBounds(v / 2); }
  }

  lemma {:induction false} BitLengthZero()
    ensures BitLength(0) == 0
  {
  }

  lemma {:induction false} BitLengthUnique(v: nat, n: nat)
    requires v < Pow2(n) && (n > 0 ==> Pow2(n - 1) <= v)
    ensures n == BitLength(v)
  {
    BitLengthBounds(v);
    var m := BitLength(v);
    if n < m { Pow2Mono(n, m - 1); }
    if m < n { Pow2Mono(m, n - 1); }
  }

  function ByteLength(v: nat): nat { (BitLength(v) + 7) / 8 }

  lemma {:induction false} ByteLengthBounds(v: nat)
    ensures v < Pow2(8 * ByteLength(v))
    ensures v > 0 ==> ByteLength(v) > 0 && Pow2(8 * (ByteLength(v) - 1)) <= v
    ensures v == 0 ==> ByteLength(v) == 0
  {
    hide Pow2, BitLength;
    BitLengthBounds(v);
    BitLengthZero();
    Pow2Zero();
    Pow2Mono(BitLength(v), 8 * ByteLength(v));
    if v > 0 {
      assert BitLength(v) > 0;
      Pow2Mono(8 * (ByteLength(v) - 1), BitLength(v) - 1);
    }
  }

  lemma {:induction false} ByteLengthUnique(v: nat, n: nat)
    requires v < Pow2(8 * n) && (n > 0 ==> Pow2(8 * (n - 1)) <= v)
    ensures n == ByteLength(v)
  {
    hide Pow2, BitLength;
    ByteLengthBounds(v);
    var m := ByteLength(v);
    if n < m { Pow2Mono(8 * n, 8 * (m - 1)); }
    if m < n { Pow2Mono(8 * m, 8 * (n - 1)); }
  }

  /** The mantissa before the sign bit is avoided: the three most significant bytes. */
  function TopBytes(v: nat): nat {
    var size := ByteLength(v);
    if size <= 3 then
      Nonlinear.MulNonneg(v, Pow2(8 * (3 - size)));
      v * Pow2(8 * (3 - size))
    else LimbShifts.Quotient(v, Pow2(8 * (size - 3)))
  }

  lemma {:induction false} TopBytesBound(v: nat)
    ensures TopBytes(v) < 0x100_0000
  {
    hide Pow2, BitLength;
    ByteLengthBounds(v);
    var size := ByteLength(v);
    Pow2Base();
    Pow2Add(8, 16);
    if size <= 3 {
      Pow2Add(8 * size, 8 * (3 - size));
      Nonlinear.MulStrict(v, Pow2(8 * size), Pow2(8 * (3 - size)));
    } else {
      Pow2Add(24, 8 * (size - 3));
      Nonlinear.DivBelow(v, Pow2(24), Pow2(8 * (size - 3)));
    }
  }

  /** Mantissa and size as encoded: one byte less and one more when the sign bit would be set. */
  function Word(v: nat): nat {
    if TopBytes(v) >= 0x80_0000 then TopBytes(v) / 256 else TopBytes(v)
  }

  function Size(v: nat): nat {
    if TopBytes(v) >= 0x80_0000 then ByteLength(v) + 1 else ByteLength(v)
  }

  /** What `GetCompact` returns. */
  function CompactOf(v: nat, negative: bool): uint32
    requires Word(v) < 0x80_0000 && Size(v) < 256
  {
    Size(v) * 0x100_0000 + Word(v) + if negative && Word(v) != 0 then 0x80_0000 else 0
  }

  lemma {:induction false} CompactFits(v: nat)
    requires v < MODULUS
    ensures Word(v) < 0x80_0000 && Size(v) <= 33
  {
    hide Pow2, Weight, BitLength, TopBytes;
    TopBytesBound(v);
    ByteLengthBounds(v);
    WeightIs(WIDTH);
    if ByteLength(v) > 32 { Pow2Mono(256, 8 * (ByteLength(v) - 1)); }
  }

  /** The number with every byte cleared that the encoding cannot hold. */
  function Truncated(v: nat): nat {
    if Size(v) <= 3 then v
    else
      Nonlinear.ModBelow(v, Pow2(8 * (Size(v) - 3)));
      Nonlinear.ModAtMost(v, Pow2(8 * (Size(v) - 3)));
      v - v % Pow2(8 * (Size(v) - 3))
  }

  lemma {:induction false} ScaleOfEncoded(v: nat)
    ensures Scale(Word(v), Size(v)) == Truncated(v)
  {
    hide Pow2, BitLength;
    var n := ByteLength(v);
    Pow2Base();
    if n <= 2 {
      var p := Pow2(8 * (2 - n));
      Pow2Add(8, 8 * (2 - n));
      TopExact(v, p);
    } else if n == 3 {
      Pow2Zero();
      Nonlinear.DivMul(v, 256);
      assert 8 * (4 - 3) == 8;
    } else {
      var p := Pow2(8 * (n - 3));
      Pow2Add(8, 8 * (n - 3));
      TopRounded(v, p);
    }
  }

  lemma {:induction false} TopExact(v: nat, p: nat)
    requires p > 0
    ensures v * (256 * p) / (256 * p) == v
    ensures v * (256 * p) / 256 / p == v
  {
    Nonlinear.ModExact(v * (256 * p), v, 256 * p, 0);
    assert v * (256 * p) == v * p * 256;
    Nonlinear.ModExact(v * p * 256, v * p, 256, 0);
    Nonlinear.ModExact(v * p, v, p, 0);
  }

  lemma {:induction false} TopRounded(v: nat, p: nat)
    requires p > 0
    ensures v / p * p == v - v % p
    ensures v / p / 256 == v / (256 * p)
    ensures v / p / 256 * (256 * p) == v - v % (256 * p)
  {
    Nonlinear.DivMul(v, p);
    Nonlinear.DivMul(v, 256 * p);
    Nonlinear.DivDiv(v, p, 256);
    assert p * 256 == 256 * p;
  }

  /** The mantissa of a positive number keeps as many bits as fit: its first or second byte is not zero. */
  lemma {:induction false} Normalised(v: nat)
    requires v > 0
    ensures 0x8000 <= Word(v) < 0x80_0000
  {
    hide Pow2, BitLength;
    TopBytesBound(v);
    ByteLengthBounds(v);
    var size := ByteLength(v);
    Pow2Base();
    if size <= 3 {
      Pow2Add(8 * (size - 1), 8 * (3 - size));
      assert 8 * (size - 1) + 8 * (3 - size) == 16;
      Nonlinear.MulMono(Pow2(8 * (size - 1)), v, Pow2(8 * (3 - size)));
    } else {
      Pow2Add(16, 8 * (size - 3));
      assert 16 + 8 * (size - 3) == 8 * (size - 1);
      AtLeast(v, Pow2(16), Pow2(8 * (size - 3)));
    }
  }

  lemma {:induction false} AtLeast(v: nat, k: nat, p: nat)
    requires p > 0 && k * p <= v
    ensures v / p >= k
  {
    Nonlinear.DivMul(v, p);
    if v / p < k {
      Nonlinear.MulMono(v / p + 1, k, p);
      Nonlinear.MulNext(v / p, p);
      Nonlinear.ModBelow(v, p);
    }
  }

  /** Decoding an encoded number gives it back with low bytes cleared and with its sign, never too large. */
  lemma {:induction false} RoundTrip(v: nat, negative: bool)
    requires v < MODULUS
    ensures Word(v) < 0x80_0000 && Size(v) < 256
    ensures var c := CompactOf(v, negative);
            && Magnitude(c) == Truncated(v) <= v
            && (SignBit(c) <==> negative && v != 0)
            && (Size(v) <= 3 ==> Magnitude(c) == v)
  {
    hide Pow2, Weight, BitLength, TopBytes, Scale, Word, Size;
    CompactFits(v);
    FieldsOf(Size(v), Word(v), 0);
    FieldsOf(Size(v), Word(v), 1);
    if v > 0 { Normalised(v); } else { NoMantissa(); }
    ScaleOfEncoded(v);
    if Size(v) > 3 { Nonlinear.ModBelow(v, Pow2(8 * (Size(v) - 3))); }
  }

  lemma {:induction false} NoMantissa()
    ensures Word(0) == 0
  {
    assert ByteLength(0) == 0;
  }

  lemma {:induction false} FieldsOf(size: nat, word: nat, sign: nat)
    requires size < 256 && word < 0x80_0000 && sign <= 1
    ensures var c := size * 0x100_0000 + sign * 0x80_0000 + word;
            c < BASE && c / 0x100_0000 == size && c / 0x80_0000 % 2 == sign && c % 0x80_0000 == word
  {
    var c := size * 0x100_0000 + sign * 0x80_0000 + word;
    Nonlinear.ModExact(c, size, 0x100_0000, sign * 0x80_0000 + word);
    Nonlinear.ModExact(c, 2 * size + sign, 0x80_0000, word);
  }

  /** Clearing the bytes that do not fit keeps size and mantissa. */
  lemma {:induction false} TruncatedSame(v: nat)
    ensures ByteLength(Truncated(v)) == ByteLength(v)
    ensures Word(Truncated(v)) == Word(v) && Size(Truncated(v)) == Size(v)
  {
    hide Pow2, BitLength;
    var n, t := ByteLength(v), Truncated(v);
    if Size(v) > 3 {
      var p := Pow2(8 * (n - 3));
      var p' := Pow2(8 * (Size(v) - 3));
      ByteLengthBounds(v);
      Pow2Base();
      Pow2Add(8, 8 * (n - 3));
      Pow2Mono(8 * (Size(v) - 3), 8 * (n - 1));
      Pow2Add(8 * (Size(v) - 3), 8 * (n - 1) - 8 * (Size(v) - 3));
      Nonlinear.ModBelow(v, p');
      RoundDown(v, p', Pow2(8 * (n - 1) - 8 * (Size(v) - 3)));
      ByteLengthUnique(t, n);
      if n == 3 { Pow2Zero(); }
      SameTop(v, p);
    }
  }

  lemma {:induction false} RoundDown(v: nat, p: nat, k: nat)
    requires p > 0 && p * k <= v
    ensures p * k <= v - v % p <= v
  {
    Nonlinear.DivMul(v, p);
    if v / p < k { Nonlinear.MulMono(v / p + 1, k, p); Nonlinear.MulNext(v / p, p); Nonlinear.ModBelow(v, p); }
    else { Nonlinear.MulMono(k, v / p, p); }
  }

  lemma {:induction false} SameTop(v: nat, p: nat)
    requires p > 0
    ensures (v - v % p) / p == v / p
    ensures (v - v % (256 * p)) / p / 256 == v / p / 256
    ensures (v - v % (256 * p)) / p >= 0x80_0000 <==> v / p >= 0x80_0000
  {
    Nonlinear.DivMul(v, p);
    Nonlinear.ModExact(v - v % p, v / p, p, 0);
    WholeTop(v, p);
    Nonlinear.DivDiv(v, p, 256);
    CoarseTop(v / p / 256, v / p % 256);
    Nonlinear.DivMul(v / p, 256);
  }

  lemma {:induction false} WholeTop(v: nat, p: nat)
    requires p > 0
    ensures p * 256 == 256 * p && (v - v % (256 * p)) / p == v / (256 * p) * 256
  {
    var q := v / (256 * p);
    Nonlinear.DivMul(v, 256 * p);
    Nonlinear.MulAssoc(q, 256, p);
    Nonlinear.ModExact(v - v % (256 * p), q * 256, p, 0);
  }

  lemma {:induction false} CoarseTop(q: nat, r: nat)
    requires r < 256
    ensures q * 256 / 256 == q && (q * 256 >= 0x80_0000 <==> q * 256 + r >= 0x80_0000)
  {
  }

  /** A second round trip changes nothing. */
  lemma {:induction false} RoundTripIdempotent(v: nat)
    requires v < MODULUS
    ensures Word(v) < 0x80_0000 && Size(v) < 256 && Truncated(v) < MODULUS
    ensures Word(Truncated(v)) < 0x80_0000 && Size(Truncated(v)) < 256
    ensures Magnitude(CompactOf(v, false)) == Truncated(v)
    ensures CompactOf(Truncated(v), false) == CompactOf(v, false)
    ensures Truncated(Truncated(v)) == Truncated(v)
  {
    hide Pow2, Weight, BitLength, TopBytes, Scale, Word, Size, Truncated, Magnitude, MODULUS;
    RoundTrip(v, false);
    TruncatedSame(v);
    CompactFits(v);
    RoundTrip(Truncated(v), false);
    ScaleOfEncoded(v);
    ScaleOfEncoded(Truncated(v));
  }

  lemma {:induction false} SmallPowers()
    ensures Pow2(0) == 1 && Pow2(8) == 256 && Pow2(16) == 0x1_0000
  {
    hide Pow2;
    Pow2Base();
    Pow2Zero();
  }

  /** Published pairs of compact forms and magnitudes. */
  lemma {:induction false} Published()
    ensures Magnitude(0x01fedcba) == 0x7e && SignBit(0x01fedcba) && Magnitude(0x02123456) == 0x1234
    ensures Magnitude(0x03123456) == 0x12_3456 && Magnitude(0x04123456) == 0x1234_5600 && !SignBit(0x04123456)
    ensures Magnitude(0x04923456) == 0x1234_5600 && SignBit(0x04923456) && Magnitude(0x05009234) == 0x9234_0000
  {
    hide Pow2;
    SmallPowers();
  }

  // ---- the operations ----

  /** The overflow test of `SetCompact`, on the mantissa as shifted for small exponents. */
  predicate OverflowTest(size: nat, word: nat) {
    word != 0 && (size > 34 || (word > 0xff && size > 33) || (word > 0xffff && size > 32))
  }

  /** The test is exact: the encoded number does not fit in 256 bits. */
  lemma {:induction false} OverflowExact(size: nat, word: nat)
    requires size < 256 && word < 0x80_0000
    ensures size > 3 ==> (OverflowTest(size, word) <==> Scale(word, size) >= MODULUS)
    ensures size <= 3 ==> Scale(word, size) < MODULUS && !OverflowTest(size, word)
  {
    hide Pow2, Weight;
    WeightIs(WIDTH);
    Pow2Base();
    Pow2Add(8, 16);
    Pow2Mono(24, 256);
    if size <= 3 {
      Nonlinear.DivAtMost(word, Pow2(8 * (3 - size)));
    } else if size > 34 {
      Pow2Mono(256, 8 * (size - 3));
      if word > 0 { Nonlinear.MulMono(1, word, Pow2(8 * (size - 3))); }
    } else {
      var room := 8 * (35 - size);
      Pow2Add(room, 8 * (size - 3));
      assert room + 8 * (size - 3) == 256;
      Threshold(word, Pow2(room), Pow2(8 * (size - 3)));
      if size <= 32 { Pow2Mono(24, room); }
    }
  }

  lemma {:induction false} Threshold(word: nat, p: nat, w: nat)
    requires w > 0
    ensures word * w >= p * w <==> word >= p
  {
    if word >= p { Nonlinear.MulMono(p, word, w); } else { Nonlinear.MulStrict(word, p, w); }
  }

  /** Decodes a compact number: its magnitude modulo 2^256, whether that is a negative number, and
      whether it overflowed. */
  method SetCompact(x: Uint256, c: uint32) returns (negative: bool, overflow: bool)
    requires x.Wf()
    modifies x.pn
    ensures x.Value() == Magnitude(c) % MODULUS
    ensures overflow <==> Magnitude(c) >= MODULUS
    ensures negative <==> SignBit(c) && Magnitude(c) != 0
  {
    hide Pow2, Weight, Val;
    var size, word := Exponent(c), Mantissa(c);
    OverflowExact(size, word);
    ScaleZero(word, size);
    Nonlinear.DivBelow(c, 256, 0x100_0000);
    if size <= 3 {
      word := LimbShifts.Quotient(word, Pow2(8 * (3 - size)));
      Nonlinear.DivAtMost(Mantissa(c), Pow2(8 * (3 - size)));
      x.AssignUint64(word);
      Nonlinear.ModExact(word, 0, MODULUS, word);
    } else {
      x.AssignUint64(word);
      x.ShiftLeft(8 * (size - 3));
    }
    negative := word != 0 && SignBit(c);
    overflow := OverflowTest(size, word);
  }

  lemma {:induction false} ScaleZero(word: nat, size: nat)
    ensures size > 3 ==> (Scale(word, size) == 0 <==> word == 0)
  {
    if word > 0 && size > 3 { Nonlinear.MulStrict(0, word, Pow2(8 * (size - 3))); }
  }

  /** Encodes the value, keeping the three most significant bytes. */
  method GetCompact(x: Uint256, negative: bool) returns (c: uint32)
    requires x.Wf()
    ensures Word(x.Value()) < 0x80_0000 && Size(x.Value()) < 256
    ensures c == CompactOf(x.Value(), negative)
  {
    hide Pow2, Weight, Val, BitLength;
    ghost var v := x.Value();
    ValBound(x.pn[..]);
    CompactFits(v);
    TopBytesBound(v);
    var bits := x.Bits();
    BitLengthUnique(v, bits);
    var size := (bits + 7) / 8;
    var word;
    if size <= 3 {
      var low := x.GetLow64();
      ByteLengthBounds(v);
      Pow2Mono(8 * size, 24);
      Pow2Base();
      Pow2Add(8, 16);
      Nonlinear.ModExact(v, 0, BASE * BASE, v);
      word := low * Pow2(8 * (3 - size));
    } else {
      var bn := new Uint256.Copy(x);
      bn.ShiftRight(8 * (size - 3));
      word := bn.GetLow64();
      Nonlinear.ModExact(TopBytes(v), 0, BASE * BASE, TopBytes(v));
    }
    assert word == TopBytes(v);
    if word >= 0x80_0000 {
      word := word / 256;
      size := size + 1;
    }
    FieldsOf(size, word, 0);
    c := size * 0x100_0000 + word;
    if negative && word != 0 {
      FieldsOf(size, word, 1);
      c := c + 0x80_0000;
    }
  }

  // ---- block proof ----

  /** The work proved by a block whose target is `target`: one in target + 1 hashes qualifies. */
  function Work(target: nat): nat { MODULUS / (target + 1) }

  /** `~target / (target + 1) + 1` computes the quotient that does not fit in 256 bits. */
  lemma {:induction false} WorkFormula(target: nat)
    requires 0 < target < MODULUS
    ensures (MODULUS - 1 - target) / (target + 1) + 1 == Work(target)
    ensures Work(target) < MODULUS
  {
    hide Weight;
    WholeStep(MODULUS, target + 1);
  }

  lemma {:induction false} WholeStep(m: nat, d: nat)
    requires 1 < d <= m
    ensures (m - d) / d + 1 == m / d < m
  {
    var q, r := (m - d) / d, (m - d) % d;
    Nonlinear.DivMul(m - d, d);
    Nonlinear.MulNext(q, d);
    Nonlinear.ModExact(m, q + 1, d, r);
    Nonlinear.MulMono(2, d, q + 1);
    assert d * (q + 1) == (q + 1) * d;
  }

  /** No compact number is 2^256 - 1, so adding one never wraps. */
  lemma {:induction false} TargetNotMaximal(c: uint32)
    requires Magnitude(c) < MODULUS
    ensures Magnitude(c) + 1 < MODULUS
  {
    hide Weight, Pow2;
    WeightIs(WIDTH);
    Pow2Base();
    Pow2Add(8, 248);
    var size, word := Exponent(c), Mantissa(c);
    if size <= 3 {
      Nonlinear.DivAtMost(word, Pow2(8 * (3 - size)));
      Pow2Add(8, 16);
      Pow2Mono(24, 256);
    } else {
      EvenMagnitude(word, size);
      Parity(word * Pow2(8 * (size - 4)), Pow2(248));
    }
  }

  lemma {:induction false} EvenMagnitude(word: nat, size: nat)
    requires size > 3
    ensures word * Pow2(8 * (size - 3)) == 256 * (word * Pow2(8 * (size - 4)))
  {
    hide Pow2;
    Pow2Base();
    Pow2Add(8, 8 * (size - 4));
    assert 8 + 8 * (size - 4) == 8 * (size - 3);
    var w := Pow2(8 * (size - 4));
    Nonlinear.MulAssoc(word, 256, w);
    Nonlinear.MulAssoc(256, word, w);
  }

  lemma {:induction false} Parity(a: nat, b: nat)
    requires 256 * a < 256 * b
    ensures 256 * a + 1 < 256 * b
  {
  }

  /** The work of a block: zero for a target that is negative, too large or zero, otherwise the
      exact quotient 2^256 / (target + 1). */
  method GetBlockProof(nBits: uint32) returns (proof: Uint256)
    ensures proof.Wf()
    ensures var m := Magnitude(nBits);
            proof.Value() == if (SignBit(nBits) && m != 0) || m >= MODULUS || m == 0 then 0 else Work(m)
  {
    hide Pow2, Weight, Val, Magnitude, Work;
    var target := new Uint256.FromUint64(0);
    var negative, overflow := SetCompact(target, nBits);
    if !overflow { Nonlinear.ModExact(Magnitude(nBits), 0, MODULUS, Magnitude(nBits)); }
    var isZero := target.EqualTo(0);
    if negative || overflow || isZero {
      proof := new Uint256.FromUint64(0);
      return;
    }
    TargetNotMaximal(nBits);
    WorkFormula(Magnitude(nBits));
    proof := target.Complement();
    var one := new Uint256.FromUint64(1);
    target.Add(one);
    Nonlinear.ModExact(Magnitude(nBits) + 1, 0, MODULUS, Magnitude(nBits) + 1);
    var _ := proof.Div(target);
    proof.Add(one);
    Nonlinear.ModExact(Work(Magnitude(nBits)), 0, MODULUS, Work(Magnitude(nBits)));
  }
}
