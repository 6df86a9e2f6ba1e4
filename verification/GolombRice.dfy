/** Golomb-Rice coding on a stream of bits (BIP 158, section "Golomb-Rice Coding"). */
module GolombRice {
  import opened Wrappers
  import Nonlinear
  import opened Limbs
  import opened BitStreams

  /** The code of `x`: the quotient by 2^p in unary, then the remainder in p bits. */
  function Code(p: nat, x: nat): seq<bool> {
    Nonlinear.DivNonneg(x, Pow2(p));
    seq(x / Pow2(p), _ => true) + [false] + ToBits(x, p)
  }

  /** Bit by bit: ones for the quotient, a zero, and the remainder with its highest bit first. */
  lemma {:induction false} CodeShape(p: nat, x: nat, i: nat)
    requires i < |Code(p, x)|
    ensures |Code(p, x)| == x / Pow2(p) + 1 + p
    ensures var q := x / Pow2(p);
            Code(p, x)[i] == if i <= q then i < q else x / Pow2(q + p - i) % 2 == 1
  {
    hide Pow2, ToBits;
    Nonlinear.DivNonneg(x, Pow2(p));
    var q: nat := x / Pow2(p);
    BitsLength(x, p);
    if i > q { BitsAt(x, p, i - q - 1); }
  }

  lemma {:induction false} BitsLength(x: nat, n: nat)
    ensures |ToBits(x, n)| == n
  {
  }

  lemma {:induction false} BitsAt(x: nat, n: nat, i: nat)
    requires i < n
    ensures ToBits(x, n)[i] == (x / Pow2(n - 1 - i) % 2 == 1)
    decreases n
  {
    hide Pow2;
    if i == n - 1 {
      Pow2Zero();
    } else {
      BitsAt(x / 2, n - 1, i);
      var k := n - 2 - i;
      Pow2Add(1, k);
      Pow2Add(1, 0);
      Nonlinear.DivDiv(x, 2, Pow2(k));
      Pow2One();
    }
  }

  lemma {:induction false} Pow2One()
    ensures Pow2(1) == 2
  {
    assert Pow2(0) == 1;
  }

  /** Where the next zero is. */
  function NextZero(bits: seq<bool>, pos: nat): (z: Option<nat>)
    ensures z.Some? ==> pos <= z.value < |bits| && !bits[z.value] && forall i | pos <= i < z.value :: bits[i]
    decreases |bits| - pos
  {
    if pos >= |bits| then None else if bits[pos] then NextZero(bits, pos + 1) else Some(pos)
  }

  lemma {:induction false} NextZeroIs(bits: seq<bool>, pos: nat, z: nat)
    requires pos <= z < |bits| && !bits[z] && forall i | pos <= i < z :: bits[i]
    ensures NextZero(bits, pos) == Some(z)
    decreases z - pos
  {
    if pos < z { NextZeroIs(bits, pos + 1, z); }
  }

  lemma {:induction false} NextZeroStep(bits: seq<bool>, pos: nat)
    ensures NextZero(bits, pos) ==
            if pos >= |bits| then None else if bits[pos] then NextZero(bits, pos + 1) else Some(pos)
  {
  }

  /** What reading one code at `pos` yields: the number, in 64 bits, and the position after it;
      nothing if the stream ends first. */
  function DecodeAt(bits: seq<bool>, pos: nat, p: nat): Option<(nat, nat)> {
    var z := NextZero(bits, pos);
    if z.None? || z.value + 1 + p > |bits| then None
    else
      Nonlinear.MulNonneg(z.value - pos, Pow2(p));
      Some((((z.value - pos) * Pow2(p) % TWO64 + FromBits(bits[z.value + 1..z.value + 1 + p])) % TWO64,
            z.value + 1 + p))
  }

  /** Decoding undoes encoding, wherever in a stream the code stands, up to the width of a word. */
  lemma {:induction false} DecodeCode(before: seq<bool>, p: nat, x: nat, after: seq<bool>)
    ensures DecodeAt(before + Code(p, x) + after, |before|, p) == Some((x % TWO64, |before| + |Code(p, x)|))
  {
    hide Pow2, FromBits, ToBits, NextZero;
    var bits := before + Code(p, x) + after;
    Nonlinear.DivNonneg(x, Pow2(p));
    var q: nat := x / Pow2(p);
    var z := |before| + q;
    NextZeroIs(bits, |before|, z);
    assert bits[z + 1..z + 1 + p] == ToBits(x, p);
    FromToBits(x, p);
    Nonlinear.DivMul(x, Pow2(p));
    Nonlinear.ModBelow(x, Pow2(p));
    Nonlinear.MulNonneg(q, Pow2(p));
    Nonlinear.ModSum(x % Pow2(p), q * Pow2(p), TWO64);
  }

  /** Whatever bits are read as a code are the code of a number, bounded by the bits read. */
  lemma {:induction false} ReadIsCode(bits: seq<bool>, pos: nat, p: nat) returns (x: nat)
    requires DecodeAt(bits, pos, p).Some?
    ensures var end := DecodeAt(bits, pos, p).value.1;
            pos < end <= |bits| && bits[pos..end] == Code(p, x) && x < (end - pos) * Pow2(p)
  {
    hide FromBits, ToBits;
    var z := NextZero(bits, pos).value;
    var low := bits[z + 1..z + 1 + p];
    var q, w := z - pos, Pow2(p);
    FromBitsBound(low);
    Nonlinear.MulNonneg(q, w);
    x := q * w + FromBits(low);
    Nonlinear.ModExact(x, q, w, FromBits(low));
    ToFromBits(x, low);
    var end := z + 1 + p;
    assert bits[pos..end] == bits[pos..z] + [bits[z]] + low;
    assert bits[pos..z] == seq(q, _ => true);
    Nonlinear.MulNext(q, w);
    Nonlinear.MulMono(q + 1, end - pos, w);
  }

  // ---- the operations ----

  method EncodeNumber(writer: BitWriter, p: nat, x: nat)
    requires writer.Valid() && p < 64
    modifies writer
    ensures writer.Valid() && writer.Bits() == old(writer.Bits()) + Code(p, x)
  {
    hide ToBits, FromBits, AllBits, Pow2;
    Nonlinear.DivNonneg(x, Pow2(p));
    var q: nat := x / Pow2(p);
    ghost var quotient: nat := q;
    while q > 0
      invariant q <= quotient && writer.Valid()
      invariant writer.Bits() == old(writer.Bits()) + seq(quotient - q, _ => true)
    {
      var n := if q <= 64 then q else 64;
      AllOnes(n);
      writer.Write(TWO64 - 1, n);
      q := q - n;
    }
    writer.Write(0, 1);
    ZeroBit();
    writer.Write(x, p);
  }

  lemma {:induction false} ZeroBit()
    ensures ToBits(0, 1) == [false]
  {
  }

  lemma {:induction false} AllOnes(n: nat)
    requires n <= 64
    ensures ToBits(TWO64 - 1, n) == seq(n, _ => true)
  {
    Pow2Word();
    TopOnes(TWO64 - 1, n, 64);
  }

  lemma {:induction false} TopOnes(x: nat, n: nat, k: nat)
    requires n <= k && x == Pow2(k) - 1
    ensures ToBits(x, n) == seq(n, _ => true)
    decreases n
  {
    if n > 0 { TopOnes(x / 2, n - 1, k - 1); }
  }

  /** Reads one number, or fails at the end of the stream. */
  method DecodeNumber(reader: BitReader, p: nat) returns (r: Option<nat>)
    requires reader.Valid() && p < 64
    modifies reader
    ensures reader.Valid()
    ensures var d := DecodeAt(AllBits(reader.bytes), old(reader.Pos()), p);
            if d.None? then r == None else r == Some(d.value.0) && reader.Pos() == d.value.1
  {
    hide FromBits, Pow2, AllBits, NextZero;
    ghost var bits, start := AllBits(reader.bytes), reader.Pos();
    var q: nat := 0;
    var bit := reader.Read(1);
    while bit == Some(1)
      invariant reader.Valid()
      invariant if bit.None? then start + q >= |bits|
                else reader.Pos() == start + q + 1 <= |bits| && bit.value == FromBits(bits[start + q..start + q + 1])
      invariant NextZero(bits, start) == NextZero(bits, start + q)
      decreases |bits| - q
    {
      FromOneBit(bits, start + q);
      NextZeroStep(bits, start + q);
      q := q + 1;
      bit := reader.Read(1);
    }
    NextZeroStep(bits, start + q);
    if bit.None? {
      return None;
    }
    FromOneBit(bits, start + q);
    var low := reader.Read(p);
    if low.None? {
      return None;
    }
    Nonlinear.MulNonneg(q, Pow2(p));
    r := Some((q * Pow2(p) % TWO64 + low.value) % TWO64);
  }

  lemma {:induction false} FromOneBit(bits: seq<bool>, i: nat)
    requires i < |bits|
    ensures FromBits(bits[i..i + 1]) == if bits[i] then 1 else 0
  {
    assert bits[i..i + 1] == [bits[i]];
    assert FromBits([]) == 0;
  }
}
