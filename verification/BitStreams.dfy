/** Streams of bits over streams of bytes, most significant bit first (`BitStreamReader`, `BitStreamWriter`). */
module BitStreams {
  import opened Wrappers
  import Nonlinear
  import opened Limbs
  import opened LimbShifts

  const TWO64: nat := 0x1_0000_0000_0000_0000

  type Byte = x: nat | x < 256

  /** The `n` lowest bits of `x`, most significant first. */
  function ToBits(x: nat, n: nat): (bits: seq<bool>)
    ensures |bits| == n
  {
    if n == 0 then [] else ToBits(x / 2, n - 1) + [x % 2 == 1]
  }

  function FromBits(bits: seq<bool>): nat {
    if bits == [] then 0
    else 2 * FromBits(bits[..|bits| - 1]) + if bits[|bits| - 1] then 1 else 0
  }

  function Zeros(n: nat): seq<bool> { seq(n, _ => false) }

  /** The bits of a sequence of bytes. */
  function AllBits(bytes: seq<Byte>): (bits: seq<bool>)
    ensures |bits| == 8 * |bytes|
  {
    if bytes == [] then [] else AllBits(bytes[..|bytes| - 1]) + ToBits(bytes[|bytes| - 1], 8)
  }

  lemma {:induction false} FromToBits(x: nat, n: nat)
    ensures FromBits(ToBits(x, n)) == x % Pow2(n)
    decreases n
  {
    if n == 0 {
      assert x % 1 == 0;
    } else {
      FromToBits(x / 2, n - 1);
      assert ToBits(x, n)[..n - 1] == ToBits(x / 2, n - 1);
      HalfMod(x, Pow2(n - 1));
    }
  }

  lemma {:induction false} HalfMod(x: nat, p: nat)
    requires p > 0
    ensures x % (2 * p) == 2 * (x / 2 % p) + x % 2
  {
    var h := x / 2;
    Nonlinear.DivMul(h, p);
    Nonlinear.ModBelow(h, p);
    assert 2 * (h / p * p) == h / p * (2 * p);
    Nonlinear.ModExact(x, h / p, 2 * p, 2 * (h % p) + x % 2);
  }

  lemma {:induction false} ToFromBits(x: nat, bits: seq<bool>)
    requires x % Pow2(|bits|) == FromBits(bits)
    ensures ToBits(x, |bits|) == bits
    decreases |bits|
  {
    if bits != [] {
      var n := |bits| - 1;
      HalfMod(x, Pow2(n));
      ToFromBits(x / 2, bits[..n]);
    }
  }

  lemma {:induction false} FromBitsBound(bits: seq<bool>)
    ensures FromBits(bits) < Pow2(|bits|)
    decreases |bits|
  {
    if bits != [] { FromBitsBound(bits[..|bits| - 1]); }
  }

  lemma {:induction false} FromBitsConcat(a: seq<bool>, b: seq<bool>)
    ensures FromBits(a + b) == FromBits(a) * Pow2(|b|) + FromBits(b)
    decreases |b|
  {
    if b == [] {
      assert a + b == a;
    } else {
      var n := |b| - 1;
      assert (a + b)[..|a + b| - 1] == a + b[..n];
      FromBitsConcat(a, b[..n]);
      Nonlinear.MulAssoc(FromBits(a), 2, Pow2(n));
      Nonlinear.MulAssoc(2, FromBits(a), Pow2(n));
    }
  }

  lemma {:induction false} FromZeros(n: nat)
    ensures FromBits(Zeros(n)) == 0
    decreases n
  {
    if n > 0 {
      assert Zeros(n)[..n - 1] == Zeros(n - 1);
      FromZeros(n - 1);
    }
  }

  lemma {:induction false} ToBitsTail(x: nat, n: nat, b: nat)
    requires b <= n
    ensures ToBits(x, n)[b..] == ToBits(x, n - b)
    decreases n
  {
    if b < n {
      ToBitsTail(x / 2, n - 1, b);
      assert ToBits(x, n)[b..] == ToBits(x / 2, n - 1)[b..] + [x % 2 == 1];
    }
  }

  lemma {:induction false} AllBitsLength(bytes: seq<Byte>)
    ensures |AllBits(bytes)| == 8 * |bytes|
  {
  }

  lemma {:induction false} AllBitsAppend(bytes: seq<Byte>, x: Byte)
    ensures AllBits(bytes + [x]) == AllBits(bytes) + ToBits(x, 8)
  {
    assert (bytes + [x])[..|bytes|] == bytes;
  }

  lemma {:induction false} AllBitsAt(bytes: seq<Byte>, i: nat)
    requires i < |bytes|
    ensures AllBits(bytes)[8 * i..8 * i + 8] == ToBits(bytes[i], 8)
    decreases |bytes|
  {
    hide ToBits;
    var n := |bytes| - 1;
    var before, last := AllBits(bytes[..n]), ToBits(bytes[n], 8);
    assert AllBits(bytes) == before + last;
    AllBitsLength(bytes[..n]);
    ToBitsLength(bytes[n], 8);
    if i < n {
      AllBitsAt(bytes[..n], i);
      assert bytes[..n][i] == bytes[i];
      assert (before + last)[8 * i..8 * i + 8] == before[8 * i..8 * i + 8];
    } else {
      assert (before + last)[8 * n..8 * n + 8] == last;
    }
  }

  lemma {:induction false} ToBitsLength(x: nat, n: nat)
    ensures |ToBits(x, n)| == n
  {
  }

  lemma {:induction false} ChunkAt(bytes: seq<Byte>, i: nat, o: nat, b: nat)
    requires i < |bytes| && o + b <= 8
    ensures AllBits(bytes)[8 * i + o..8 * i + o + b] == ToBits(bytes[i], 8)[o..o + b]
  {
    hide AllBits, ToBits;
    AllBitsAt(bytes, i);
    assert AllBits(bytes)[8 * i + o..8 * i + o + b] == AllBits(bytes)[8 * i..8 * i + 8][o..o + b];
  }

  // ---- the shifts ----

  /** A number w = (c * 2^s + r) * 2^t split by a power of two between its two parts. */
  lemma {:induction false} ShiftedDown(c: nat, s: nat, r: nat, t: nat, k: nat)
    requires r < Pow2(s) && t + s >= k && (r == 0 || t + s == k)
    ensures (c * Pow2(s) + r) * Pow2(t) >= 0
    ensures (c * Pow2(s) + r) * Pow2(t) / Pow2(k) == c * Pow2(t + s - k)
  {
    hide Pow2;
    var p, q, v := Pow2(s), Pow2(t), Pow2(k);
    Pow2Add(s, t);
    Pow2Add(t + s - k, k);
    Nonlinear.MulAdd(c * p, r, q);
    Nonlinear.MulAssoc(c, p, q);
    Nonlinear.MulAssoc(c, Pow2(t + s - k), v);
    Nonlinear.MulNonneg(r, q);
    Nonlinear.MulNonneg(c, Pow2(t + s - k));
    if r > 0 { Nonlinear.MulStrict(r, p, q); } else { assert r * q == 0; }
    Nonlinear.ModExact((c * p + r) * q, c * Pow2(t + s - k), v, r * q);
  }

  /** Multiplying by 2^t modulo 2^(n + t) keeps the n lowest bits. */
  lemma {:induction false} ShiftedUp(x: nat, n: nat, t: nat)
    ensures x * Pow2(t) >= 0 && x * Pow2(t) % Pow2(n + t) == x % Pow2(n) * Pow2(t)
  {
    hide Pow2;
    var p, q := Pow2(n), Pow2(t);
    Pow2Add(n, t);
    Nonlinear.DivMul(x, p);
    Nonlinear.ModBelow(x, p);
    Nonlinear.DivNonneg(x, p);
    Nonlinear.MulAdd(x / p * p, x % p, q);
    Nonlinear.MulAssoc(x / p, p, q);
    Nonlinear.MulStrict(x % p, p, q);
    Nonlinear.MulNonneg(x % p, q);
    Nonlinear.MulNonneg(x, q);
    Nonlinear.ModExact(x * q, x / p, p * q, x % p * q);
  }

  /** The n lowest bits of a word moved to the top of 64 bits, and down to the free part of a byte. */
  function Aligned(data: nat, n: nat, o: nat): nat
    requires n <= 64
  {
    Nonlinear.MulNonneg(data, Pow2(64 - n));
    Nonlinear.DivNonneg(data * Pow2(64 - n) % TWO64, Pow2(56 + o));
    data * Pow2(64 - n) % TWO64 / Pow2(56 + o)
  }

  /** b bits of a byte from offset o, in 8 bits. */
  function Extracted(x: Byte, o: nat, b: nat): nat
    requires b <= 8
  {
    Nonlinear.MulNonneg(x, Pow2(o));
    Nonlinear.DivNonneg(x * Pow2(o) % 256, Pow2(8 - b));
    x * Pow2(o) % 256 / Pow2(8 - b)
  }

  /** A word moved up by b bits, with b bits or-ed in. */
  function MovedUp(data: nat, b: nat, low: nat): nat {
    Nonlinear.MulNonneg(data, Pow2(b));
    BitOr(data * Pow2(b) % TWO64, low)
  }

  /** What the writer takes from a word for the free part of its byte: the b highest of the n bits left. */
  lemma {:induction false} NextChunk(data: nat, n: nat, b: nat, o: nat)
    requires 0 < n <= 64 && o < 8 && b == (if n < 8 - o then n else 8 - o)
    ensures Aligned(data, n, o) == FromBits(ToBits(data, n)[..b]) * Pow2(8 - o - b)
  {
    hide Pow2, FromBits, ToBits;
    var w := ToBits(data, n);
    var c, r := FromBits(w[..b]), FromBits(w[b..]);
    Pow2Word();
    ShiftedUp(data, n, 64 - n);
    FromToBits(data, n);
    assert w == w[..b] + w[b..];
    FromBitsConcat(w[..b], w[b..]);
    FromBitsBound(w[b..]);
    Pow2Zero();
    ShiftedDown(c, n - b, r, 64 - n, 56 + o);
  }

  lemma {:induction false} Pow2Word()
    ensures Pow2(64) == TWO64 && Pow2(8) == 256
  {
    Pow2Base();
    Pow2Add(32, 32);
  }

  /** Filling the free part of a byte: bits that follow are or-ed in. */
  lemma {:induction false} FillByte(held: seq<bool>, chunk: seq<bool>)
    requires |held| + |chunk| <= 8
    ensures var o, b := |held|, |chunk|;
            && FromBits(chunk) * Pow2(8 - o - b) >= 0
            && BitOr(FromBits(held + Zeros(8 - o)), FromBits(chunk) * Pow2(8 - o - b))
               == FromBits(held + chunk + Zeros(8 - o - b)) < 256
  {
    hide Pow2, FromBits, BitOr;
    var o, b := |held|, |chunk|;
    var h, c := FromBits(held), FromBits(chunk);
    FromBitsConcat(held, Zeros(8 - o));
    FromBitsConcat(held + chunk, Zeros(8 - o - b));
    FromBitsConcat(held, chunk);
    FromZeros(8 - o);
    FromZeros(8 - o - b);
    Pow2Add(b, 8 - o - b);
    FromBitsBound(chunk);
    FromBitsBound(held + chunk + Zeros(8 - o - b));
    Pow2Word();
    Nonlinear.MulNonneg(c, Pow2(8 - o - b));
    Nonlinear.MulStrict(c, Pow2(b), Pow2(8 - o - b));
    OrDisjoint(h, 8 - o, c * Pow2(8 - o - b));
    Nonlinear.MulAdd(h * Pow2(b), c, Pow2(8 - o - b));
    Nonlinear.MulAssoc(h, Pow2(b), Pow2(8 - o - b));
  }

  /** One round of the writing loop: the next chunk joins the bits held in the byte. */
  lemma {:induction false} WriteChunk(buffer: Byte, o: nat, data: nat, n: nat, b: nat)
    requires 0 < n <= 64 && o < 8 && b == (if n < 8 - o then n else 8 - o)
    requires buffer == FromBits(ToBits(buffer, 8)[..o] + Zeros(8 - o))
    ensures var now := BitOr(buffer, Aligned(data, n, o));
            && now < 256 && ToBits(now, 8)[..o + b] == ToBits(buffer, 8)[..o] + ToBits(data, n)[..b]
            && now == FromBits(ToBits(now, 8)[..o + b] + Zeros(8 - o - b))
  {
    hide FromBits, ToBits, BitOr, Aligned;
    ToBitsLength(buffer, 8);
    ToBitsLength(data, n);
    var held, chunk := ToBits(buffer, 8)[..o], ToBits(data, n)[..b];
    NextChunk(data, n, b, o);
    FillByte(held, chunk);
    ByteOf(held + chunk + Zeros(8 - o - b));
  }

  lemma {:induction false} ByteOf(bits: seq<bool>)
    requires |bits| == 8
    ensures FromBits(bits) < 256 && ToBits(FromBits(bits), 8) == bits
  {
    hide Pow2, FromBits, ToBits;
    FromBitsBound(bits);
    Pow2Word();
    ToFromBits(FromBits(bits), bits);
  }

  /** What the reader takes from its byte: b bits from offset o. */
  lemma {:induction false} TakeChunk(x: Byte, o: nat, b: nat)
    requires o + b <= 8
    ensures Extracted(x, o, b) == FromBits(ToBits(x, 8)[o..o + b])
  {
    hide Pow2, FromBits, ToBits;
    var w := ToBits(x, 8);
    var low := w[o..];
    ToBitsTail(x, 8, o);
    FromToBits(x, 8 - o);
    Pow2Word();
    ShiftedUp(x, 8 - o, o);
    assert low == w[o..o + b] + w[o + b..];
    FromBitsConcat(w[o..o + b], w[o + b..]);
    FromBitsBound(w[o + b..]);
    Pow2Zero();
    TakeHigh(FromBits(w[o..o + b]), 8 - o - b, FromBits(w[o + b..]), o);
  }

  lemma {:induction false} TakeHigh(c: nat, s: nat, r: nat, t: nat)
    requires r < Pow2(s)
    ensures (c * Pow2(s) + r) * Pow2(t) >= 0 && (c * Pow2(s) + r) * Pow2(t) / Pow2(t + s) == c
  {
    hide Pow2;
    ShiftedDown(c, s, r, t, t + s);
    Pow2Zero();
  }

  // ---- the streams ----

  class BitWriter {
    var out: seq<Byte>
    var buffer: Byte
    var offset: nat

    /** The bits behind the offset are still clear. */
    ghost predicate Valid()
      reads this
    {
      offset < 8 && buffer == FromBits(Held() + Zeros(8 - offset))
    }

    ghost function Held(): (bits: seq<bool>)
      requires offset <= 8
      reads this
      ensures |bits| == offset
    {
      ToBits(buffer, 8)[..offset]
    }

    /** Everything written. */
    ghost function Bits(): seq<bool>
      requires offset <= 8
      reads this
    {
      AllBits(out) + Held()
    }

    constructor ()
      ensures Valid() && Bits() == [] && out == []
    {
      out, buffer, offset := [], 0, 0;
      new;
      FromZeros(8);
      assert Held() == [];
      assert Held() + Zeros(8) == Zeros(8);
    }

    /** One round: as many of the n bits left as the byte has room for. */
    method WriteRound(data: nat, n: nat) returns (bits: nat)
      requires Valid() && 0 < n <= 64
      modifies this
      ensures Valid() && 0 < bits <= n && Bits() == old(Bits()) + ToBits(data, n)[..bits]
    {
      hide FromBits, ToBits, AllBits, BitOr, Pow2, Aligned;
      ToBitsLength(data, n);
      bits := if 8 - offset < n then 8 - offset else n;
      WriteChunk(buffer, offset, data, n, bits);
      buffer := BitOr(buffer, Aligned(data, n, offset));
      offset := offset + bits;
      assert Bits() == old(Bits()) + ToBits(data, n)[..bits];
      if offset == 8 {
        Flush();
      }
    }

    /** Appends the n lowest bits of a word, which may fill some bytes. */
    method Write(data: nat, nbits: nat)
      requires Valid() && nbits <= 64
      modifies this
      ensures Valid() && Bits() == old(Bits()) + ToBits(data, nbits)
    {
      hide ToBits;
      ghost var w := ToBits(data, nbits);
      ToBitsLength(data, nbits);
      var n: nat := nbits;
      while n > 0
        invariant n <= nbits && Valid() && Bits() == old(Bits()) + w[..nbits - n]
      {
        ToBitsTail(data, nbits, nbits - n);
        var bits := WriteRound(data, n);
        assert w[..nbits - n + bits] == w[..nbits - n] + w[nbits - n..][..bits];
        n := n - bits;
      }
      assert w[..nbits] == w;
    }

    /** Pads with zeros to a whole number of bytes. */
    method Flush()
      requires offset <= 8 && buffer == FromBits(Held() + Zeros(8 - offset))
      modifies this
      ensures Valid() && offset == 0 && Bits() == AllBits(out) && |old(Bits())| <= 8 * |out| < |old(Bits())| + 8
      ensures Bits() == old(Bits()) + Zeros(if old(offset) == 0 then 0 else 8 - old(offset))
    {
      hide FromBits, ToBits, AllBits;
      AllBitsLength(out);
      if offset == 0 {
        return;
      }
      AllBitsAppend(out, buffer);
      ByteOf(Held() + Zeros(8 - offset));
      FromZeros(8);
      out := out + [buffer];
      buffer := 0;
      offset := 0;
      assert Held() == [];
      assert Held() + Zeros(8) == Zeros(8);
    }
  }

  class BitReader {
    const bytes: seq<Byte>
    var next: nat
    var buffer: Byte
    var offset: nat

    ghost predicate Valid()
      reads this
    {
      next <= |bytes| && 1 <= offset <= 8 && (offset < 8 ==> next > 0 && buffer == bytes[next - 1])
    }

    /** How many bits have been read. */
    ghost function Pos(): nat
      requires Valid()
      reads this
    {
      8 * next + offset - 8
    }

    constructor (bytes: seq<Byte>)
      ensures Valid() && this.bytes == bytes && Pos() == 0
    {
      this.bytes, next, buffer, offset := bytes, 0, 0, 8;
    }

    /** The next n bits as a number, or failure at the end of the stream. */
    method Read(nbits: nat) returns (r: Option<nat>)
      requires Valid() && nbits <= 64
      modifies this
      ensures Valid()
      ensures if old(Pos()) + nbits > 8 * |bytes| then r == None
              else Pos() == old(Pos()) + nbits && r == Some(FromBits(AllBits(bytes)[old(Pos())..old(Pos()) + nbits]))
    {
      hide FromBits, ToBits, AllBits, BitOr, Pow2, Aligned, Extracted, MovedUp;
      var data := 0;
      var n := nbits;
      ghost var all, start := AllBits(bytes), Pos();
      FromZeros(0);
      assert all[start..start] == Zeros(0);
      while n > 0
        invariant 0 <= n <= nbits && Valid() && Pos() == start + nbits - n && Pos() <= |all|
        invariant data == FromBits(all[start..Pos()])
      {
        if offset == 8 {
          if next == |bytes| {
            return None;
          }
          buffer, next, offset := bytes[next], next + 1, 0;
        }
        var bits := if 8 - offset < n then 8 - offset else n;
        ghost var pos := 8 * (next - 1) + offset;
        TakeChunk(buffer, offset, bits);
        ChunkAt(bytes, next - 1, offset, bits);
        Appended(all, start, pos, bits);
        data := MovedUp(data, bits, Extracted(buffer, offset, bits));
        offset := offset + bits;
        n := n - bits;
      }
      r := Some(data);
    }
  }

  /** Shifting a number up and or-ing in the next bits reads them all, within 64 bits. */
  lemma {:induction false} Appended(all: seq<bool>, start: nat, pos: nat, b: nat)
    requires start <= pos && pos + b <= |all| && pos + b - start <= 64
    ensures MovedUp(FromBits(all[start..pos]), b, FromBits(all[pos..pos + b])) == FromBits(all[start..pos + b])
  {
    hide Pow2, FromBits, BitOr;
    var u, v, w := all[start..pos], all[pos..pos + b], all[start..pos + b];
    assert w == u + v;
    FromBitsConcat(u, v);
    FromBitsBound(w);
    FromBitsBound(v);
    Pow2Word();
    Pow2Mono(|w|, 64);
    Nonlinear.MulNonneg(FromBits(u), Pow2(b));
    Nonlinear.ModExact(FromBits(u) * Pow2(b), 0, TWO64, FromBits(u) * Pow2(b));
    OrDisjoint(FromBits(u), b, FromBits(v));
  }
}
