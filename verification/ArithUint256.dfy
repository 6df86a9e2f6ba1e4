/** 256-bit unsigned arithmetic on eight 32-bit limbs (`base_uint<256>`, `arith_uint256`).
    Every operator is proved against the number the limbs stand for. */
module ArithUint256 {
  import Nonlinear
  import opened Limbs
  import opened LimbShifts

  const WIDTH: nat := 8
  /** 2 to the 256th. */
  const MODULUS: nat := Weight(WIDTH)

  /** Splitting a double limb into limb and carry loses nothing. */
  lemma {:induction false} CarryStep(n: nat, w: nat)
    ensures n % BASE * w + n / BASE * (BASE * w) == n * w
  {
    Nonlinear.DivMul(n, BASE);
    Regroup(n % BASE, n / BASE, BASE, w);
  }

  lemma {:induction false} Regroup(r: nat, q: nat, b: nat, w: nat)
    ensures (q * b + r) * w == r * w + q * (b * w)
  {
  }

  /** A limb sequence whose value differs from `x` by a multiple of the modulus is `x` reduced. */
  lemma {:induction false} Reduced(s: seq<uint32>, x: nat, k: nat)
    requires |s| == WIDTH && Val(s) + k * MODULUS == x
    ensures Val(s) == x % MODULUS
  {
    hide Val, Weight, Pow2;
    ValBound(s);
    Nonlinear.ModExact(x, k, MODULUS, Val(s));
  }

  class Uint256 {
    const pn: array<uint32>

    ghost predicate Wf() { pn.Length == WIDTH }

    ghost function Value(): nat
      requires Wf()
      reads pn
    {
      Val(pn[..])
    }

    constructor FromUint64(b: nat)
      requires b < BASE * BASE
      ensures Wf() && fresh(pn) && Value() == b
    {
      hide Val, Weight, Pow2;
      var low, high := b % BASE, b / BASE;
      Nonlinear.DivBelow(b, BASE, BASE);
      pn := new uint32[WIDTH](_ => 0);
      new;
      pn[0] := low;
      pn[1] := high;
      ValSplit(pn[..], 2);
      ValZeros(pn[..][2..]);
      TwoLimbs(pn[..2]);
      Nonlinear.DivMul(b, BASE);
    }

    constructor Copy(b: Uint256)
      requires b.Wf()
      ensures Wf() && fresh(pn) && pn[..] == b.pn[..]
    {
      pn := new uint32[WIDTH](i requires 0 <= i < WIDTH && b.Wf() reads b.pn => b.pn[i]);
    }

    /** `+=`, modulo the width. */
    method Add(b: Uint256)
      requires Wf() && b.Wf()
      modifies pn
      ensures Value() == (old(Value()) + old(b.Value())) % MODULUS
    {
      hide Val, Weight, Pow2;
      ghost var x, y := pn[..], b.pn[..];
      ValEmpty();
      var carry: nat := 0;
      for i := 0 to WIDTH
        invariant carry <= 1
        invariant Val(pn[..i]) + carry * Weight(i) == Val(x[..i]) + Val(y[..i])
        invariant forall k | i <= k < WIDTH :: pn[k] == x[k] && b.pn[k] == y[k]
      {
        var n: nat := carry + pn[i] + b.pn[i];
        ghost var before := pn[..i];
        pn[i] := n % BASE;
        assert pn[..i] == before;
        AddStep(pn[..], x, y, i, carry, n);
        carry := n / BASE;
      }
      assert pn[..WIDTH] == pn[..] && x[..WIDTH] == x && y[..WIDTH] == y;
      Reduced(pn[..], Val(x) + Val(y), carry);
    }

    /** `~`: every bit flipped. */
    method Complement() returns (ret: Uint256)
      requires Wf()
      ensures fresh(ret) && fresh(ret.pn) && ret.Wf()
      ensures ret.Value() == MODULUS - 1 - Value()
    {
      ret := new Uint256.FromUint64(0);
      for i := 0 to WIDTH
        invariant forall k | 0 <= k < i :: ret.pn[k] == BASE - 1 - pn[k]
      {
        ret.pn[i] := BASE - 1 - pn[i];
      }
      ComplementValue(pn[..], ret.pn[..]);
    }

    /** Unary minus, modulo the width. */
    method Negate() returns (ret: Uint256)
      requires Wf()
      ensures fresh(ret) && fresh(ret.pn) && ret.Wf()
      ensures ret.Value() == (MODULUS - Value()) % MODULUS
    {
      hide Val, Weight, Pow2;
      ValBound(pn[..]);
      ret := Complement();
      ret.Increment();
    }

    /** `++`, modulo the width. */
    method Increment()
      requires Wf()
      modifies pn
      ensures Value() == (old(Value()) + 1) % MODULUS
    {
      hide Val, Weight, Pow2;
      ghost var x := pn[..];
      ValEmpty();
      var i := 0;
      while i < WIDTH
        invariant 0 <= i <= WIDTH
        invariant forall k | i <= k < WIDTH :: pn[k] == x[k]
        invariant Val(pn[..i]) + Weight(i) == Val(x[..i]) + 1
      {
        ghost var before := pn[..i];
        var next := if pn[i] == BASE - 1 then 0 else pn[i] + 1;
        pn[i] := next;
        assert pn[..i] == before;
        IncrementStep(pn[..], x, i);
        if next != 0 {
          SameTail(pn[..], x, i + 1);
          Reduced(pn[..], Val(x) + 1, 0);
          return;
        }
        i := i + 1;
      }
      assert pn[..WIDTH] == pn[..] && x[..WIDTH] == x;
      Reduced(pn[..], Val(x) + 1, 1);
    }

    /** `--`, modulo the width. */
    method Decrement()
      requires Wf()
      modifies pn
      ensures Value() == (old(Value()) + MODULUS - 1) % MODULUS
    {
      hide Val, Weight, Pow2;
      ghost var x := pn[..];
      ValEmpty();
      ValBound(x);
      var i := 0;
      while i < WIDTH
        invariant 0 <= i <= WIDTH
        invariant forall k | i <= k < WIDTH :: pn[k] == x[k]
        invariant Val(pn[..i]) + 1 == Val(x[..i]) + Weight(i)
      {
        ghost var before := pn[..i];
        var next := if pn[i] == 0 then BASE - 1 else pn[i] - 1;
        pn[i] := next;
        assert pn[..i] == before;
        ValPrefix(pn[..], i);
        ValPrefix(x, i);
        Nonlinear.MulNext(next, Weight(i));
        if next != BASE - 1 {
          SameTail(pn[..], x, i + 1);
          Reduced(pn[..], Val(x) + MODULUS - 1, 1);
          return;
        }
        WeightNext(i);
        i := i + 1;
      }
      assert pn[..WIDTH] == pn[..] && x[..WIDTH] == x;
      Reduced(pn[..], Val(x) + MODULUS - 1, 0);
    }

    /** `-=`, modulo the width: adds the negation. */
    method Sub(b: Uint256)
      requires Wf() && b.Wf()
      modifies pn
      ensures Value() == (old(Value()) + MODULUS - old(b.Value())) % MODULUS
    {
      hide Val, Weight, Pow2;
      ValBound(b.pn[..]);
      ValBound(pn[..]);
      var minus := b.Negate();
      Nonlinear.ModSum(Value(), MODULUS - b.Value(), MODULUS);
      Add(minus);
    }

    /** `*=` by a single limb, modulo the width. */
    method MulUint32(b32: uint32)
      requires Wf()
      modifies pn
      ensures Value() == old(Value()) * b32 % MODULUS
    {
      hide Val, Weight, Pow2;
      ghost var x := pn[..];
      ValEmpty();
      var carry: nat := 0;
      for i := 0 to WIDTH
        invariant carry < BASE
        invariant Val(pn[..i]) + carry * Weight(i) == b32 * Val(x[..i])
        invariant forall k | i <= k < WIDTH :: pn[k] == x[k]
      {
        LimbProduct(carry, 0, b32, pn[i]);
        var n: nat := carry + b32 * pn[i];
        ghost var before := pn[..i];
        pn[i] := n % BASE;
        assert pn[..i] == before;
        MulLimbStep(pn[..], x, i, b32, carry, n);
        carry := n / BASE;
      }
      assert pn[..WIDTH] == pn[..] && x[..WIDTH] == x;
      Reduced(pn[..], b32 * Val(x), carry);
      assert b32 * Val(x) == Val(x) * b32;
    }

    /** `*=`, modulo the width: schoolbook multiplication that drops what does not fit. */
    method Mul(b: Uint256)
      requires Wf() && b.Wf()
      modifies pn
      ensures Value() == old(Value()) * old(b.Value()) % MODULUS
    {
      hide Val, Weight, Pow2;
      ghost var x, y := pn[..], b.pn[..];
      ValEmpty();
      var a := new Uint256.FromUint64(0);
      ghost var k: nat := 0;
      for j := 0 to WIDTH
        invariant a.Wf() && fresh(a.pn) && pn[..] == x && b.pn[..] == y
        invariant a.Value() + k * MODULUS == Val(x[..j]) * Val(y)
      {
        ghost var was := a.pn[..];
        var carry := a.AddRow(pn[j], b, j);
        k := MulRowStep(a.pn[..], was, x, y, j, carry, k);
      }
      assert x[..WIDTH] == x;
      Reduced(a.pn[..], Val(x) * Val(y), k);
      Assign(a);
    }

    /** The inner loop of the product: adds `p` times the low limbs of `b`, shifted by `j`. */
    method AddRow(p: uint32, b: Uint256, j: nat) returns (carry: nat)
      requires Wf() && b.Wf() && pn != b.pn && j < WIDTH
      modifies pn
      ensures Value() + carry * MODULUS == old(Value()) + p * Val(b.pn[..WIDTH - j]) * Weight(j)
    {
      hide Val, Weight, Pow2;
      ghost var was, y := pn[..], b.pn[..];
      ValEmpty();
      carry := 0;
      for i := 0 to WIDTH - j
        invariant carry < BASE && b.pn[..] == y
        invariant Val(pn[..i + j]) + carry * Weight(i + j) == Val(was[..i + j]) + p * Val(y[..i]) * Weight(j)
        invariant forall k | i + j <= k < WIDTH :: pn[k] == was[k]
      {
        LimbProduct(carry, pn[i + j], p, b.pn[i]);
        var n: nat := carry + pn[i + j] + p * b.pn[i];
        ghost var before := pn[..i + j];
        pn[i + j] := n % BASE;
        assert pn[..i + j] == before;
        MulStep(pn[..], was, y, i, j, p, carry, n);
        carry := n / BASE;
      }
      assert pn[..WIDTH] == pn[..] && was[..WIDTH] == was && y[..WIDTH - j] == b.pn[..WIDTH - j];
    }

    /** `=` */
    method Assign(b: Uint256)
      requires Wf() && b.Wf()
      modifies pn
      ensures pn[..] == old(b.pn[..])
    {
      for i := 0 to WIDTH
        invariant forall k | 0 <= k < i :: pn[k] == old(b.pn[k])
        invariant forall k | i <= k < WIDTH :: b.pn[k] == old(b.pn[k])
      {
        pn[i] := b.pn[i];
      }
    }

    method Clear()
      requires Wf()
      modifies pn
      ensures forall i | 0 <= i < WIDTH :: pn[i] == 0
      ensures Value() == 0
    {
      for i := 0 to WIDTH
        invariant forall k | 0 <= k < i :: pn[k] == 0
      {
        pn[i] := 0;
      }
      ValZeros(pn[..]);
    }

    /** `<<=`: multiplication by a power of two, modulo the width. */
    method ShiftLeft(bits: nat)
      requires Wf()
      modifies pn
      ensures Value() == old(Value()) * Pow2(bits) % MODULUS
    {
      hide LeftSofar, LeftLimb, Spill, BitOr, Pow2, Quotient, Val;
      var a := pn[..];
      Clear();
      var k, shift := bits / 32, bits % 32;
      LeftStart(a, k, shift);
      for i := 0 to WIDTH
        invariant forall m | 0 <= m < WIDTH :: pn[m] == LeftSofar(a, k, shift, i, m)
      {
        LeftTurn(a, k, shift, i);
        var up: nat, stay: nat := Quotient(a[i], Pow2(32 - shift)), a[i] * Pow2(shift) % BASE;
        if i + k + 1 < WIDTH && shift != 0 {
          pn[i + k + 1] := BitOr(pn[i + k + 1], up);
        }
        if i + k < WIDTH {
          pn[i + k] := BitOr(pn[i + k], stay);
        }
      }
      assert bits == 32 * k + shift;
      LeftEnd(a, k, shift, pn[..]);
      ghost var lost := LeftValue(a, pn[..], k, shift);
      Reduced(pn[..], Val(a) * Pow2(bits), lost);
    }

    /** `>>=`: division by a power of two. */
    method ShiftRight(bits: nat)
      requires Wf()
      modifies pn
      ensures Value() == old(Value()) / Pow2(bits)
    {
      hide RightSofar, RightLimb, At, BitOr, Pow2, Quotient, Val;
      var a := pn[..];
      Clear();
      var k, shift := bits / 32, bits % 32;
      RightStart(a, k, shift);
      for i := 0 to WIDTH
        invariant forall m | 0 <= m < WIDTH :: pn[m] == RightSofar(a, k, shift, i, m)
      {
        RightTurn(a, k, shift, i);
        var down: nat, stay: nat := a[i] * Pow2(32 - shift) % BASE, Quotient(a[i], Pow2(shift));
        if i >= k + 1 && shift != 0 {
          pn[i - k - 1] := BitOr(pn[i - k - 1], down);
        }
        if i >= k {
          pn[i - k] := BitOr(pn[i - k], stay);
        }
      }
      assert bits == 32 * k + shift;
      RightEnd(a, k, shift, pn[..]);
      RightValue(a, pn[..], k, shift);
    }

    /** Three-way comparison, from the most significant limb down. */
    method CompareTo(b: Uint256) returns (c: int)
      requires Wf() && b.Wf()
      ensures c == if Value() < b.Value() then -1 else if Value() > b.Value() then 1 else 0
    {
      hide Val, Weight, Pow2;
      var i := WIDTH;
      while i > 0
        invariant 0 <= i <= WIDTH
        invariant forall k | i <= k < WIDTH :: pn[k] == b.pn[k]
      {
        i := i - 1;
        if pn[i] < b.pn[i] {
          HigherLimbWins(pn[..], b.pn[..], i);
          return -1;
        }
        if pn[i] > b.pn[i] {
          HigherLimbWins(b.pn[..], pn[..], i);
          return 1;
        }
      }
      assert pn[..] == b.pn[..];
      return 0;
    }

    /** Position of the highest set bit plus one, or zero. */
    method Bits() returns (n: nat)
      requires Wf()
      ensures n <= 256 && Value() < Pow2(n)
      ensures n > 0 ==> Pow2(n - 1) <= Value()
    {
      hide Val, Weight, Pow2;
      var pos := WIDTH;
      while pos > 0
        invariant 0 <= pos <= WIDTH
        invariant forall k | pos <= k < WIDTH :: pn[k] == 0
      {
        pos := pos - 1;
        if pn[pos] != 0 {
          var nbits := 31;
          Pow2Base();
          while nbits > 0
            invariant 0 <= nbits <= 31 && pn[pos] < Pow2(nbits + 1)
          {
            if TestBit(pn[pos], nbits) {
              TopBit(pn[..], pos, nbits);
              return 32 * pos + nbits + 1;
            }
            TestBitBelow(pn[pos], nbits);
            nbits := nbits - 1;
          }
          TopBit(pn[..], pos, 0);
          return 32 * pos + 1;
        }
      }
      ValZeros(pn[..]);
      return 0;
    }

    /** `= b` for a 64-bit number. */
    method AssignUint64(b: nat)
      requires Wf() && b < BASE * BASE
      modifies pn
      ensures Value() == b
    {
      hide Val, Weight, Pow2;
      Nonlinear.DivBelow(b, BASE, BASE);
      pn[0], pn[1] := b % BASE, b / BASE;
      for i := 2 to WIDTH
        invariant pn[0] == b % BASE && pn[1] == b / BASE
        invariant forall k | 2 <= k < i :: pn[k] == 0
      {
        pn[i] := 0;
      }
      ValSplit(pn[..], 2);
      ValZeros(pn[..][2..]);
      TwoLimbs(pn[..2]);
      Nonlinear.DivMul(b, BASE);
    }

    /** The lowest 64 bits. */
    method GetLow64() returns (r: nat)
      requires Wf()
      ensures r == Value() % (BASE * BASE)
    {
      hide Val, Weight, Pow2, BitOr;
      Pow2Base();
      OrDisjoint(pn[1], 32, pn[0]);
      r := BitOr(pn[0], pn[1] * BASE);
      Low64Value(pn[..]);
    }

    method EqualTo(b: nat) returns (eq: bool)
      requires Wf() && b < BASE * BASE
      ensures eq <==> Value() == b
    {
      hide Val, Weight, Pow2;
      Low64Value(pn[..]);
      Nonlinear.DivMul(b, BASE);
      Nonlinear.DivBelow(b, BASE, BASE);
      var i := WIDTH;
      while i > 2
        invariant 2 <= i <= WIDTH && forall k | i <= k < WIDTH :: pn[k] == 0
      {
        i := i - 1;
        if pn[i] != 0 {
          HighLimb(pn[..], i);
          return false;
        }
      }
      ValSplit(pn[..], 2);
      ValZeros(pn[..][2..]);
      TwoLimbs(pn[..2]);
      eq := pn[1] == b / BASE && pn[0] == b % BASE;
      if !eq && pn[0] + pn[1] * BASE == b {
        Nonlinear.ModExact(b, pn[1], BASE, pn[0]);
      }
    }

    /** `|= 1 << u` on limb `j`, for a bit that is still clear. */
    method SetBit(bit: nat)
      requires Wf() && bit < 256 && LowBitsClear(pn[..], bit + 1)
      modifies pn
      ensures Value() == old(Value()) + Pow2(bit)
      ensures LowBitsClear(pn[..], bit)
    {
      hide Val, Weight, Pow2, BitOr;
      var j, u := bit / 32, bit % 32;
      SetBitValue(pn[..], bit);
      pn[j] := BitOr(pn[j], Pow2(u));
      assert pn[..] == old(pn[..])[j := pn[j]];
    }

    /** `/=` by shift and subtract: the exact quotient, or the error for a zero divisor, which
        leaves zero behind. */
    method Div(b: Uint256) returns (r: Outcome)
      requires Wf() && b.Wf()
      modifies pn
      ensures r == DivisionByZero <==> old(b.Value()) == 0
      ensures Value() == if old(b.Value()) == 0 then 0 else old(Value()) / old(b.Value())
    {
      hide Val, Weight, Pow2, LowBitsClear, Dividing, Scaled;
      var div := new Uint256.Copy(b);
      var num := new Uint256.Copy(this);
      ghost var n, d := num.Value(), div.Value();
      Clear();
      var numBits := num.Bits();
      var divBits := div.Bits();
      Pow2Zero();
      if divBits == 0 {
        return DivisionByZero;
      }
      if divBits > numBits {
        Pow2Mono(numBits, divBits - 1);
        Nonlinear.ModExact(n, 0, d, n);
        return Done;
      }
      var shift := numBits - divBits;
      Aligned(n, d, numBits, divBits);
      div.ShiftLeft(shift);
      AllClear(pn[..], shift + 1);
      while shift >= 0
        invariant -1 <= shift < 256
        invariant shift >= 0 ==> div.Value() == Scaled(d, shift)
        invariant Dividing(n, d, Value(), num.Value(), shift + 1)
        invariant LowBitsClear(pn[..], shift + 1)
      {
        var c := num.CompareTo(div);
        DivisionStep(n, d, Value(), num.Value(), shift);
        if c >= 0 {
          ValBound(num.pn[..]);
          Nonlinear.ModExact(num.Value() + MODULUS - div.Value(), 1, MODULUS, num.Value() - div.Value());
          num.Sub(div);
          SetBit(shift);
        } else {
          LowBitsWeaken(pn[..], shift);
        }
        HalfShift(d, shift);
        div.ShiftRight(1);
        shift := shift - 1;
      }
      DivisionDone(n, d, Value(), num.Value());
      return Done;
    }
  }

  datatype Outcome = Done | DivisionByZero

  lemma {:induction false} Low64Value(s: seq<uint32>)
    requires |s| == WIDTH
    ensures Val(s) % (BASE * BASE) == s[0] + s[1] * BASE < BASE * BASE
  {
    hide Val, Weight, Pow2;
    ValSplit(s, 2);
    TwoLimbs(s[..2]);
    WeightNext(0);
    WeightNext(1);
    ValEmpty();
    var low: nat := s[0] + s[1] * BASE;
    assert low < BASE * BASE;
    Nonlinear.ModExact(Val(s), Val(s[2..]), BASE * BASE, low);
  }

  lemma {:induction false} HighLimb(s: seq<uint32>, i: nat)
    requires 2 <= i < |s| && s[i] != 0
    ensures Val(s) >= BASE * BASE
  {
    hide Val, Weight, Pow2;
    ValSplit(s, i + 1);
    ValPrefix(s, i);
    WeightNext(0);
    WeightNext(1);
    ValEmpty();
    WeightIs(2);
    WeightIs(i);
    Pow2Mono(64, 32 * i);
    Nonlinear.MulMono(1, s[i], Weight(i));
    Nonlinear.MulNonneg(Weight(i + 1), Val(s[i + 1..]));
  }

  /** The lowest `t` bits are zero. */
  predicate LowBitsClear(s: seq<uint32>, t: nat) {
    forall k | 0 <= k < |s| ::
      && (32 * k + 32 <= t ==> s[k] == 0)
      && (32 * k < t < 32 * k + 32 ==> s[k] % Pow2(t - 32 * k) == 0)
  }

  lemma {:induction false} AllClear(s: seq<uint32>, t: nat)
    requires forall k | 0 <= k < |s| :: s[k] == 0
    ensures LowBitsClear(s, t)
  {
    forall k | 0 <= k < |s| && 32 * k < t < 32 * k + 32 ensures s[k] % Pow2(t - 32 * k) == 0 {
      ZeroDiv(Pow2(t - 32 * k));
    }
  }

  lemma {:induction false} LowBitsWeaken(s: seq<uint32>, t: nat)
    requires LowBitsClear(s, t + 1)
    ensures LowBitsClear(s, t)
  {
    forall k | 0 <= k < |s| && 32 * k < t < 32 * k + 32 ensures s[k] % Pow2(t - 32 * k) == 0 {
      var u := t - 32 * k;
      if u == 31 {
        ZeroDiv(Pow2(u));
      } else {
        EvenMultiple(s[k], Pow2(u));
      }
    }
  }

  lemma {:induction false} EvenMultiple(x: nat, p: nat)
    requires p > 0 && x % (2 * p) == 0
    ensures x % p == 0
  {
    var q := x / (2 * p);
    Nonlinear.DivMul(x, 2 * p);
    assert q * (2 * p) == 2 * q * p;
    Nonlinear.ModExact(x, 2 * q, p, 0);
  }

  lemma {:induction false} SetBitValue(s: seq<uint32>, bit: nat)
    requires |s| == WIDTH && bit < 256 && LowBitsClear(s, bit + 1)
    ensures var j, u := bit / 32, bit % 32;
            && BitOr(s[j], Pow2(u)) == s[j] + Pow2(u) < BASE
            && var s' := s[j := s[j] + Pow2(u)];
               Val(s') == Val(s) + Pow2(bit) && LowBitsClear(s', bit)
  {
    hide BitOr, Pow2, Val, Weight;
    var j, u := bit / 32, bit % 32;
    assert bit == 32 * j + u;
    WeightIs(j);
    SetBitLimb(s[j], u);
    ValUpdate(s, j, s[j] + Pow2(u));
    Pow2Add(32 * j, u);
    LowBitsWeaken(s, bit);
  }

  lemma {:induction false} SetBitLimb(x: uint32, u: nat)
    requires u < 32 && if u == 31 then x == 0 else x % Pow2(u + 1) == 0
    ensures BitOr(x, Pow2(u)) == x + Pow2(u) < BASE
    ensures (x + Pow2(u)) % Pow2(u) == 0
  {
    var c: nat := Quotient(x, Pow2(u + 1));
    if u == 31 { ZeroDiv(Pow2(32)); }
    Nonlinear.DivMul(x, Pow2(u + 1));
    OrDisjoint(c, u + 1, Pow2(u));
    SplitLimb(x, 0);
    Pow2Base();
    Pow2Add(u + 1, 31 - u);
    RoomAbove(x, c, Pow2(u), Pow2(31 - u));
  }

  lemma {:induction false} RoomAbove(x: nat, c: nat, p: nat, q: nat)
    requires p > 0 && x == c * (2 * p) < 2 * p * q
    ensures x + p < 2 * p * q && (x + p) % p == 0
  {
    assert (2 * p) * q == q * (2 * p);
    if c >= q { Nonlinear.MulMono(q, c, 2 * p); }
    Nonlinear.MulMono(c + 1, q, 2 * p);
    Nonlinear.MulNext(c, 2 * p);
    assert (2 * c + 1) * p == c * (2 * p) + p;
    Nonlinear.ModExact(x + p, 2 * c + 1, p, 0);
  }

  /** Shifted so that the highest bits meet, the divisor still fits and twice it exceeds the
      dividend. */
  lemma {:induction false} Aligned(n: nat, d: nat, numBits: nat, divBits: nat)
    requires 0 < divBits <= numBits <= 256
    requires Pow2(divBits - 1) <= d < Pow2(divBits) && n < Pow2(numBits)
    ensures var shift := numBits - divBits;
            && d * Pow2(shift) % MODULUS == Scaled(d, shift)
            && Dividing(n, d, 0, n, shift + 1)
  {
    hide Pow2, Weight;
    var shift := numBits - divBits;
    Pow2Add(divBits, shift);
    Pow2Add(divBits - 1, shift + 1);
    Pow2Mono(numBits, 256);
    WeightIs(WIDTH);
    Nonlinear.MulStrict(d, Pow2(divBits), Pow2(shift));
    Nonlinear.MulMono(Pow2(divBits - 1), d, Pow2(shift + 1));
    Nonlinear.ModExact(d * Pow2(shift), 0, MODULUS, d * Pow2(shift));
  }

  function Scaled(d: nat, shift: nat): nat {
    Nonlinear.MulNonneg(d, Pow2(shift));
    d * Pow2(shift)
  }

  /** The quotient so far and the rest make up the dividend; bits from `shift` up are decided. */
  predicate Dividing(n: nat, d: nat, q: nat, rest: nat, shift: nat) {
    n == q * d + rest && rest < Scaled(d, shift)
  }

  lemma {:induction false} DivisionStep(n: nat, d: nat, q: nat, rest: nat, shift: nat)
    requires Dividing(n, d, q, rest, shift + 1)
    ensures if rest >= Scaled(d, shift) then Dividing(n, d, q + Pow2(shift), rest - Scaled(d, shift), shift)
            else Dividing(n, d, q, rest, shift)
  {
    Doubled(d, Pow2(shift));
    Nonlinear.MulAdd(q, Pow2(shift), d);
  }

  lemma {:induction false} DivisionDone(n: nat, d: nat, q: nat, rest: nat)
    requires d > 0 && Dividing(n, d, q, rest, 0)
    ensures n / d == q
  {
    Nonlinear.ModExact(n, q, d, rest);
  }

  lemma {:induction false} Doubled(d: nat, p: nat)
    ensures d * (2 * p) == 2 * (d * p) && p * d == d * p
  {
  }

  lemma {:induction false} HalfShift(d: nat, shift: nat)
    ensures shift >= 1 ==> Scaled(d, shift) / Pow2(1) == Scaled(d, shift - 1)
    ensures Pow2(1) == 2
  {
    if shift >= 1 { Doubled(d, Pow2(shift - 1)); }
  }

  /** Limb `m` after `i` turns of the loops below. */
  function LeftSofar(a: seq<uint32>, k: nat, s: nat, i: nat, m: nat): nat
    requires s < 32 && i <= |a| && m < |a|
  {
    if m < i + k then LeftLimb(a, k, s, m) else if m == i + k then Spill(a, s, i) else 0
  }

  function RightSofar(a: seq<uint32>, k: nat, s: nat, i: nat, m: nat): nat
    requires s < 32
  {
    if m + k + 1 < i then RightLimb(a, k, s, m)
    else if m + k + 1 == i then Quotient(At(a, m + k), Pow2(s))
    else 0
  }

  lemma {:induction false} LeftStart(a: seq<uint32>, k: nat, s: nat)
    requires s < 32
    ensures forall m | 0 <= m < |a| :: LeftSofar(a, k, s, 0, m) == 0
  {
  }

  lemma {:induction false} LeftEnd(a: seq<uint32>, k: nat, s: nat, r: seq<uint32>)
    requires s < 32 && |a| == |r| && forall m | 0 <= m < |r| :: r[m] == LeftSofar(a, k, s, |a|, m)
    ensures forall m | 0 <= m < |r| :: r[m] == LeftLimb(a, k, s, m)
  {
  }

  lemma {:induction false} RightStart(a: seq<uint32>, k: nat, s: nat)
    requires s < 32
    ensures forall m | 0 <= m < |a| :: RightSofar(a, k, s, 0, m) == 0
  {
  }

  /** One turn of the loop of `<<=`. */
  lemma {:induction false} LeftTurn(a: seq<uint32>, k: nat, s: nat, i: nat)
    requires s < 32 && i < |a|
    ensures var up, stay := Quotient(a[i], Pow2(32 - s)), a[i] * Pow2(s) % BASE;
            && 0 <= up < BASE && 0 <= stay
            && (s == 0 ==> up == 0)
            && (i + k < |a| ==> BitOr(LeftSofar(a, k, s, i, i + k), stay) == LeftSofar(a, k, s, i + 1, i + k) < BASE)
            && (i + k + 1 < |a| ==> LeftSofar(a, k, s, i, i + k + 1) == 0 && BitOr(0, up) == up)
            && forall m | 0 <= m < |a| && m != i + k ::
                 LeftSofar(a, k, s, i + 1, m) == if m == i + k + 1 then up else LeftSofar(a, k, s, i, m)
  {
    hide Pow2, BitOr;
    Pow2Zero();
    SplitLimb(a[i], s);
    if i > 0 { SplitLimb(a[i - 1], s); }
    var up := Quotient(a[i], Pow2(32 - s));
    OrZero(up);
    OrCommutes(0, up);
    Nonlinear.ModBelow(a[i], Pow2(32 - s));
    OrDisjoint(a[i] % Pow2(32 - s), s, Spill(a, s, i));
    BelowBase(a[i] % Pow2(32 - s), Pow2(32 - s), Pow2(s), Spill(a, s, i));
  }

  lemma {:induction false} BelowBase(r: nat, q: nat, p: nat, low: nat)
    requires r < q && low < p && p * q == BASE
    ensures r * p + low < BASE
  {
    Nonlinear.MulMono(r + 1, q, p);
    Nonlinear.MulNext(r, p);
  }

  /** One turn of the loop of `>>=`. */
  lemma {:induction false} RightTurn(a: seq<uint32>, k: nat, s: nat, i: nat)
    requires s < 32 && i < |a|
    ensures var down, stay := a[i] * Pow2(32 - s) % BASE, Quotient(a[i], Pow2(s));
            && 0 <= stay < BASE && 0 <= down
            && (s == 0 ==> down == 0)
            && (i >= k + 1 ==>
                  BitOr(RightSofar(a, k, s, i, i - k - 1), down) == RightSofar(a, k, s, i + 1, i - k - 1) < BASE)
            && (i >= k + 1 && s == 0 ==> RightSofar(a, k, s, i, i - k - 1) == RightSofar(a, k, s, i + 1, i - k - 1))
            && (i >= k ==> RightSofar(a, k, s, i, i - k) == 0 && BitOr(0, stay) == stay)
            && forall m | 0 <= m < |a| && m != i - k - 1 ::
                 RightSofar(a, k, s, i + 1, m) == if m == i - k then stay else RightSofar(a, k, s, i, m)
  {
    hide Pow2, BitOr;
    Pow2Zero();
    SplitLimb(a[i], s);
    if i > 0 { SplitLimb(a[i - 1], s); }
    var stay := Quotient(a[i], Pow2(s));
    OrZero(stay);
    OrCommutes(0, stay);
    Nonlinear.ModBelow(a[i], Pow2(s));
    if i >= k + 1 {
      OrDisjoint(a[i] % Pow2(s), 32 - s, Quotient(At(a, i - 1), Pow2(s)));
      BelowBase(a[i] % Pow2(s), Pow2(s), Pow2(32 - s), Quotient(At(a, i - 1), Pow2(s)));
    }
  }

  lemma {:induction false} RightEnd(a: seq<uint32>, k: nat, s: nat, r: seq<uint32>)
    requires s < 32 && |a| == |r| && forall m | 0 <= m < |r| :: r[m] == RightSofar(a, k, s, |a|, m)
    ensures forall m | 0 <= m < |r| :: r[m] == RightLimb(a, k, s, m)
  {
    ZeroDiv(Pow2(s));
  }

  /** `x & (1 << n)` is not zero. */
  predicate TestBit(x: nat, n: nat) { x / Pow2(n) % 2 == 1 }

  lemma {:induction false} TestBitBelow(x: nat, n: nat)
    requires x < Pow2(n + 1)
    ensures TestBit(x, n) <==> x >= Pow2(n)
  {
    if x >= Pow2(n) {
      Nonlinear.ModExact(x, 1, Pow2(n), x - Pow2(n));
    } else {
      Nonlinear.ModExact(x, 0, Pow2(n), x);
    }
  }

  lemma {:induction false} HigherLimbWins(x: seq<uint32>, y: seq<uint32>, i: nat)
    requires i < |x| == |y| && x[i] < y[i] && forall k | i < k < |x| :: x[k] == y[k]
    ensures Val(x) < Val(y)
  {
    hide Val, Weight, Pow2;
    SameTail(x, y, i + 1);
    ValPrefix(x, i);
    ValPrefix(y, i);
    ValBound(x[..i]);
    var xi: nat, yi: nat := x[i], y[i];
    Nonlinear.MulNext(xi, Weight(i));
    Nonlinear.MulMono(xi + 1, yi, Weight(i));
  }

  /** The highest nonzero limb and its highest bit bound the value. */
  lemma {:induction false} TopBit(s: seq<uint32>, pos: nat, n: nat)
    requires pos < |s| == WIDTH && n < 32 && forall k | pos < k < |s| :: s[k] == 0
    requires s[pos] < Pow2(n + 1) && ((n == 0 && s[pos] > 0) || TestBit(s[pos], n))
    ensures 32 * pos + n + 1 <= 256
    ensures Pow2(32 * pos + n) <= Val(s) < Pow2(32 * pos + n + 1)
  {
    hide Pow2, Val, Weight;
    WeightIs(pos);
    Pow2Zero();
    if n > 0 { TestBitBelow(s[pos], n); }
    ValSplit(s, pos + 1);
    ValZeros(s[pos + 1..]);
    ValPrefix(s, pos);
    ValBound(s[..pos]);
    Pow2Add(32 * pos, n);
    Pow2Add(32 * pos, n + 1);
    var top: nat := s[pos];
    TopLimb(top, Val(s[..pos]), Weight(pos), Pow2(n), Pow2(n + 1));
  }

  lemma {:induction false} TopLimb(top: nat, low: nat, w: nat, p: nat, p2: nat)
    requires low < w && p <= top < p2
    ensures w * p <= low + top * w < w * p2
  {
    Nonlinear.MulMono(p, top, w);
    Nonlinear.MulMono(top + 1, p2, w);
    Nonlinear.MulNext(top, w);
  }

  /** A limb product plus two limbs fits in 64 bits, so the carry fits in one limb. */
  lemma {:induction false} LimbProduct(carry: nat, a: uint32, p: uint32, q: uint32)
    requires carry < BASE
    ensures 0 <= carry + a + p * q < BASE * BASE
    ensures (carry + a + p * q) / BASE < BASE
  {
    Nonlinear.MulMono(p, BASE - 1, q);
    Nonlinear.MulMono(q, BASE - 1, BASE - 1);
    Nonlinear.MulNonneg(p, q);
    Nonlinear.DivBelow(carry + a + p * q, BASE, BASE);
  }

  lemma {:induction false} MulLimbStep(r: seq<uint32>, x: seq<uint32>, i: nat, p: uint32, carry: nat, n: nat)
    requires i < |r| == |x| && n == carry + p * x[i] && r[i] == n % BASE
    requires Val(r[..i]) + carry * Weight(i) == p * Val(x[..i])
    ensures Val(r[..i + 1]) + n / BASE * Weight(i + 1) == p * Val(x[..i + 1])
  {
    hide Val, Weight, Pow2;
    ValPrefix(r, i);
    ValPrefix(x, i);
    WeightNext(i);
    CarryStep(n, Weight(i));
    Nonlinear.MulAdd(carry, p * x[i], Weight(i));
    Nonlinear.MulAssoc(p, x[i], Weight(i));
    Nonlinear.MulDist(p, Val(x[..i]), x[i] * Weight(i));
  }

  lemma {:induction false} MulStep(r: seq<uint32>, was: seq<uint32>, y: seq<uint32>, i: nat, j: nat,
      p: uint32, carry: nat, n: nat)
    requires i + j < |r| == |was| && i < |y|
    requires n == carry + was[i + j] + p * y[i] && r[i + j] == n % BASE
    requires Val(r[..i + j]) + carry * Weight(i + j) == Val(was[..i + j]) + p * Val(y[..i]) * Weight(j)
    ensures Val(r[..i + 1 + j]) + n / BASE * Weight(i + 1 + j)
         == Val(was[..i + 1 + j]) + p * Val(y[..i + 1]) * Weight(j)
  {
    hide Val, Weight, Pow2;
    ValPrefix(r, i + j);
    ValPrefix(was, i + j);
    ValPrefix(y, i);
    WeightNext(i + j);
    WeightAdd(i, j);
    LimbOfRow(Val(r[..i + j]), Val(was[..i + j]), Val(y[..i]), p, y[i], was[i + j], Weight(i), Weight(j), carry);
  }

  /** One limb of a row, on plain numbers. */
  lemma {:induction false} LimbOfRow(r: nat, was: nat, v: nat, p: nat, d: nat, a: nat, wi: nat, wj: nat, carry: nat)
    requires r + carry * (wi * wj) == was + p * v * wj
    ensures var n := carry + a + p * d;
            r + n % BASE * (wi * wj) + n / BASE * (BASE * (wi * wj))
            == was + a * (wi * wj) + p * (v + d * wi) * wj
  {
    var w := wi * wj;
    CarryStep(carry + a + p * d, w);
    Sum3(carry, a, p * d, w);
    RowTerm(p, v, d, wi, wj);
  }

  lemma {:induction false} RowTerm(p: nat, v: nat, d: nat, wi: nat, wj: nat)
    ensures p * (v + d * wi) * wj == p * v * wj + p * d * (wi * wj)
  {
    Nonlinear.MulDist(p, v, d * wi);
    Nonlinear.MulAdd(p * v, p * (d * wi), wj);
    Nonlinear.MulAssoc(p, d, wi);
    Nonlinear.MulAssoc(p * d, wi, wj);
  }

  lemma {:induction false} MulRowStep(r: seq<uint32>, was: seq<uint32>, x: seq<uint32>, y: seq<uint32>,
      j: nat, carry: nat, k: nat) returns (k': nat)
    requires j < |x| == |y| == WIDTH
    requires Val(r) + carry * MODULUS == Val(was) + x[j] * Val(y[..WIDTH - j]) * Weight(j)
    requires Val(was) + k * MODULUS == Val(x[..j]) * Val(y)
    ensures Val(r) + k' * MODULUS == Val(x[..j + 1]) * Val(y)
  {
    hide Val, Weight, Pow2;
    Nonlinear.MulNonneg(x[j], Val(y[WIDTH - j..]));
    k' := k + carry + x[j] * Val(y[WIDTH - j..]);
    ValPrefix(x, j);
    ValSplit(y, WIDTH - j);
    WeightAdd(WIDTH - j, j);
    RowStep(Val(r), Val(was), Val(x[..j]), x[j], Weight(j), Val(y[..WIDTH - j]), Val(y[WIDTH - j..]),
            Weight(WIDTH - j), MODULUS, carry, k);
  }

  /** One row of the product, on plain numbers. */
  lemma {:induction false} RowStep(r: nat, was: nat, v: nat, p: nat, wj: nat, low: nat, high: nat, wh: nat,
      m: nat, carry: nat, k: nat)
    requires m == wh * wj && r + carry * m == was + p * low * wj
    requires was + k * m == v * (low + wh * high)
    ensures r + (k + carry + p * high) * m == (v + p * wj) * (low + wh * high)
  {
    RowTotal(v, p, wj, low, high, wh);
    Sum3(k, carry, p * high, m);
  }

  lemma {:induction false} RowTotal(v: nat, p: nat, wj: nat, low: nat, high: nat, wh: nat)
    ensures (v + p * wj) * (low + wh * high)
         == v * (low + wh * high) + p * low * wj + p * high * (wh * wj)
  {
    var t := low + wh * high;
    Nonlinear.MulAdd(v, p * wj, t);
    Nonlinear.MulDist(p * wj, low, wh * high);
    assert p * wj * low == p * low * wj;
    assert p * wj * (wh * high) == p * high * (wh * wj);
  }

  lemma {:induction false} IncrementStep(r: seq<uint32>, x: seq<uint32>, i: nat)
    requires i < |r| == |x| && Val(r[..i]) + Weight(i) == Val(x[..i]) + 1
    requires r[i] == if x[i] == BASE - 1 then 0 else x[i] + 1
    ensures if r[i] == 0 then Val(r[..i + 1]) + Weight(i + 1) == Val(x[..i + 1]) + 1
            else Val(r[..i + 1]) == Val(x[..i + 1]) + 1
  {
    hide Val, Weight, Pow2;
    ValPrefix(r, i);
    ValPrefix(x, i);
    WeightNext(i);
    Nonlinear.MulNext(x[i], Weight(i));
  }

  lemma {:induction false} SameTail(r: seq<uint32>, x: seq<uint32>, i: nat)
    requires |r| == |x| && i <= |r| && forall k | i <= k < |r| :: r[k] == x[k]
    ensures Val(r) - Val(r[..i]) == Val(x) - Val(x[..i])
  {
    ValSplit(r, i);
    ValSplit(x, i);
    assert r[i..] == x[i..];
  }

  lemma {:induction false} ComplementValue(x: seq<uint32>, r: seq<uint32>)
    requires |r| == |x| && forall k | 0 <= k < |x| :: r[k] == BASE - 1 - x[k]
    ensures Val(r) + Val(x) + 1 == Weight(|x|)
    decreases |x|
  {
    if x != [] {
      var last := |x| - 1;
      ComplementValue(x[..last], r[..last]);
      WeightNext(last);
      Sum3(r[last], x[last], 1, Weight(last));
    }
  }

  lemma {:induction false} TwoLimbs(s: seq<uint32>)
    requires |s| == 2
    ensures Val(s) == s[0] + s[1] * BASE
  {
    ValPrefix(s, 1);
    ValPrefix(s, 0);
    assert s[..2] == s && s[..1][..0] == [];
    WeightNext(0);
  }

  lemma {:induction false} AddStep(r: seq<uint32>, x: seq<uint32>, y: seq<uint32>, i: nat, carry: nat, n: nat)
    requires i < |r| == |x| == |y|
    requires n == carry + x[i] + y[i] && r[i] == n % BASE
    requires Val(r[..i]) + carry * Weight(i) == Val(x[..i]) + Val(y[..i])
    ensures Val(r[..i + 1]) + n / BASE * Weight(i + 1) == Val(x[..i + 1]) + Val(y[..i + 1])
  {
    hide Val, Weight, Pow2;
    ValPrefix(r, i);
    ValPrefix(x, i);
    ValPrefix(y, i);
    WeightNext(i);
    CarryStep(n, Weight(i));
    Sum3(carry, x[i], y[i], Weight(i));
  }

  lemma {:induction false} Sum3(a: nat, b: nat, c: nat, w: nat)
    ensures (a + b + c) * w == a * w + b * w + c * w
  {
  }
}
