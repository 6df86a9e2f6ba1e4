/** Unsigned numbers as little-endian sequences of 32-bit limbs, and the powers of two that
    weigh them. */
module Limbs {
  import Nonlinear

  const BASE: nat := 0x1_0000_0000

  type uint32 = x: nat | x < BASE

  function Pow2(n: nat): (p: nat)
    ensures p > 0
  {
    if n == 0 then 1 else 2 * Pow2(n - 1)
  }

  lemma {:induction false} Pow2Add(a: nat, b: nat)
    ensures Pow2(a + b) == Pow2(a) * Pow2(b)
  {
    if a > 0 {
      Pow2Add(a - 1, b);
      Nonlinear.MulAssoc(2, Pow2(a - 1), Pow2(b));
    }
  }

  lemma {:induction false} Pow2Mono(a: nat, b: nat)
    requires a <= b
    ensures Pow2(a) <= Pow2(b)
    decreases b
  {
    if a < b { Pow2Mono(a, b - 1); }
  }

  lemma {:induction false} Pow2Base()
    ensures Pow2(8) == 256 && Pow2(16) == 0x1_0000 && Pow2(32) == BASE
  {
    Pow2Add(8, 8);
    Pow2Add(16, 16);
  }

  /** The weight of limb `i`. */
  function Weight(i: nat): (w: nat)
    ensures w > 0
  {
    Pow2(32 * i)
  }

  lemma {:induction false} WeightIs(i: nat)
    ensures Weight(i) == Pow2(32 * i)
  {
  }

  lemma {:induction false} Pow2Zero()
    ensures Pow2(0) == 1
  {
  }

  lemma {:induction false} WeightNext(i: nat)
    ensures Weight(i + 1) == BASE * Weight(i)
  {
    Pow2Base();
    Pow2Add(32, 32 * i);
  }

  lemma {:induction false} WeightAdd(i: nat, j: nat)
    ensures Weight(i + j) == Weight(i) * Weight(j)
  {
    Pow2Add(32 * i, 32 * j);
    assert 32 * (i + j) == 32 * i + 32 * j;
  }

  function Val(s: seq<uint32>): nat {
    if s == [] then 0
    else
      Nonlinear.MulNonneg(s[|s| - 1], Weight(|s| - 1));
      Val(s[..|s| - 1]) + s[|s| - 1] * Weight(|s| - 1)
  }

  lemma {:induction false} ValEmpty()
    ensures Val([]) == 0 && Weight(0) == 1
  {
  }

  lemma {:induction false} ValPrefix(s: seq<uint32>, i: nat)
    requires i < |s|
    ensures Val(s[..i + 1]) == Val(s[..i]) + s[i] * Weight(i)
  {
    assert s[..i + 1][..i] == s[..i];
  }

  lemma {:induction false} ValBound(s: seq<uint32>)
    ensures Val(s) < Weight(|s|)
    decreases |s|
  {
    if s != [] {
      var last := |s| - 1;
      ValBound(s[..last]);
      WeightNext(last);
      var top: nat := s[last];
      Nonlinear.MulMono(top + 1, BASE, Weight(last));
      Nonlinear.MulNext(top, Weight(last));
    }
  }

  lemma {:induction false} ValZeros(s: seq<uint32>)
    requires forall i | 0 <= i < |s| :: s[i] == 0
    ensures Val(s) == 0
    decreases |s|
  {
    if s != [] { ValZeros(s[..|s| - 1]); }
  }

  lemma {:induction false} ValSplit(s: seq<uint32>, k: nat)
    requires k <= |s|
    ensures Val(s) == Val(s[..k]) + Weight(k) * Val(s[k..])
    decreases |s|
  {
    if k == |s| {
      assert s[..k] == s && s[k..] == [];
    } else {
      var last := |s| - 1;
      ValSplit(s[..last], k);
      assert s[..last][..k] == s[..k];
      assert s[..last][k..] == s[k..][..last - k];
      WeightAdd(k, last - k);
      Distribute(Weight(k), Val(s[k..][..last - k]), s[last], Weight(last - k));
    }
  }

  lemma {:induction false} Distribute(w: nat, v: nat, x: nat, u: nat)
    ensures w * (v + x * u) == w * v + x * (w * u)
  {
  }

  lemma {:induction false} ValUpdate(s: seq<uint32>, j: nat, v: uint32)
    requires j < |s|
    ensures Val(s[j := v]) == Val(s) + (v - s[j]) * Weight(j)
    decreases |s|
  {
    var last := |s| - 1;
    if j < last {
      ValUpdate(s[..last], j, v);
      assert s[j := v][..last] == s[..last][j := v];
    } else {
      assert s[j := v][..last] == s[..last];
    }
  }
}
