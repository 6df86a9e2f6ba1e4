/** What shifting does to limbs and to the number they stand for, and when `|=` is addition. */
module LimbShifts {
  import Nonlinear
  import opened Limbs

  /** Bitwise or of unsigned numbers. */
  function BitOr(a: nat, b: nat): nat {
    if a == 0 && b == 0 then 0
    else (if a % 2 == 1 || b % 2 == 1 then 1 else 0) + 2 * BitOr(a / 2, b / 2)
  }

  lemma {:induction false} OrCommutes(a: nat, b: nat)
    ensures BitOr(a, b) == BitOr(b, a)
  {
    if a != 0 || b != 0 { OrCommutes(a / 2, b / 2); }
  }

  lemma {:induction false} OrZero(a: nat)
    ensures BitOr(a, 0) == a
  {
    if a != 0 { OrZero(a / 2); }
  }

  lemma {:induction false} OrEven(x: nat, b: nat)
    ensures BitOr(2 * x, b) == b % 2 + 2 * BitOr(x, b / 2)
  {
  }

  /** Numbers without a common bit: one a multiple of a power of two, the other below it. */
  lemma {:induction false} OrDisjoint(c: nat, t: nat, b: nat)
    requires b < Pow2(t)
    ensures BitOr(c * Pow2(t), b) == c * Pow2(t) + b == BitOr(b, c * Pow2(t))
    decreases t
  {
    OrCommutes(c * Pow2(t), b);
    if t == 0 {
      OrZero(c);
    } else {
      OrDisjoint(c, t - 1, b / 2);
      Nonlinear.MulAssoc(2, c, Pow2(t - 1));
      Nonlinear.MulAssoc(c, 2, Pow2(t - 1));
      OrEven(c * Pow2(t - 1), b);
    }
  }

  /** Moving a limb up by `s` bits splits it into what stays and what spills over; moving it
      down by the complement does the same. */
  lemma {:induction false} SplitLimb(x: uint32, s: nat)
    requires s < 32
    ensures var p, q := Pow2(s), Pow2(32 - s);
            && p * q == BASE
            && x * p / BASE == x / q < p
            && x * p % BASE == x % q * p
            && x * q % BASE == x % p * q
            && x / p < q
  {
    var p, q := Pow2(s), Pow2(32 - s);
    Pow2Base();
    Pow2Add(s, 32 - s);
    Half(x, p, q);
    assert q * p == p * q;
    Half(x, q, p);
  }

  lemma {:induction false} Half(x: nat, p: nat, q: nat)
    requires p > 0 && q > 0 && p * q == BASE && x < BASE
    ensures x * p / BASE == x / q < p
    ensures x * p % BASE == x % q * p
  {
    var d, r := x / q, x % q;
    Nonlinear.DivMul(x, q);
    Nonlinear.DivBelow(x, p, q);
    Nonlinear.MulAdd(d * q, r, p);
    Nonlinear.MulAssoc(d, q, p);
    assert q * p == BASE;
    Nonlinear.MulStrict(r, q, p);
    Nonlinear.ModExact(x * p, d, BASE, r * p);
  }

  // ---- left ----

  /** Limb `m` of the limbs `a` moved up by `k` limbs and `s` bits. */
  function LeftLimb(a: seq<uint32>, k: nat, s: nat, m: nat): nat
    requires s < 32 && m < |a|
  {
    if m < k then 0
    else a[m - k] * Pow2(s) % BASE + Spill(a, s, m - k)
  }

  /** What the limb below `i` spills into limb `i`. */
  function Spill(a: seq<uint32>, s: nat, i: nat): nat
    requires s < 32 && i <= |a|
  {
    if i == 0 then 0
    else
      Nonlinear.DivNonneg(a[i - 1], Pow2(32 - s));
      a[i - 1] / Pow2(32 - s)
  }

  lemma {:induction false} LeftPrefix(a: seq<uint32>, r: seq<uint32>, k: nat, s: nat, i: nat)
    requires s < 32 && |a| == |r| && i + k <= |a|
    requires forall m | 0 <= m < |r| :: r[m] == LeftLimb(a, k, s, m)
    ensures Val(r[..i + k]) + Spill(a, s, i) * Weight(i + k) == Pow2(s) * Weight(k) * Val(a[..i])
    decreases i
  {
    hide Val, Weight, Pow2;
    ValEmpty();
    if i == 0 {
      assert forall m | 0 <= m < k :: r[..k][m] == 0;
      ValZeros(r[..k]);
    } else {
      var j := i - 1;
      LeftPrefix(a, r, k, s, j);
      ValPrefix(r, j + k);
      ValPrefix(a, j);
      WeightNext(j + k);
      WeightAdd(j, k);
      SplitLimb(a[j], s);
      LeftStep(Val(r[..j + k]), Spill(a, s, j), Pow2(s), Weight(k), Val(a[..j]), a[j], Weight(j));
    }
  }

  lemma {:induction false} LeftStep(r: nat, spill: nat, p: nat, wk: nat, v: nat, d: nat, wj: nat)
    requires r + spill * (wj * wk) == p * wk * v
    ensures r + (d * p % BASE + spill) * (wj * wk) + d * p / BASE * (BASE * (wj * wk))
         == p * wk * (v + d * wj)
  {
    var w, n := wj * wk, d * p;
    Nonlinear.DivMul(n, BASE);
    Nonlinear.MulAdd(n % BASE, spill, w);
    Nonlinear.MulAdd(n / BASE * BASE, n % BASE, w);
    Nonlinear.MulAssoc(n / BASE, BASE, w);
    Nonlinear.MulDist(p * wk, v, d * wj);
    assert p * wk * (d * wj) == n * w;
  }

  /** The shifted limbs stand for the product with a power of two, up to what fell off. */
  lemma {:induction false} LeftValue(a: seq<uint32>, r: seq<uint32>, k: nat, s: nat) returns (lost: nat)
    requires s < 32 && |a| == |r|
    requires forall m | 0 <= m < |r| :: r[m] == LeftLimb(a, k, s, m)
    ensures Val(r) + lost * Weight(|a|) == Val(a) * Pow2(32 * k + s)
  {
    hide Val, Weight, Pow2;
    var n := |a|;
    WeightIs(k);
    WeightIs(n);
    Pow2Add(32 * k, s);
    if k >= n {
      ValZeros(r);
      WeightAdd(k - n, n);
      Nonlinear.MulNonneg(Val(a), Weight(k - n) * Pow2(s));
      lost := Val(a) * (Weight(k - n) * Pow2(s));
      AllLost(Val(a), Weight(k - n), Weight(n), Pow2(s));
    } else {
      LeftPrefix(a, r, k, s, n - k);
      assert r[..n - k + k] == r;
      ValSplit(a, n - k);
      WeightAdd(n - k, k);
      var high := Val(a[n - k..]);
      Nonlinear.MulNonneg(Pow2(s), high);
      lost := Spill(a, s, n - k) + Pow2(s) * high;
      SomeLost(Val(r), Spill(a, s, n - k), Pow2(s), Weight(k), Val(a[..n - k]), high, Weight(n - k));
    }
  }

  lemma {:induction false} AllLost(v: nat, wk: nat, wn: nat, p: nat)
    ensures v * (wk * p) * wn == v * (wk * wn * p)
  {
  }

  lemma {:induction false} SomeLost(r: nat, spill: nat, p: nat, wk: nat, low: nat, high: nat, wh: nat)
    requires r + spill * (wh * wk) == p * wk * low
    ensures r + (spill + p * high) * (wh * wk) == (low + wh * high) * (wk * p)
  {
    Nonlinear.MulAdd(spill, p * high, wh * wk);
    Nonlinear.MulAdd(low, wh * high, wk * p);
    assert low * (wk * p) == p * wk * low;
    assert wh * high * (wk * p) == p * high * (wh * wk);
  }

  // ---- right ----

  /** Limb `m` of the limbs `a` moved down by `k` limbs and `s` bits. */
  function RightLimb(a: seq<uint32>, k: nat, s: nat, m: nat): nat
    requires s < 32
  {
    Nonlinear.DivNonneg(At(a, m + k), Pow2(s));
    At(a, m + k) / Pow2(s) + At(a, m + k + 1) * Pow2(32 - s) % BASE
  }

  /** The limbs continue with zeros. */
  function At(a: seq<uint32>, i: nat): uint32 { if i < |a| then a[i] else 0 }

  lemma {:induction false} RightPrefix(a: seq<uint32>, r: seq<uint32>, k: nat, s: nat, m: nat)
    requires s < 32 && m + k <= |a| && m <= |r|
    requires forall i | 0 <= i < |r| :: r[i] == RightLimb(a, k, s, i)
    ensures Pow2(s) * Val(r[..m]) + At(a, k) % Pow2(s)
         == Val(a[k..][..m]) + At(a, k + m) % Pow2(s) * Weight(m)
    decreases m
  {
    hide Val, Weight, Pow2;
    ValEmpty();
    if m > 0 {
      var j := m - 1;
      RightPrefix(a, r, k, s, j);
      ValPrefix(r, j);
      ValPrefix(a[k..], j);
      WeightNext(j);
      SplitLimb(At(a, k + m), s);
      var first, d, rem := Remainder(At(a, k), Pow2(s)), Quotient(a[k + j], Pow2(s)), Remainder(a[k + j], Pow2(s));
      var next := Remainder(At(a, k + m), Pow2(s));
      Nonlinear.DivMul(a[k + j], Pow2(s));
      RightStep(Pow2(s), Pow2(32 - s), Val(r[..j]), first, Val(a[k..][..j]), d, rem, next, Weight(j));
    }
  }

  function Quotient(x: nat, p: nat): nat
    requires p > 0
  {
    Nonlinear.DivNonneg(x, p);
    x / p
  }

  function Remainder(x: nat, p: nat): nat
    requires p > 0
  {
    Nonlinear.ModBelow(x, p);
    x % p
  }

  lemma {:induction false} RightStep(p: nat, q: nat, r: nat, first: nat, v: nat, d: nat, rem: nat, next: nat, w: nat)
    requires p * q == BASE && p * r + first == v + rem * w
    ensures p * (r + (d + next * q) * w) + first == v + (d * p + rem) * w + next * (BASE * w)
  {
    Nonlinear.MulDist(p, r, (d + next * q) * w);
    Nonlinear.MulAdd(d * p, rem, w);
    Nonlinear.MulAdd(d, next * q, w);
    Nonlinear.MulDist(p, d * w, next * q * w);
    assert p * (d * w) == d * p * w;
    assert p * (next * q * w) == next * (p * q * w);
  }

  /** The shifted limbs stand for the quotient by a power of two. */
  lemma {:induction false} RightValue(a: seq<uint32>, r: seq<uint32>, k: nat, s: nat)
    requires s < 32 && |a| == |r|
    requires forall i | 0 <= i < |r| :: r[i] == RightLimb(a, k, s, i)
    ensures Val(r) == Val(a) / Pow2(32 * k + s)
  {
    hide Val, Weight, Pow2;
    var n := |a|;
    WeightIs(k);
    WeightIs(n);
    Pow2Add(32 * k, s);
    if k >= n {
      forall i | 0 <= i < n ensures r[i] == 0 { ZeroDiv(Pow2(s)); }
      ValZeros(r);
      ValBound(a);
      Pow2Mono(32 * n, 32 * k);
      Pow2Mono(32 * k, 32 * k + s);
      Nonlinear.ModExact(Val(a), 0, Pow2(32 * k + s), Val(a));
    } else {
      var m := n - k;
      RightPrefix(a, r, k, s, m);
      assert a[k..][..m] == a[k..];
      ZeroDiv(Pow2(s));
      forall i | 0 <= i < |r[m..]| ensures r[m..][i] == 0 {}
      ValSplit(r, m);
      ValZeros(r[m..]);
      ValSplit(a, k);
      ValBound(a[..k]);
      Nonlinear.ModBelow(At(a, k), Pow2(s));
      RightTotal(Val(a[..k]), Weight(k), Pow2(s), Val(r), At(a, k) % Pow2(s), Val(a[k..]));
    }
  }

  lemma {:induction false} ZeroDiv(p: nat)
    requires p > 0
    ensures 0 / p == 0 && 0 % p == 0
  {
  }

  lemma {:induction false} RightTotal(low: nat, w: nat, p: nat, r: nat, rem: nat, high: nat)
    requires p > 0 && low < w && rem < p && p * r + rem == high
    ensures w * p > 0 && (low + w * high) / (w * p) == r
  {
    Nonlinear.MulDist(w, p * r, rem);
    assert w * (p * r) == r * (w * p);
    Nonlinear.MulMono(rem + 1, p, w);
    Nonlinear.MulNext(rem, w);
    assert low + w * high == r * (w * p) + (low + w * rem);
    assert w * rem == rem * w && p * w == w * p;
    Nonlinear.ModExact(low + w * high, r, w * p, low + w * rem);
  }
}
