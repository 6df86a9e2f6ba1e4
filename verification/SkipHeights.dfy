/** Where skip pointers jump to, and how many steps a walk along them takes. */
module SkipHeights {
  import opened Limbs

  /** Bitwise and of unsigned numbers. */
  function BitAnd(a: nat, b: nat): nat {
    if a == 0 || b == 0 then 0
    else (if a % 2 == 1 && b % 2 == 1 then 1 else 0) + 2 * BitAnd(a / 2, b / 2)
  }

  lemma {:induction false} AndAtMost(a: nat, b: nat)
    ensures BitAnd(a, b) <= b
  {
    if a != 0 && b != 0 { AndAtMost(a / 2, b / 2); }
  }

  /** Turns the lowest one bit into a zero: `n & (n - 1)`. */
  function InvertLowestOne(n: nat): (r: nat)
    ensures n > 0 ==> r < n
    ensures r <= n
  {
    if n == 0 then 0 else AndAtMost(n, n - 1); BitAnd(n, n - 1)
  }

  /** The height a block's skip pointer jumps back to: always strictly lower. */
  function GetSkipHeight(height: nat): (r: nat)
    ensures height > 0 ==> r < height
  {
    if height < 2 then 0
    else if height % 2 == 1 then InvertLowestOne(InvertLowestOne(height - 1)) + 1
    else InvertLowestOne(height)
  }

  // ---- the lowest one bit ----

  lemma {:induction false} AndSame(a: nat)
    ensures BitAnd(a, a) == a
  {
    if a != 0 { AndSame(a / 2); }
  }

  /** Of an odd number it is the last bit; of an even one it is that of its half. */
  lemma {:induction false} LowestOfHalf(x: nat)
    ensures InvertLowestOne(2 * x + 1) == 2 * x && InvertLowestOne(2 * x) == 2 * InvertLowestOne(x)
  {
    AndSame(x);
    if x > 0 {
      assert (2 * x - 1) / 2 == x - 1 && 2 * x / 2 == x && (2 * x + 1) / 2 == x;
    }
  }

  /** A multiple of 2^k. */
  predicate Aligned(x: nat, k: nat) { k == 0 || (x % 2 == 0 && Aligned(x / 2, k - 1)) }

  lemma {:induction false} AlignedLess(x: nat, k: nat, i: nat)
    requires Aligned(x, k) && i <= k && x > 0
    ensures x >= Pow2(k) >= Pow2(i) && Aligned(x, i) && Aligned(x - Pow2(i), i)
    decreases k
  {
    Pow2Mono(i, k);
    if k > 0 {
      if i > 0 {
        AlignedLess(x / 2, k - 1, i - 1);
        assert (x - Pow2(i)) / 2 == x / 2 - Pow2(i - 1);
      } else {
        AlignedLess(x / 2, k - 1, 0);
      }
    }
  }

  /** Below a multiple of 2^k, subtracting 2^i leaves ones in bits i to k - 1. */
  lemma {:induction false} LowestBelow(x: nat, k: nat, i: nat)
    requires Aligned(x, k) && i < k && x > 0
    ensures x >= Pow2(k) >= 2 * Pow2(i) && InvertLowestOne(x - Pow2(i)) == x - 2 * Pow2(i)
    decreases i
  {
    hide InvertLowestOne;
    AlignedLess(x, k, k);
    Pow2Mono(i + 1, k);
    var y := x / 2;
    LowestOfHalf(y - 1);
    if i > 0 {
      LowestBelow(y, k - 1, i - 1);
      LowestOfHalf(y - Pow2(i - 1));
      assert x - Pow2(i) == 2 * (y - Pow2(i - 1));
    }
  }

  /** Skips from the places below a multiple x of 2^k: x - 2^i clears one bit, x - 2^i + 1 two. */
  lemma {:induction false} SkipBelow(x: nat, k: nat, i: nat)
    requires Aligned(x, k) && 1 <= i < k && x > 0
    ensures x >= Pow2(k) >= 2 * Pow2(i) >= 4 && (i + 2 <= k ==> Pow2(k) >= 4 * Pow2(i))
    ensures GetSkipHeight(x - Pow2(i)) == x - 2 * Pow2(i)
    ensures i + 2 <= k ==> GetSkipHeight(x - Pow2(i) + 1) == x - 4 * Pow2(i) + 1
    ensures i + 1 == k ==> GetSkipHeight(x - Pow2(i) + 1) == InvertLowestOne(x - Pow2(k)) + 1
  {
    hide InvertLowestOne, Aligned;
    AlignedLess(x, k, i);
    AlignedEven(x - Pow2(i), i);
    LowestBelow(x, k, i);
    Pow2Mono(1, i);
    if i + 2 <= k {
      Pow2Mono(i + 2, k);
      LowestBelow(x, k, i + 1);
    }
  }

  lemma {:induction false} AlignedEven(x: nat, k: nat)
    requires Aligned(x, k) && k >= 1
    ensures x % 2 == 0
  {
  }

  // ---- walking ----

  /** Whether the walk from n down to t takes the skip pointer. */
  predicate Jumps(n: nat, t: nat)
    requires n > t
  {
    var skip, before := GetSkipHeight(n), GetSkipHeight(n - 1);
    skip == t || (skip > t && !(before < skip - 2 && before >= t))
  }

  function NextHeight(n: nat, t: nat): (m: nat)
    requires n > t
    ensures t <= m < n
  {
    if Jumps(n, t) then GetSkipHeight(n) else n - 1
  }

  /** The number of steps. */
  function Walk(n: nat, t: nat): nat
    requires n >= t
  {
    if n == t then 0 else 1 + Walk(NextHeight(n, t), t)
  }

  lemma {:induction false} OneStep(n: nat, t: nat)
    requires n > t
    ensures Walk(n, t) == 1 + Walk(NextHeight(n, t), t)
  {
  }

  lemma {:induction false} Back(n: nat, t: nat)
    requires n > t && GetSkipHeight(n) < t
    ensures Walk(n, t) == 1 + Walk(n - 1, t)
  {
  }

  lemma {:induction false} Jump(n: nat, t: nat)
    requires n > t && GetSkipHeight(n) >= t
    requires GetSkipHeight(n) == t || GetSkipHeight(n - 1) >= GetSkipHeight(n) - 2 || GetSkipHeight(n - 1) < t
    ensures Walk(n, t) == 1 + Walk(GetSkipHeight(n), t)
  {
  }

  /** The steps from x - 1 to a height in the block of 2^k heights below x, its first two excepted. */
  function Within(k: nat): nat { if k <= 1 then 0 else if k == 2 then 1 else Within(k - 1) + (k + 3) / 2 }

  /** The same for every height of the block. */
  function WithinAll(k: nat): nat { if Within(k) < k then k else Within(k) }

  lemma {:induction false} WithinGrows(j: nat, k: nat)
    requires 1 <= j <= k
    ensures Within(j) <= Within(k) && Within(k) >= k - 1
    ensures j < k && k >= 3 ==> Within(k) >= Within(j) + (j + 4) / 2
    decreases k
  {
    if k > 1 { WithinGrows(if j < k then j else k - 1, k - 1); }
  }

  /** From one above the first height h of a block to h itself. */
  lemma {:induction false} LastStep(h: nat)
    requires h % 2 == 0
    ensures Walk(h + 1, h) == 1
  {
    hide InvertLowestOne;
    if h > 0 {
      LowestOfHalf(h / 2);
    }
    assert Walk(h, h) == 0;
  }

  // ---- inside the block of 2^k heights below a multiple of 2^k ----

  /** From x - 2^i + 1 to one of the first two heights of the block. */
  lemma {:induction false} ToFirst(x: nat, k: nat, i: nat, t: nat)
    requires Aligned(x, k) && x > 0 && 1 <= i <= k && i % 2 == 1
    requires x >= Pow2(k) >= Pow2(i) && x - Pow2(k) <= t <= x - Pow2(k) + 1
    ensures Walk(x - Pow2(i) + 1, t)
            <= if k % 2 == 1 then (k - i) / 2 + (x - Pow2(k) + 1 - t) else (k - 1 - i) / 2 + 2 + (k - 2) / 2
    decreases k, k - i
  {
    hide Aligned, InvertLowestOne, GetSkipHeight, Walk, Pow2;
    var h, n := x - Pow2(k), x - Pow2(i) + 1;
    AlignedLess(x, k, k);
    AlignedEven(h, k);
    if i == k {
      if t == h { LastStep(h); } else { NoStep(t); }
    } else if i == k - 1 {
      SkipBelow(x, k, i);
      AlignedLess(x, k, i);
      AcrossFirst(x, k, t);
    } else {
      SkipBelow(x, k, i);
      Pow2Mono(i + 2, k);
      Fourfold(i);
      Jump(n, t);
      ToFirst(x, k, i + 2, t);
    }
  }

  lemma {:induction false} Fourfold(i: nat)
    ensures Pow2(i + 2) == 4 * Pow2(i)
  {
    assert Pow2(i + 2) == 2 * Pow2(i + 1);
  }

  lemma {:induction false} NoStep(t: nat)
    ensures Walk(t, t) == 0
  {
  }

  /** The middle of a block of even k. */
  lemma {:induction false} AcrossFirst(x: nat, k: nat, t: nat)
    requires Aligned(x, k) && x > 0 && k >= 2 && k % 2 == 0
    requires x >= Pow2(k) && x - Pow2(k) <= t <= x - Pow2(k) + 1
    ensures Walk(x - Pow2(k - 1) + 1, t) <= 2 + (k - 2) / 2
    decreases k, 0
  {
    hide Aligned, InvertLowestOne, GetSkipHeight, Walk;
    var h, e := x - Pow2(k), x - Pow2(k - 1);
    SkipBelow(x, k, k - 1);
    AlignedLess(x, k, k);
    AlignedEven(h, k);
    NoStep(t);
    if h == 0 {
      LowestOfHalf(0);
      Jump(e + 1, t);
      LastStep(0);
    } else {
      LowestDrops(h);
      Back(e + 1, t);
      if t == h {
        Jump(e, t);
      } else {
        Back(e, t);
        AlignedLess(x, k, k - 1);
        ToFirst(e, k - 1, 1, t);
      }
    }
  }

  lemma {:induction false} LowestDrops(h: nat)
    requires h > 0 && h % 2 == 0
    ensures InvertLowestOne(h) + 2 <= h
  {
    hide InvertLowestOne;
    LowestOfHalf(h / 2);
  }

  /** From x - 2^i + 1 to any other height of the block. */
  lemma {:induction false} ToOther(x: nat, k: nat, i: nat, t: nat)
    requires Aligned(x, k) && x > 0 && 1 <= i <= k && i % 2 == 1
    requires x >= Pow2(k) >= Pow2(i) && x - Pow2(k) + 2 <= t <= x - Pow2(i) + 1
    ensures Walk(x - Pow2(i) + 1, t) + (i - 1) / 2 <= Within(k)
    decreases k, k - i, 0
  {
    hide Aligned, InvertLowestOne, GetSkipHeight, Walk, Within;
    var h, n := x - Pow2(k), x - Pow2(i) + 1;
    AlignedLess(x, k, k);
    AlignedEven(h, k);
    WithinGrows(i, k);
    if t == n {
      NoStep(t);
    } else if i == k - 1 {
      SkipBelow(x, k, i);
      AcrossOther(x, k, t);
    } else {
      SkipBelow(x, k, i);
      Pow2Mono(i + 2, k);
      if t <= x - Pow2(i + 2) + 1 {
        Jump(n, t);
        ToOther(x, k, i + 2, t);
      } else {
        Back(n, t);
        FromEven(x, k, i, t);
        WithinGrows(i + 1, k);
      }
    }
  }

  lemma {:induction false} AcrossOther(x: nat, k: nat, t: nat)
    requires Aligned(x, k) && x > 0 && k >= 2 && k % 2 == 0
    requires x >= Pow2(k) && x - Pow2(k) + 2 <= t <= x - Pow2(k - 1)
    ensures Walk(x - Pow2(k - 1) + 1, t) + (k - 2) / 2 <= Within(k)
    decreases k, 0, 0
  {
    hide Aligned, InvertLowestOne, GetSkipHeight, Walk;
    var h, e := x - Pow2(k), x - Pow2(k - 1);
    SkipBelow(x, k, k - 1);
    AlignedLess(x, k, k);
    AlignedEven(h, k);
    LowestOfHalf(0);
    if h > 0 { LowestDrops(h); }
    Back(e + 1, t);
    WithinGrows(k - 1, k);
    if t == e {
      NoStep(t);
    } else {
      Back(e, t);
      AlignedLess(x, k, k - 1);
      ToOther(e, k - 1, 1, t);
    }
  }

  /** From x - 2^i to a height above x - 2^(i + 2) + 1. */
  lemma {:induction false} FromEven(x: nat, k: nat, i: nat, t: nat)
    requires Aligned(x, k) && x > 0 && 1 <= i && i + 2 <= k && i % 2 == 1
    requires x >= Pow2(k) >= Pow2(i + 2) && x - Pow2(i + 2) + 1 < t <= x - Pow2(i)
    ensures Walk(x - Pow2(i), t) <= 2 + Within(i + 1)
    decreases k, 0, 0
  {
    hide Aligned, InvertLowestOne, GetSkipHeight, Walk, Within;
    var e, f := x - Pow2(i), x - Pow2(i + 1);
    SkipBelow(x, k, i);
    SkipBelow(x, k, i + 1);
    AlignedLess(x, k, i);
    AlignedLess(x, k, i + 1);
    WithinGrows(i, i + 1);
    if t == e {
      NoStep(t);
    } else if t == f {
      Jump(e, t);
      NoStep(t);
    } else if t > f {
      Back(e, t);
      InBlock(e, i, t);
      AllSmall(i);
    } else {
      BeforeEven(x, k, i, t);
      Jump(e, t);
      Back(f, t);
      ToOther(f, i + 1, 1, t);
    }
  }

  lemma {:induction false} AllSmall(i: nat)
    requires 1 <= i
    ensures WithinAll(i) <= 1 + Within(i + 1)
  {
    WithinGrows(i, i + 1);
  }

  /** The pointer one below x - 2^i is no better than its own. */
  lemma {:induction false} BeforeEven(x: nat, k: nat, i: nat, t: nat)
    requires Aligned(x, k) && x > 0 && 1 <= i && i + 2 <= k && i % 2 == 1
    requires x >= Pow2(k) >= Pow2(i + 2) > Pow2(i) && x - Pow2(i + 2) + 1 < t
    ensures GetSkipHeight(x - Pow2(i) - 1) >= x - Pow2(i + 1) - 2 || GetSkipHeight(x - Pow2(i) - 1) < t
  {
    hide Aligned, InvertLowestOne, GetSkipHeight;
    if i == 1 {
      SkipBelow(x, k, 2);
      AlignedLess(x, k, k);
      AlignedEven(x - Pow2(k), k);
      LowestOfHalf(0);
      if k == 3 && x > Pow2(k) { LowestDrops(x - Pow2(k)); }
    } else {
      AlignedLess(x, k, i);
      Pow2Mono(3, i);
      SkipBelow(x - Pow2(i), i, 1);
    }
  }

  /** From x - 1 to any height of the block below x. */
  lemma {:induction false} InBlock(x: nat, k: nat, t: nat)
    requires Aligned(x, k) && x > 0 && 1 <= k && x >= Pow2(k) && x - Pow2(k) <= t < x
    ensures Walk(x - 1, t) <= WithinAll(k)
    decreases k, k, 1
  {
    hide Aligned, Walk;
    Pow2Mono(1, k);
    if t <= x - Pow2(k) + 1 {
      ToFirst(x, k, 1, t);
    } else {
      ToOther(x, k, 1, t);
    }
  }

  // ---- down to the block that holds the target ----

  /** The number of one bits. */
  function Ones(m: nat): nat { if m == 0 then 0 else m % 2 + Ones(m / 2) }

  lemma {:induction false} OnesDrop(m: nat)
    requires m > 0
    ensures Ones(InvertLowestOne(m)) == Ones(m) - 1
  {
    hide InvertLowestOne;
    var z := m / 2;
    LowestOfHalf(z);
    if m % 2 == 0 {
      OnesDrop(z);
      OnesDouble(InvertLowestOne(z));
    } else {
      OnesDouble(z);
    }
  }

  lemma {:induction false} OnesDouble(z: nat)
    ensures Ones(2 * z) == Ones(z)
  {
    assert 2 * z / 2 == z && 2 * z % 2 == 0;
  }

  lemma {:induction false} Halves(x: nat)
    ensures 2 * x % 2 == 0 && 2 * x / 2 == x && (2 * x + 1) % 2 == 1 && (2 * x + 1) / 2 == x
  {
  }

  lemma {:induction false} AlignedForms(q: nat)
    ensures Aligned(2 * q, 1) && !Aligned(2 * q + 1, 1) && Aligned(4 * q, 2) && Aligned(8 * q, 3)
    ensures Aligned(4 * q + 2, 1) && !Aligned(4 * q + 2, 2) && !Aligned(4 * q + 2, 3)
    ensures Aligned(8 * q + 4, 1) && Aligned(8 * q + 4, 2) && !Aligned(8 * q + 4, 3)
  {
    Halves(q);
    Halves(2 * q);
    Halves(4 * q);
    Halves(2 * q + 1);
    Halves(4 * q + 2);
    assert Aligned(2 * q, 1) && !Aligned(2 * q + 1, 1) && !Aligned(2 * q + 1, 2);
    assert Aligned(4 * q, 2) && Aligned(4 * q + 2, 1) && !Aligned(4 * q + 2, 2);
  }

  /** Bits i and up: at most e - i ones. */
  lemma {:induction false} OnesAtMost(m: nat, e: nat, i: nat)
    requires m < Pow2(e) && Aligned(m, i) && i <= e
    ensures Ones(m) <= e - i
    decreases e
  {
    if m > 0 {
      if i > 0 { OnesAtMost(m / 2, e - 1, i - 1); } else { OnesAtMost(m / 2, e - 1, 0); }
    }
  }

  /** The lowest one of x + m, for a multiple x of 2^e, is that of m. */
  lemma {:induction false} LowestOfSum(x: nat, e: nat, m: nat)
    requires Aligned(x, e) && 0 < m < Pow2(e)
    ensures InvertLowestOne(x + m) == x + InvertLowestOne(m)
    decreases e
  {
    hide InvertLowestOne;
    var y, z := x / 2, m / 2;
    LowestOfHalf(y + z);
    LowestOfHalf(z);
    if m % 2 == 0 { LowestOfSum(y, e - 1, z); }
  }

  /** The lowest one of h + 2^e, for a multiple h of 2^(e + 1), is 2^e. */
  lemma {:induction false} LowestOfTop(h: nat, e: nat)
    requires Aligned(h, e + 1)
    ensures InvertLowestOne(h + Pow2(e)) == h
    decreases e
  {
    hide InvertLowestOne;
    LowestOfHalf(h / 2);
    if e > 0 {
      LowestOfTop(h / 2, e - 1);
      LowestOfHalf(h / 2 + Pow2(e - 1));
    }
  }

  /** Steps from h + 2^e + m down to h + 2^e, if c bits of m - 1 are set and m is odd. */
  function OddDown(c: nat): nat { (c + 1) / 2 + 1 }

  function Down(m: nat): nat {
    if m == 0 then 0
    else if !Aligned(m, 1) then OddDown(Ones(m - 1))
    else if Aligned(m, 3) then Ones(m)
    else if Aligned(m, 2) then (if Ones(m) == 1 then 1 else 1 + OddDown(Ones(m)))
    else if Ones(m) <= 2 then Ones(m)
    else 1 + OddDown(Ones(m) - 1)
  }

  lemma {:induction false} AlignedOne(m: nat)
    ensures Aligned(m, 1) <==> m % 2 == 0
  {
  }

  lemma {:induction false} DownBound(m: nat, e: nat)
    requires m < Pow2(e)
    ensures Down(m) <= if e >= 3 && e - 3 > (e + 1) / 2 + 1 then e - 3 else (e + 1) / 2 + 1
  {
    hide Aligned, Ones, Pow2;
    if m == 0 {
    } else if !Aligned(m, 1) {
      AlignedOne(m);
      AlignedOne(m - 1);
      if e == 0 { Pow2Zero(); } else { OnesAtMost(m - 1, e, 1); }
    } else if Aligned(m, 3) {
      LargeAligned(m, e, 3);
      OnesAtMost(m, e, 3);
    } else if Aligned(m, 2) {
      LargeAligned(m, e, 2);
      OnesAtMost(m, e, 2);
    } else {
      LargeAligned(m, e, 1);
      OnesAtMost(m, e, 1);
    }
  }

  lemma {:induction false} LargeAligned(m: nat, e: nat, i: nat)
    requires 0 < m < Pow2(e) && Aligned(m, i)
    ensures i < e
  {
    AlignedLess(m, i, i);
    if e <= i { Pow2Mono(e, i); }
  }

  lemma {:induction false} OnesZero(m: nat)
    ensures Ones(m) == 0 <==> m == 0
  {
    if m > 0 { OnesZero(m / 2); }
  }

  lemma {:induction false} TopAligned(h: nat, e: nat)
    requires Aligned(h, e + 1)
    ensures Aligned(h + Pow2(e), e) && h % 2 == 0
    decreases e
  {
    if e > 0 {
      TopAligned(h / 2, e - 1);
      assert (h + Pow2(e)) / 2 == h / 2 + Pow2(e - 1);
    }
  }

  /** Skips from above h + 2^e: the ones of m go first, then the bit 2^e. */
  lemma {:induction false} SkipAbove(h: nat, e: nat, m: nat)
    requires Aligned(h, e + 1) && e >= 1 && 0 < m < Pow2(e)
    ensures var x, c, skip := h + Pow2(e), Ones(m - 1), GetSkipHeight(h + Pow2(e) + m);
            if m % 2 == 0 then skip == x + InvertLowestOne(m)
            else if c >= 2 then skip == x + InvertLowestOne(InvertLowestOne(m - 1)) + 1
            else if c == 1 then skip == h + 1
            else skip == InvertLowestOne(h) + 1
  {
    hide InvertLowestOne, Aligned, Ones;
    var x := h + Pow2(e);
    TopAligned(h, e);
    AlignedEven(x, e);
    LowestOfTop(h, e);
    OnesZero(m - 1);
    if m % 2 == 0 {
      LowestOfSum(x, e, m);
    } else if m > 1 {
      LowestOfSum(x, e, m - 1);
      OnesDrop(m - 1);
      OnesZero(InvertLowestOne(m - 1));
      if InvertLowestOne(m - 1) > 0 { LowestOfSum(x, e, InvertLowestOne(m - 1)); }
    }
  }

  /** One of the first two heights of the block is reached soon. */
  lemma {:induction false} FromFirst(h: nat, t: nat)
    requires h % 2 == 0 && h <= t <= h + 1
    ensures Walk(h + 1, t) <= 1
  {
    hide Walk;
    LastStep(h);
    NoStep(h + 1);
  }

  lemma {:induction false} OddAbove(h: nat, e: nat, m: nat, t: nat, rest: nat)
    requires Aligned(h, e + 1) && e >= 1 && m < Pow2(e) && h <= t < h + Pow2(e) && m % 2 == 1
    requires Walk(h + Pow2(e), t) <= rest && rest >= 2
    ensures Walk(h + Pow2(e) + m, t) <= Down(m) + rest
    decreases m
  {
    hide InvertLowestOne, Aligned, GetSkipHeight, Walk, Ones;
    AlignedOne(m);
    var x, c := h + Pow2(e), Ones(m - 1);
    var n := x + m;
    TopAligned(h, e);
    SkipAbove(h, e, m);
    OnesZero(m - 1);
    if c >= 2 {
      var z := InvertLowestOne(InvertLowestOne(m - 1));
      OnesDrop(m - 1);
      OnesZero(InvertLowestOne(m - 1));
      OnesDrop(InvertLowestOne(m - 1));
      LowestTwice(m - 1);
      SkipAbove(h, e, m - 1);
      Jump(n, t);
      AlignedOne(z + 1);
      OddAbove(h, e, z + 1, t, rest);
    } else if c == 1 {
      SkipAbove(h, e, m - 1);
      OnesDrop(m - 1);
      OnesZero(InvertLowestOne(m - 1));
      if t <= h + 1 {
        Jump(n, t);
        FromFirst(h, t);
      } else {
        Back(n, t);
        OneAbove(h, e, m - 1, t);
      }
    } else {
      LowestAtMost(h);
      LowestOfTop(h, e);
      if InvertLowestOne(h) + 1 >= t {
        SkipOfTop(h, e);
        Jump(n, t);
        FromFirst(h, t);
      } else {
        Back(n, t);
      }
    }
  }

  /** Clearing two ones of an even number. */
  lemma {:induction false} LowestTwice(m: nat)
    requires m > 0 && m % 2 == 0 && InvertLowestOne(m) > 0
    ensures InvertLowestOne(m) % 2 == 0 && InvertLowestOne(InvertLowestOne(m)) % 2 == 0
    ensures InvertLowestOne(m) + 2 <= m && InvertLowestOne(InvertLowestOne(m)) + 2 <= InvertLowestOne(m)
  {
    var z := InvertLowestOne(m);
    var w := InvertLowestOne(z);
    assert w < z < m;
    hide InvertLowestOne;
    LowestOfHalf(m / 2);
    LowestOfHalf(z / 2);
  }

  /** h is 0, or two ones further down than h - 1. */
  lemma {:induction false} LowestAtMost(h: nat)
    requires h % 2 == 0
    ensures h == 0 ==> InvertLowestOne(h) == 0
    ensures h > 0 ==> InvertLowestOne(h) + 2 <= h
  {
    if h > 0 { LowestDrops(h); }
  }

  lemma {:induction false} SkipOfTop(h: nat, e: nat)
    requires Aligned(h, e + 1) && e >= 1
    ensures GetSkipHeight(h + Pow2(e)) == h
  {
    hide InvertLowestOne, Aligned;
    LowestOfTop(h, e);
    TopAligned(h, e);
    AlignedEven(h + Pow2(e), e);
  }

  /** A single bit above h + 2^e goes in one step, if the target is not among the first two heights. */
  lemma {:induction false} OneAbove(h: nat, e: nat, m: nat, t: nat)
    requires Aligned(h, e + 1) && e >= 1 && 0 < m < Pow2(e) && h + 1 < t < h + Pow2(e)
    requires m % 2 == 0 && InvertLowestOne(m) == 0
    ensures Walk(h + Pow2(e) + m, t) == 1 + Walk(h + Pow2(e), t)
  {
    hide InvertLowestOne, Aligned, GetSkipHeight, Walk, Ones;
    TopAligned(h, e);
    SkipAbove(h, e, m);
    SkipAbove(h, e, m - 1);
    LowestAtMost(h);
    Jump(h + Pow2(e) + m, t);
  }

  lemma {:induction false} Stay(n: nat, t: nat)
    requires n > t && GetSkipHeight(n) > t && t <= GetSkipHeight(n - 1) < GetSkipHeight(n) - 2
    ensures Walk(n, t) == 1 + Walk(n - 1, t)
  {
  }

  /** From an odd place that skips to h + 1 or to one of the first two heights. */
  lemma {:induction false} OddToFirst(h: nat, e: nat, m: nat, t: nat)
    requires Aligned(h, e + 1) && e >= 1 && m < Pow2(e) && m % 2 == 1 && Ones(m - 1) <= 1
    requires h <= t <= GetSkipHeight(h + Pow2(e) + m) <= h + 1
    ensures Walk(h + Pow2(e) + m, t) <= 2
  {
    hide InvertLowestOne, Aligned, GetSkipHeight, Walk, Ones;
    TopAligned(h, e);
    Pow2Mono(1, e);
    if m > 1 { SkipAbove(h, e, m - 1); } else { SkipOfTop(h, e); }
    Jump(h + Pow2(e) + m, t);
    FromFirst(h, t);
    NoStep(h);
  }

  lemma {:induction false} LowestIsTwo(q: nat)
    ensures InvertLowestOne(4 * q + 2) == 4 * q
  {
    hide InvertLowestOne;
    LowestOfHalf(2 * q + 1);
    LowestOfHalf(q);
  }

  lemma {:induction false} LowestIsFour(q: nat)
    ensures InvertLowestOne(8 * q + 4) == 8 * q
  {
    hide InvertLowestOne;
    LowestOfHalf(4 * q + 2);
    LowestIsTwo(q);
  }

  lemma {:induction false} LowestScaled(q: nat)
    ensures InvertLowestOne(4 * q) == 4 * InvertLowestOne(q) && InvertLowestOne(8 * q) == 8 * InvertLowestOne(q)
  {
    hide InvertLowestOne;
    LowestOfHalf(q);
    LowestOfHalf(2 * q);
    LowestOfHalf(4 * q);
  }

  /** Below a multiple of eight there are two ones to skip over. */
  lemma {:induction false} EightFacts(q: nat)
    requires q > 0
    ensures InvertLowestOne(8 * q) == 8 * InvertLowestOne(q) && InvertLowestOne(8 * q) + 8 <= 8 * q
    ensures Ones(InvertLowestOne(8 * q)) == Ones(8 * q) - 1
    ensures Ones(8 * q - 2) >= 2 && InvertLowestOne(InvertLowestOne(8 * q - 2)) == 8 * q - 8
  {
    var w := InvertLowestOne(q);
    assert w < q;
    hide InvertLowestOne, Ones;
    LowestScaled(q);
    OnesDrop(8 * q);
    LowestIsTwo(2 * q - 1);
    LowestIsFour(q - 1);
    OnesDrop(8 * q - 2);
    OnesDrop(8 * q - 4);
  }

  lemma {:induction false} FourFacts(q: nat)
    ensures InvertLowestOne(8 * q + 4) == 8 * q && Ones(8 * q + 4) == Ones(8 * q) + 1 == Ones(8 * q + 2)
    ensures InvertLowestOne(8 * q + 2) == 8 * q && (Ones(8 * q) == 0 <==> q == 0)
    ensures q > 0 ==> InvertLowestOne(8 * q) + 8 <= 8 * q
  {
    hide InvertLowestOne, Ones;
    LowestIsFour(q);
    LowestIsTwo(2 * q);
    OnesDrop(8 * q + 4);
    OnesDrop(8 * q + 2);
    OnesZero(8 * q);
    if q > 0 { EightFacts(q); }
  }

  lemma {:induction false} TwoFacts(q: nat)
    ensures InvertLowestOne(4 * q + 2) == 4 * q && Ones(4 * q + 2) == Ones(4 * q) + 1
    ensures Ones(4 * q) == 0 <==> q == 0
    ensures Ones(4 * q) == 1 ==> InvertLowestOne(4 * q) == 0
    ensures Ones(4 * q) >= 2 ==> InvertLowestOne(InvertLowestOne(4 * q)) + 8 <= 4 * q
  {
    var w := InvertLowestOne(q);
    var v := InvertLowestOne(w);
    assert w <= q && v <= w && (q > 0 ==> w < q) && (w > 0 ==> v < w);
    hide InvertLowestOne, Ones;
    LowestIsTwo(q);
    OnesDrop(4 * q + 2);
    OnesZero(4 * q);
    LowestScaled(q);
    LowestScaled(w);
    if q > 0 {
      OnesDrop(4 * q);
      OnesZero(4 * w);
    }
  }

  /** A multiple of eight: each one bit takes one step. */
  lemma {:induction false} EightsAbove(h: nat, e: nat, q: nat, t: nat, rest: nat)
    requires Aligned(h, e + 1) && e >= 1 && 8 * q < Pow2(e) && h <= t < h + Pow2(e)
    requires Walk(h + Pow2(e), t) <= rest && rest >= 2
    ensures Walk(h + Pow2(e) + 8 * q, t) <= Ones(8 * q) + rest
    decreases q
  {
    var w := InvertLowestOne(q);
    hide InvertLowestOne, Aligned, GetSkipHeight, Walk, Ones, Pow2;
    if q > 0 {
      Halves(4 * q);
      Halves(4 * q - 1);
      SkipAbove(h, e, 8 * q);
      SkipAbove(h, e, 8 * q - 1);
      EightFacts(q);
      Jump(h + Pow2(e) + 8 * q, t);
      EightsAbove(h, e, w, t, rest);
    }
  }

  lemma {:induction false} Pow2Small()
    ensures Pow2(1) == 2 && Pow2(2) == 4 && Pow2(3) == 8
  {
  }

  lemma {:induction false} Exponent(m: nat, e: nat, i: nat)
    requires Pow2(i) <= m < Pow2(e)
    ensures i < e && Pow2(i + 1) <= Pow2(e)
  {
    if e <= i { Pow2Mono(e, i); }
    Pow2Mono(i + 1, e);
  }

  lemma {:induction false} DownForms(q: nat)
    ensures Down(8 * q) == Ones(8 * q)
    ensures Down(8 * q + 4) == if Ones(8 * q + 4) == 1 then 1 else 1 + OddDown(Ones(8 * q + 4))
    ensures Down(8 * q + 3) == OddDown(Ones(8 * q + 2)) && Down(4 * q + 1) == OddDown(Ones(4 * q))
    ensures Down(4 * q + 2) == if Ones(4 * q + 2) <= 2 then Ones(4 * q + 2) else 1 + OddDown(Ones(4 * q + 2) - 1)
  {
    AlignedForms(q);
    AlignedForms(4 * q + 1);
    AlignedForms(4 * q);
    AlignedForms(2 * q);
    OnesZero(0);
    hide Ones, Aligned;
  }

  /** Bit two is the lowest. */
  lemma {:induction false} FourAbove(h: nat, e: nat, q: nat, t: nat, rest: nat)
    requires Aligned(h, e + 1) && e >= 1 && 8 * q + 4 < Pow2(e) && h <= t < h + Pow2(e)
    requires Walk(h + Pow2(e), t) <= rest && rest >= 2
    ensures Walk(h + Pow2(e) + (8 * q + 4), t) <= Down(8 * q + 4) + rest
  {
    hide InvertLowestOne, Aligned, GetSkipHeight, Walk, Ones, Pow2, Down;
    var m := 8 * q + 4;
    var n := h + Pow2(e) + m;
    DownForms(q);
    FourFacts(q);
    Halves(4 * q + 2);
    Halves(4 * q + 1);
    SkipAbove(h, e, m);
    SkipAbove(h, e, m - 1);
    if q > 0 {
      Stay(n, t);
      OddAbove(h, e, m - 1, t, rest);
    } else if t <= h + 1 {
      Pow2Small();
      Exponent(m, e, 2);
      Stay(n, t);
      OddToFirst(h, e, m - 1, t);
    } else {
      OneAbove(h, e, m, t);
    }
  }

  /** Bit one is the lowest. */
  lemma {:induction false} TwoAbove(h: nat, e: nat, q: nat, t: nat, rest: nat)
    requires Aligned(h, e + 1) && e >= 1 && 4 * q + 2 < Pow2(e) && h <= t < h + Pow2(e)
    requires Walk(h + Pow2(e), t) <= rest && rest >= 2
    ensures Walk(h + Pow2(e) + (4 * q + 2), t) <= Down(4 * q + 2) + rest
  {
    hide InvertLowestOne, Aligned, GetSkipHeight, Walk, Ones, Pow2, Down;
    var m := 4 * q + 2;
    var n := h + Pow2(e) + m;
    DownForms(q);
    TwoFacts(q);
    Halves(2 * q + 1);
    Halves(2 * q);
    SkipAbove(h, e, m);
    SkipAbove(h, e, m - 1);
    TopAligned(h, e);
    LowestAtMost(h);
    if Ones(m) >= 3 {
      Stay(n, t);
      OddAbove(h, e, m - 1, t, rest);
    } else if t <= GetSkipHeight(n - 1) {
      Pow2Small();
      Exponent(m, e, 1);
      if q > 0 { Exponent(m, e, 2); }
      Stay(n, t);
      OddToFirst(h, e, m - 1, t);
    } else {
      Jump(n, t);
      if q > 0 { OneAbove(h, e, m - 2, t); }
    }
  }

  /** From anywhere above h + 2^e within the next 2^e heights. */
  lemma {:induction false} FromAbove(h: nat, e: nat, m: nat, t: nat, rest: nat)
    requires Aligned(h, e + 1) && e >= 1 && m < Pow2(e) && h <= t < h + Pow2(e)
    requires Walk(h + Pow2(e), t) <= rest && rest >= 2
    ensures Walk(h + Pow2(e) + m, t) <= Down(m) + rest
  {
    hide Aligned, Walk, Ones, Pow2, Down;
    var y := m / 2;
    var z := y / 2;
    if m % 2 == 1 {
      OddAbove(h, e, m, t, rest);
    } else if y % 2 == 1 {
      TwoAbove(h, e, z, t, rest);
    } else if z % 2 == 1 {
      FourAbove(h, e, z / 2, t, rest);
    } else {
      EightsAbove(h, e, z / 2, t, rest);
      DownForms(z / 2);
    }
  }

  // ---- any walk ----

  /** The highest bit in which t differs from n: above it they agree, and there t has a zero. */
  lemma {:induction false} Differ(n: nat, t: nat) returns (h: nat, e: nat)
    requires t < n
    ensures Aligned(h, e + 1) && h <= t < h + Pow2(e) <= n < h + 2 * Pow2(e)
  {
    if n / 2 == t / 2 {
      h, e := t, 0;
    } else {
      var y, f := Differ(n / 2, t / 2);
      h, e := 2 * y, f + 1;
    }
  }

  /** The most steps from a height below 2^k. */
  function Reach(k: nat): nat {
    if k <= 1 then k
    else WithinAll(k - 1) + 1 + if k >= 4 && k - 4 > k / 2 + 1 then k - 4 else k / 2 + 1
  }

  lemma {:induction false} ReachGrows(j: nat, k: nat)
    requires 1 <= j <= k
    ensures Reach(j) <= Reach(k)
    decreases k
  {
    if j < k {
      ReachGrows(j, k - 1);
      if k > 2 { WithinGrows(k - 2, k - 1); }
    }
  }

  /** A walk from a height below 2^k takes at most Reach(k) steps, about k^2 / 4 of them. */
  lemma {:induction false} WalkIsShort(n: nat, t: nat, k: nat)
    requires t <= n < Pow2(k)
    ensures Walk(n, t) <= Reach(k)
  {
    hide Aligned, Reach, GetSkipHeight;
    if t < n {
      var h, e := Differ(n, t);
      Exponent(n, k, e);
      ReachGrows(e + 1, k);
      DifferAt(n, t, h, e);
    }
  }

  lemma {:induction false} DifferAt(n: nat, t: nat, h: nat, e: nat)
    requires Aligned(h, e + 1) && h <= t < h + Pow2(e) <= n < h + 2 * Pow2(e)
    ensures Walk(n, t) <= Reach(e + 1)
  {
    hide Aligned, GetSkipHeight, Walk, Within;
    TopAligned(h, e);
    var x := h + Pow2(e);
    if e == 0 {
      LastStep(h);
    } else {
      SkipOfTop(h, e);
      if t == h {
        Jump(x, t);
        NoStep(t);
      } else {
        Back(x, t);
        InBlock(x, e, t);
      }
      DownBound(n - x, e);
      FromAbove(h, e, n - x, t, 1 + WithinAll(e));
    }
  }

  /** At most 110 steps back from any of the first 2^18 blocks. */
  lemma {:induction false} AtMost110(n: nat, t: nat)
    requires t <= n < 0x4_0000
    ensures Walk(n, t) <= 110
  {
    hide Walk;
    Pow2Base();
    Pow2Add(16, 2);
    assert Within(17) == 95;
    assert Reach(18) == 110;
    WalkIsShort(n, t, 18);
  }
}
