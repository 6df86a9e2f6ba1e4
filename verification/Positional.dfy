/** Positional notation in any base, most significant digit first. */
module Positional {
  import Nonlinear

  function Pow(b: nat, n: nat): nat {
    if n == 0 then 1 else Pow(b, n - 1) * b
  }

  /** The number that a digit sequence denotes. */
  function Num(b: nat, s: seq<nat>): nat {
    if s == [] then 0 else Num(b, s[..|s| - 1]) * b + s[|s| - 1]
  }

  predicate IsDigits(b: nat, s: seq<nat>) {
    forall i | 0 <= i < |s| :: s[i] < b
  }

  predicate Canonical(b: nat, s: seq<nat>) {
    IsDigits(b, s) && (s != [] ==> s[0] != 0)
  }

  lemma {:induction false} PowAdd(b: nat, m: nat, n: nat)
    ensures Pow(b, m + n) == Pow(b, m) * Pow(b, n)
  {
    if n == 0 {
    } else {
      PowAdd(b, m, n - 1);
      Nonlinear.MulAssoc(Pow(b, m), Pow(b, n - 1), b);
    }
  }

  lemma {:induction false} PowMono(b: nat, m: nat, n: nat)
    requires b > 0 && m <= n
    ensures Pow(b, m) <= Pow(b, n)
  {
    if m < n {
      PowMono(b, m, n - 1);
      Nonlinear.MulAtLeast(Pow(b, n - 1), b);
    }
  }

  lemma {:induction false} MulBoth(a: nat, b: nat, c: nat, d: nat)
    requires a <= b && c <= d
    ensures a * c <= b * d
  {
    Nonlinear.MulMono(a, b, c);
    Nonlinear.MulMono(c, d, b);
  }

  /** A comparison of two powers carries over to their powers. */
  lemma {:induction false} PowScale(a: nat, m: nat, b: nat, n: nat, k: nat)
    requires Pow(a, m) <= Pow(b, n)
    ensures 0 <= k * m && 0 <= k * n && Pow(a, k * m) <= Pow(b, k * n)
  {
    if k > 0 {
      PowScale(a, m, b, n, k - 1);
      Nonlinear.MulNext(k - 1, m);
      Nonlinear.MulNext(k - 1, n);
      PowAdd(a, (k - 1) * m, m);
      PowAdd(b, (k - 1) * n, n);
      MulBoth(Pow(a, (k - 1) * m), Pow(b, (k - 1) * n), Pow(a, m), Pow(b, n));
    }
  }

  lemma {:induction false} NumAppend(b: nat, s: seq<nat>, d: nat)
    ensures Num(b, s + [d]) == Num(b, s) * b + d
  {
    assert (s + [d])[..|s|] == s;
  }

  lemma {:induction false} NumPrepend(b: nat, d: nat, s: seq<nat>)
    ensures Num(b, [d] + s) == d * Pow(b, |s|) + Num(b, s)
  {
    if s == [] {
      assert [d] + s == [] + [d];
      NumAppend(b, [], d);
    } else {
      var m, x := s[..|s| - 1], s[|s| - 1];
      assert [d] + s == ([d] + m) + [x];
      NumAppend(b, [d] + m, x);
      NumPrepend(b, d, m);
      Nonlinear.MulAdd(d * Pow(b, |m|), Num(b, m), b);
      Nonlinear.MulAssoc(d, Pow(b, |m|), b);
    }
  }

  lemma {:induction false} NumBelow(b: nat, s: seq<nat>)
    requires b > 0 && IsDigits(b, s)
    ensures Num(b, s) < Pow(b, |s|)
  {
    if s != [] {
      var m := s[..|s| - 1];
      NumBelow(b, m);
      Nonlinear.MulMono(Num(b, m) + 1, Pow(b, |m|), b);
      Nonlinear.MulNext(Num(b, m), b);
    }
  }

  lemma {:induction false} NumZeros(b: nat, s: seq<nat>)
    requires forall i | 0 <= i < |s| :: s[i] == 0
    ensures Num(b, s) == 0
  {
    if s != [] { NumZeros(b, s[..|s| - 1]); }
  }

  lemma {:induction false} NumSkipZeros(b: nat, s: seq<nat>, k: nat)
    requires k <= |s| && forall i | 0 <= i < k :: s[i] == 0
    ensures Num(b, s) == Num(b, s[k..])
    decreases |s|
  {
    if k == |s| {
      NumZeros(b, s);
    } else {
      NumSkipZeros(b, s[..|s| - 1], k);
      assert s[..|s| - 1][k..] == s[k..][..|s| - k - 1];
    }
  }

  lemma {:induction false} NumPositive(b: nat, s: seq<nat>)
    requires b > 0 && Canonical(b, s) && s != []
    ensures Num(b, s) > 0
  {
    if |s| > 1 {
      NumPositive(b, s[..|s| - 1]);
      Nonlinear.MulAtLeast(Num(b, s[..|s| - 1]), b);
    }
  }

  /** The digits of a number, without leading zeroes. */
  function Digits(b: nat, n: nat): seq<nat>
    requires b > 1
  {
    if n == 0 then [] else
    Shrinks(n, b);
    Digits(b, n / b) + [n % b]
  }

  lemma {:induction false} Shrinks(n: nat, b: nat)
    requires b > 1 && n > 0
    ensures 0 <= n / b < n
  {
    Nonlinear.DivMul(n, b);
    Nonlinear.DivNonneg(n, b);
    if n / b >= n {
      Nonlinear.MulMono(n, n / b, b);
      Nonlinear.MulMono(2, b, n);
    }
  }

  lemma {:induction false} DigitsDenote(b: nat, n: nat)
    requires b > 1
    ensures Canonical(b, Digits(b, n)) && Num(b, Digits(b, n)) == n
    decreases n
  {
    if n > 0 {
      Shrinks(n, b);
      DigitsDenote(b, n / b);
      NumAppend(b, Digits(b, n / b), n % b);
      Nonlinear.DivMul(n, b);
      if n / b == 0 { assert Digits(b, n) == [n % b]; }
    }
  }

  /** Canonical digits are the only canonical digits of the number they denote. */
  lemma {:induction false} DigitsUnique(b: nat, s: seq<nat>)
    requires b > 1 && Canonical(b, s)
    ensures Digits(b, Num(b, s)) == s
  {
    if s != [] {
      var m, x := s[..|s| - 1], s[|s| - 1];
      NumPositive(b, s);
      DigitsUnique(b, m);
      Nonlinear.ModExact(Num(b, s), Num(b, m), b, x);
      assert s == m + [x];
    }
  }

  // ---- converting between bases, leading zeroes kept one for one ----

  /** How many leading zeroes. */
  function Lead(s: seq<nat>): (k: nat)
    ensures k <= |s| && (forall i | 0 <= i < k :: s[i] == 0) && (k < |s| ==> s[k] != 0)
  {
    if s == [] || s[0] != 0 then 0 else 1 + Lead(s[1..])
  }

  function Zeros(k: nat): seq<nat> { seq(k, _ => 0) }

  function Convert(p: nat, q: nat, s: seq<nat>): seq<nat>
    requires q > 1
  {
    Zeros(Lead(s)) + Digits(q, Num(p, s[Lead(s)..]))
  }

  lemma {:induction false} LeadOf(k: nat, s: seq<nat>)
    requires s != [] ==> s[0] != 0
    ensures Lead(Zeros(k) + s) == k && (Zeros(k) + s)[k..] == s
  {
    var r := Zeros(k) + s;
    assert forall i | 0 <= i < k :: r[i] == 0;
    assert s != [] ==> r[k] == s[0];
    assert r[k..] == s;
  }

  /** Converting there and back restores every digit sequence, leading zeroes included. */
  lemma {:induction false} ConvertBack(p: nat, q: nat, s: seq<nat>)
    requires p > 1 && q > 1 && IsDigits(p, s)
    ensures IsDigits(q, Convert(p, q, s)) && Convert(q, p, Convert(p, q, s)) == s
  {
    hide Num, Digits, Lead;
    var k := Lead(s);
    var n := Num(p, s[k..]);
    DigitsDenote(q, n);
    LeadOf(k, Digits(q, n));
    DigitsUnique(p, s[k..]);
    assert s == Zeros(k) + s[k..];
  }

  lemma {:induction false} DigitsLength(b: nat, n: nat, size: nat)
    requires b > 1 && n < Pow(b, size)
    ensures |Digits(b, n)| <= size
  {
    DigitsDenote(b, n);
    var s := Digits(b, n);
    if |s| > size {
      PowMono(b, size, |s| - 1);
      NumPrepend(b, s[0], s[1..]);
      assert s == [s[0]] + s[1..];
      Nonlinear.MulMono(1, s[0], Pow(b, |s| - 1));
    }
  }

  /** More to the number, never fewer digits. */
  lemma {:induction false} DigitsGrow(b: nat, m: nat, n: nat)
    requires b > 1 && m <= n
    ensures |Digits(b, m)| <= |Digits(b, n)|
  {
    DigitsDenote(b, n);
    NumBelow(b, Digits(b, n));
    DigitsLength(b, m, |Digits(b, n)|);
  }

  // ---- multiply and add, in place ----

  /** The used tail of a buffer holds the canonical digits; everything before it is zero. */
  predicate Holds(base: nat, buf: seq<nat>, length: nat) {
    && length <= |buf|
    && (forall i | 0 <= i < |buf| - length :: buf[i] == 0)
    && Canonical(base, buf[|buf| - length..])
  }

  lemma {:induction false} HoldsValue(base: nat, buf: seq<nat>, length: nat)
    requires base > 1 && Holds(base, buf, length)
    ensures IsDigits(base, buf) && buf[|buf| - length..] == Digits(base, Num(base, buf))
  {
    NumSkipZeros(base, buf, |buf| - length);
    DigitsUnique(base, buf[|buf| - length..]);
    forall i | 0 <= i < |buf| ensures buf[i] < base {
      if i >= |buf| - length { assert buf[i] == buf[|buf| - length..][i - (|buf| - length)]; }
    }
  }

  lemma {:induction false} HoldsIntro(base: nat, buf: seq<nat>, length: nat)
    requires length <= |buf| && IsDigits(base, buf)
    requires forall i | 0 <= i < |buf| - length :: buf[i] == 0
    requires length > 0 ==> buf[|buf| - length] != 0
    ensures Holds(base, buf, length)
  {
  }

  /** One digit's worth of carrying. */
  lemma {:induction false} CarryAlgebra(h: nat, d: nat, factor: nat, base: nat, carry: nat, p: nat, low: nat)
    requires base > 0
    ensures var c := carry + factor * d;
            ((h * base + d) * factor + carry) * p + low == (h * factor + c / base) * (p * base) + (c % base * p + low)
  {
    var c := carry + factor * d;
    var q, r := c / base, c % base;
    Nonlinear.DivMul(c, base);
    Nonlinear.MulAdd(h * base, d, factor);
    assert h * base * factor == h * factor * base;
    Nonlinear.MulAdd(h * factor, q, base);
    assert (h * base + d) * factor + carry == (h * factor + q) * base + r;
    Nonlinear.MulAdd((h * factor + q) * base, r, p);
    Nonlinear.MulAssoc(h * factor + q, base, p);
    assert base * p == p * base;
  }

  /** A head still to be multiplied, a carry, and a finished tail, as one number. */
  function Pending(base: nat, factor: nat, head: seq<nat>, carry: nat, tail: seq<nat>): int {
    (Num(base, head) * factor + carry) * Pow(base, |tail|) + Num(base, tail)
  }

  lemma {:induction false} CarryStep(base: nat, factor: nat, was: seq<nat>, at: nat, carry: nat, tail: seq<nat>)
    requires base > 0 && at < |was|
    ensures 0 <= factor * was[at]
    ensures var c := carry + factor * was[at];
            Pending(base, factor, was[..at + 1], carry, tail)
            == Pending(base, factor, was[..at], c / base, [c % base] + tail)
  {
    hide Num;
    Nonlinear.MulNonneg(factor, was[at]);
    var c := carry + factor * was[at];
    assert was[..at + 1] == was[..at] + [was[at]];
    NumAppend(base, was[..at], was[at]);
    NumPrepend(base, c % base, tail);
    CarryAlgebra(Num(base, was[..at]), was[at], factor, base, carry, Pow(base, |tail|), Num(base, tail));
  }

  /** When the buffer is full, nothing is left to carry. */
  lemma {:induction false} CarryRunsOut(carry: nat, p: nat, low: nat)
    requires carry * p + low < p
    ensures carry == 0
  {
    if carry > 0 { Nonlinear.MulMono(1, carry, p); }
  }

  /** A carry that has run out leaves a digit that is not zero. */
  lemma {:induction false} TopDigit(carry: nat, factor: nat, d: nat, base: nat)
    requires base > 0 && factor > 0 && (carry > 0 || d > 0)
    ensures 0 <= factor * d && ((carry + factor * d) / base == 0 ==> (carry + factor * d) % base != 0)
  {
    Nonlinear.MulNonneg(factor, d);
    Nonlinear.MulAtLeast(d, factor);
    Nonlinear.DivMul(carry + factor * d, base);
  }

  /** What the carry loop keeps: the tail is done, the head untouched, and the value splits between them. */
  ghost predicate Carried(base: nat, factor: nat, digit: nat, was: seq<nat>, now: seq<nat>, carry: nat, i: nat) {
    && |now| == |was| && i <= |was|
    && now[..|was| - i] == was[..|was| - i]
    && IsDigits(base, now[|was| - i..])
    && Num(base, was) * factor + digit == Pending(base, factor, was[..|was| - i], carry, now[|was| - i..])
  }

  lemma {:induction false} CarriedStart(base: nat, factor: nat, digit: nat, was: seq<nat>)
    ensures Carried(base, factor, digit, was, was, digit, 0)
  {
    assert was[..|was|] == was;
  }

  lemma {:induction false} CarriedStep(base: nat, factor: nat, digit: nat, was: seq<nat>, now: seq<nat>,
      carry: nat, i: nat)
    requires base > 0 && Carried(base, factor, digit, was, now, carry, i) && i < |was|
    ensures now[|was| - 1 - i] == was[|was| - 1 - i] && 0 <= factor * was[|was| - 1 - i]
    ensures var c := carry + factor * was[|was| - 1 - i];
            Carried(base, factor, digit, was, now[|was| - 1 - i := c % base], c / base, i + 1)
  {
    hide Num, Pow, Pending;
    var at := |was| - 1 - i;
    assert now[at] == now[..|was| - i][at];
    CarryStep(base, factor, was, at, carry, now[at + 1..]);
    var c := carry + factor * was[at];
    assert now[at := c % base][at..] == [c % base] + now[at + 1..];
    assert now[at := c % base][..at] == now[..|was| - i][..at] == was[..at];
  }

  lemma {:induction false} CarriedEnd(base: nat, factor: nat, digit: nat, was: seq<nat>, now: seq<nat>, carry: nat,
      i: nat, length: nat)
    requires Carried(base, factor, digit, was, now, carry, i) && base > 1
    requires Num(base, was) * factor + digit < Pow(base, |was|)
    requires Holds(base, was, length) && length <= i
    requires carry == 0 || i == |was|
    ensures carry == 0 && Num(base, now) == Num(base, was) * factor + digit
    ensures forall j | 0 <= j < |now| - i :: now[j] == 0
    ensures IsDigits(base, now)
  {
    hide Pow;
    forall j | 0 <= j < |now| - i ensures now[j] == 0 {
      assert now[j] == now[..|was| - i][j];
    }
    NumZeros(base, was[..|was| - i]);
    NumSkipZeros(base, now, |was| - i);
    if i == |was| { CarryRunsOut(carry, Pow(base, i), Num(base, now)); }
    forall j | 0 <= j < |now| ensures now[j] < base {
      if j >= |was| - i { assert now[j] == now[|was| - i..][j - (|was| - i)]; }
    }
  }

  /**
   * Sets the buffered number to number * factor + digit, digit by digit from the end.
   * The carry always runs out: the buffer is large enough for the new number.
   */
  method Accumulate(buf: array<nat>, length: nat, base: nat, factor: nat, digit: nat) returns (newLength: nat)
    requires base > 1 && digit < factor && Holds(base, buf[..], length)
    requires Num(base, buf[..]) * factor + digit < Pow(base, buf.Length)
    modifies buf
    ensures newLength <= buf.Length && Holds(base, buf[..], newLength)
    ensures Num(base, buf[..]) == old(Num(base, buf[..])) * factor + digit
  {
    hide Num, Pow, Carried, IsDigits;
    ghost var was: seq<nat> := buf[..];
    var carry: nat, i: nat := digit, 0;
    CarriedStart(base, factor, digit, was);
    assert length > 0 ==> was[|was| - length..][0] != 0;
    while (carry != 0 || i < length) && i < buf.Length
      invariant i <= buf.Length && Carried(base, factor, digit, was, buf[..], carry, i)
      invariant carry == 0 && i >= length && i > 0 ==> buf[buf.Length - i] != 0
    {
      var at := buf.Length - 1 - i;
      CarriedStep(base, factor, digit, was, buf[..], carry, i);
      assert buf[at] == was[at];
      if carry > 0 || was[at] > 0 { TopDigit(carry, factor, was[at], base); }
      ghost var now: seq<nat> := buf[..];
      ghost var c: nat := carry + factor * was[at];
      carry := carry + factor * buf[at];
      buf[at] := carry % base;
      assert buf[..] == now[at := c % base];
      carry := carry / base;
      i := i + 1;
    }
    CarriedEnd(base, factor, digit, was, buf[..], carry, i, length);
    assert carry == 0;
    HoldsIntro(base, buf[..], i);
    newLength := i;
  }
}
