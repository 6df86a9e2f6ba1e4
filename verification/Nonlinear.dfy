/** Facts about products, quotients and powers that the solver needs one at a time. */
module Nonlinear {

  lemma {:induction false} MulAtLeast(q: nat, b: nat)
    requires b > 0
    ensures q * b >= q
  {
    if q > 0 { assert q * b >= 1 * q; }
  }

  lemma {:induction false} DivMul(a: nat, b: nat)
    requires b > 0
    ensures a == a / b * b + a % b
  {
  }

  lemma {:induction false} DivAtMost(a: nat, b: nat)
    requires b > 0
    ensures a / b <= a
  {
    DivMul(a, b);
    MulAtLeast(a / b, b);
  }

  lemma {:induction false} DivBelow(a: nat, n: nat, b: nat)
    requires b > 0 && a < n * b
    ensures a / b < n
  {
    DivMul(a, b);
    if a / b >= n { MulMono(n, a / b, b); }
  }

  lemma {:induction false} MulMono(x: nat, y: nat, b: nat)
    requires x <= y
    ensures x * b <= y * b
  {
  }

  lemma {:induction false} MulStrict(x: nat, y: nat, b: nat)
    requires x < y && b > 0
    ensures x * b < y * b
  {
  }

  lemma {:induction false} DivExact(a: nat, q: nat, b: nat)
    requires b > 0 && q * b <= a < (q + 1) * b
    ensures a / b == q
  {
    DivMul(a, b);
    if a / b < q { MulMono(a / b + 1, q, b); }
    DivBelow(a, q + 1, b);
  }

  lemma {:induction false} MulNext(q: int, b: int)
    ensures (q + 1) * b == q * b + b
  {
  }

  lemma {:induction false} MulAssoc(a: int, b: int, c: int)
    ensures a * b * c == a * (b * c)
  {
  }

  lemma {:induction false} MulNonneg(a: nat, b: nat)
    ensures a * b >= 0
  {
  }

  lemma {:induction false} ModExact(a: nat, q: nat, b: nat, r: nat)
    requires a == q * b + r && r < b
    ensures a % b == r && a / b == q
  {
    MulNext(q, b);
    DivExact(a, q, b);
    DivMul(a, b);
  }

  /** Reducing a summand first makes no difference. */
  lemma {:induction false} ModSum(x: nat, y: nat, m: nat)
    requires m > 0
    ensures (x + y % m) % m == (x + y) % m
  {
    var yd, ym := y / m, y % m;
    DivMul(y, m);
    var q, r := (x + ym) / m, (x + ym) % m;
    DivMul(x + ym, m);
    MulAdd(q, yd, m);
    ModExact(x + y, q + yd, m, r);
  }

  lemma {:induction false} MulAdd(a: int, b: int, m: int)
    ensures (a + b) * m == a * m + b * m
  {
  }

  lemma {:induction false} MulDist(m: int, a: int, b: int)
    ensures m * (a + b) == m * a + m * b
  {
  }

  lemma {:induction false} DivNonneg(a: nat, b: nat)
    requires b > 0
    ensures a / b >= 0
  {
  }

  lemma {:induction false} ModBelow(a: nat, b: nat)
    requires b > 0
    ensures 0 <= a % b < b
  {
  }

  lemma {:induction false} ModAtMost(a: nat, b: nat)
    requires b > 0
    ensures a % b <= a
  {
    DivMul(a, b);
    MulNonneg(a / b, b);
  }

  lemma {:induction false} DivDiv(a: nat, b: nat, c: nat)
    requires b > 0 && c > 0
    ensures b * c > 0 && a / b / c == a / (b * c)
  {
    var q, r := a / b, a % b;
    DivMul(a, b);
    var t, u := q / c, q % c;
    DivMul(q, c);
    MulAdd(t * c, u, b);
    MulAssoc(t, c, b);
    MulMono(u + 1, c, b);
    MulNext(u, b);
    ModExact(a, t, c * b, u * b + r);
    assert b * c == c * b;
  }
}
