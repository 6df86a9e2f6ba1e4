/** The field GF(1024) over GF(32), in which the Bech32 generator has roots b, a*b and a*a*b for an a of order 1023. */
module Gf1024 {
  import opened Gf32

  /** lo + hi * y, where y^2 = y + 1. */
  datatype Elt = Elt(lo: Sym, hi: Sym)

  const NOTHING := Elt(0, 0)
  const IDENTITY := Elt(1, 0)

  function Plus(u: Elt, v: Elt): Elt { Elt(Add(u.lo, v.lo), Add(u.hi, v.hi)) }

  function Scale(k: Sym, u: Elt): Elt { Elt(Mul(k, u.lo), Mul(k, u.hi)) }

  function TimesY(u: Elt): Elt { Elt(u.hi, Add(u.lo, u.hi)) }

  function Times(u: Elt, v: Elt): Elt { Plus(Scale(u.lo, v), Scale(u.hi, TimesY(v))) }

  // ---- the field laws ----

  lemma {:induction false} PlusSwap(a: Elt, b: Elt, c: Elt, d: Elt)
    ensures Plus(Plus(a, b), Plus(c, d)) == Plus(Plus(a, c), Plus(b, d))
  {
    hide Add;
    AddSwap(a.lo, b.lo, c.lo, d.lo);
    AddSwap(a.hi, b.hi, c.hi, d.hi);
  }

  lemma {:induction false} PlusFacts(u: Elt, v: Elt)
    ensures Plus(u, v) == Plus(v, u) && Plus(NOTHING, u) == u && Plus(u, NOTHING) == u && Plus(u, u) == NOTHING
    ensures Plus(u, v) == NOTHING ==> u == v
  {
  }

  lemma {:induction false} ScalePlus(k: Sym, u: Elt, v: Elt)
    ensures Scale(k, Plus(u, v)) == Plus(Scale(k, u), Scale(k, v))
  {
    hide Mul, Add;
    MulPlus(k, u.lo, v.lo);
    MulPlus(k, u.hi, v.hi);
  }

  lemma {:induction false} PlusScale(k: Sym, l: Sym, u: Elt)
    ensures Scale(Add(k, l), u) == Plus(Scale(k, u), Scale(l, u))
  {
    hide Mul, Add;
    MulAdd(k, l, u.lo);
    MulAdd(k, l, u.hi);
  }

  lemma {:induction false} ScaleScale(k: Sym, l: Sym, u: Elt)
    ensures Scale(Mul(k, l), u) == Scale(k, Scale(l, u))
  {
    hide Mul;
    MulAssoc(k, l, u.lo);
    MulAssoc(k, l, u.hi);
  }

  lemma {:induction false} TimesYPlus(u: Elt, v: Elt)
    ensures TimesY(Plus(u, v)) == Plus(TimesY(u), TimesY(v))
  {
    hide Add;
    AddSwap(u.lo, v.lo, u.hi, v.hi);
  }

  lemma {:induction false} TimesYScale(k: Sym, u: Elt)
    ensures TimesY(Scale(k, u)) == Scale(k, TimesY(u))
  {
    hide Mul, Add;
    MulPlus(k, u.lo, u.hi);
  }

  lemma {:induction false} TimesYTwice(u: Elt)
    ensures TimesY(TimesY(u)) == Plus(TimesY(u), u)
  {
  }

  lemma {:induction false} PlusTimes(u: Elt, v: Elt, w: Elt)
    ensures Times(Plus(u, v), w) == Plus(Times(u, w), Times(v, w))
  {
    var s := Plus(u, v);
    assert s.lo == Add(u.lo, v.lo) && s.hi == Add(u.hi, v.hi);
    hide Plus, Scale, TimesY, Add;
    PlusScale(u.lo, v.lo, w);
    PlusScale(u.hi, v.hi, TimesY(w));
    PlusSwap(Scale(u.lo, w), Scale(v.lo, w), Scale(u.hi, TimesY(w)), Scale(v.hi, TimesY(w)));
  }

  lemma {:induction false} ScaleTimes(k: Sym, u: Elt, v: Elt)
    ensures Times(Scale(k, u), v) == Scale(k, Times(u, v))
  {
    var s := Scale(k, u);
    assert s.lo == Mul(k, u.lo) && s.hi == Mul(k, u.hi);
    hide Plus, Scale, TimesY, Mul;
    ScaleScale(k, u.lo, v);
    ScaleScale(k, u.hi, TimesY(v));
    ScalePlus(k, Scale(u.lo, v), Scale(u.hi, TimesY(v)));
  }

  lemma {:induction false} PlusAround(a: Elt, b: Elt, c: Elt)
    ensures Plus(a, Plus(b, c)) == Plus(b, Plus(c, a))
  {
  }

  lemma {:induction false} TimesYTimes(u: Elt, v: Elt)
    ensures Times(TimesY(u), v) == TimesY(Times(u, v))
  {
    var s := TimesY(u);
    assert s.lo == u.hi && s.hi == Add(u.lo, u.hi);
    hide Plus, Scale, TimesY, Add;
    var y := TimesY(v);
    PlusScale(u.lo, u.hi, y);
    TimesYPlus(Scale(u.lo, v), Scale(u.hi, y));
    TimesYScale(u.lo, v);
    TimesYScale(u.hi, y);
    TimesYTwice(v);
    ScalePlus(u.hi, y, v);
    PlusAround(Scale(u.hi, v), Scale(u.lo, y), Scale(u.hi, y));
  }

  lemma {:induction false} TimesAssoc(u: Elt, v: Elt, w: Elt)
    ensures Times(Times(u, v), w) == Times(u, Times(v, w))
  {
    var s := Times(u, v);
    var t := Times(v, w);
    assert s == Plus(Scale(u.lo, v), Scale(u.hi, TimesY(v)));
    assert Times(u, t) == Plus(Scale(u.lo, t), Scale(u.hi, TimesY(t)));
    hide Plus, Scale, TimesY, Times;
    PlusTimes(Scale(u.lo, v), Scale(u.hi, TimesY(v)), w);
    ScaleTimes(u.lo, v, w);
    ScaleTimes(u.hi, TimesY(v), w);
    TimesYTimes(v, w);
  }

  lemma {:induction false} TimesCommutes(u: Elt, v: Elt)
    ensures Times(u, v) == Times(v, u)
  {
    hide Mul, Add;
    MulCommutes(u.lo, v.lo);
    MulCommutes(u.lo, v.hi);
    MulCommutes(u.hi, v.lo);
    MulCommutes(u.hi, v.hi);
    MulPlus(u.hi, v.lo, v.hi);
    MulPlus(v.hi, u.lo, u.hi);
    AddAround(Mul(u.lo, v.hi), Mul(u.hi, v.lo), Mul(u.hi, v.hi));
  }

  lemma {:induction false} AddAround(a: Sym, b: Sym, c: Sym)
    ensures Add(a, Add(b, c)) == Add(b, Add(a, c))
  {
  }

  lemma {:induction false} TimesPlus(u: Elt, v: Elt, w: Elt)
    ensures Times(u, Plus(v, w)) == Plus(Times(u, v), Times(u, w))
  {
    hide Plus, Times;
    TimesCommutes(u, Plus(v, w));
    TimesCommutes(u, v);
    TimesCommutes(u, w);
    PlusTimes(v, w, u);
  }

  lemma {:induction false} TimesUnits(u: Elt)
    ensures Times(IDENTITY, u) == u && Times(u, IDENTITY) == u && Times(NOTHING, u) == NOTHING
    ensures Times(u, NOTHING) == NOTHING
  {
    hide Mul;
    MulUnits(u.lo);
    MulUnits(u.hi);
    MulUnits(u.lo ^ u.hi);
    MulUnits(0);
  }

  /** The conjugate: multiplying by it leaves an element of GF(32). */
  function Conjugate(u: Elt): Elt { Elt(Add(u.lo, u.hi), u.hi) }

  function Norm(u: Elt): Sym { Add(Add(Mul(u.lo, u.lo), Mul(u.lo, u.hi)), Mul(u.hi, u.hi)) }

  lemma {:induction false} NormNonzero(u: Elt)
    requires Norm(u) == 0
    ensures u == NOTHING
  {
    hide Mul;
    ProductIs(u.lo, u.lo);
    ProductIs(u.lo, u.hi);
    ProductIs(u.hi, u.hi);
  }

  lemma {:induction false} ConjugateTimes(u: Elt)
    ensures Times(Conjugate(u), u) == Elt(Norm(u), 0)
  {
    hide Mul;
    MulAdd(u.lo, u.hi, u.lo);
    MulAdd(u.lo, u.hi, u.hi);
    MulPlus(u.hi, u.lo, u.hi);
    MulCommutes(u.lo, u.hi);
  }

  lemma {:induction false} ScaleNonzero(k: Sym, u: Elt)
    requires Scale(k, u) == NOTHING
    ensures k == 0 || u == NOTHING
  {
    hide Mul;
    MulNonzero(k, u.lo);
    MulNonzero(k, u.hi);
  }

  lemma {:induction false} TimesConstant(k: Sym, u: Elt)
    ensures Times(Elt(k, 0), u) == Scale(k, u)
  {
    hide Mul;
    MulUnits(u.hi);
    MulUnits(u.lo ^ u.hi);
  }

  lemma {:induction false} TimesNonzero(u: Elt, v: Elt)
    requires Times(u, v) == NOTHING
    ensures u == NOTHING || v == NOTHING
  {
    hide Times, Norm, Conjugate, Scale;
    TimesAssoc(Conjugate(u), u, v);
    TimesUnits(Conjugate(u));
    ConjugateTimes(u);
    TimesConstant(Norm(u), v);
    ScaleNonzero(Norm(u), v);
    if Norm(u) == 0 { NormNonzero(u); }
  }

  // ---- powers ----

  function Power(u: Elt, k: nat): Elt {
    if k == 0 then IDENTITY else Times(u, Power(u, k - 1))
  }

  lemma {:induction false} PowerAdd(u: Elt, m: nat, n: nat)
    ensures Power(u, m + n) == Times(Power(u, m), Power(u, n))
  {
    hide Times;
    if m == 0 {
      TimesUnits(Power(u, n));
    } else {
      PowerAdd(u, m - 1, n);
      TimesAssoc(u, Power(u, m - 1), Power(u, n));
    }
  }

  lemma {:induction false} PowerOfProduct(u: Elt, v: Elt, k: nat)
    ensures Power(Times(u, v), k) == Times(Power(u, k), Power(v, k))
  {
    hide Times;
    if k == 0 {
      TimesUnits(IDENTITY);
    } else {
      var p, q := Power(u, k - 1), Power(v, k - 1);
      PowerOfProduct(u, v, k - 1);
      TimesAssoc(u, v, Times(p, q));
      TimesAssoc(v, p, q);
      TimesCommutes(v, p);
      TimesAssoc(p, v, q);
      TimesAssoc(u, p, Times(v, q));
    }
  }

  lemma {:induction false} PowerNonzero(u: Elt, k: nat)
    requires u != NOTHING
    ensures Power(u, k) != NOTHING
  {
    hide Times;
    if k > 0 {
      PowerNonzero(u, k - 1);
      if Times(u, Power(u, k - 1)) == NOTHING { TimesNonzero(u, Power(u, k - 1)); }
    }
  }

  lemma {:induction false} PowerRepeats(u: Elt, m: nat, j: nat)
    requires Power(u, m) == IDENTITY
    ensures Power(u, j * m) == IDENTITY
  {
    hide Times, Power;
    if j == 0 {
      PowerZero(u);
    } else {
      PowerRepeats(u, m, j - 1);
      assert j * m == m + (j - 1) * m;
      PowerAdd(u, m, (j - 1) * m);
      TimesUnits(IDENTITY);
    }
  }

  lemma {:induction false} PowerZero(u: Elt)
    ensures Power(u, 0) == IDENTITY && Power(u, 1) == u
  {
    hide Times;
    TimesUnits(u);
  }

  // ---- products without branches, to compute with ----

  function Double(y: Sym): Sym { (y << 1) ^ (((y >> 4) & 1) * 9) }

  lemma {:induction false} DoubleIs(y: Sym)
    ensures TimesA(y) == Double(y)
  {
  }

  function Part0(x: Sym, y: Sym): Sym { (x & 1) * y }
  function Part1(x: Sym, y: Sym): Sym { ((x >> 1) & 1) * y }
  function Part2(x: Sym, y: Sym): Sym { ((x >> 2) & 1) * y }
  function Part3(x: Sym, y: Sym): Sym { ((x >> 3) & 1) * y }
  function Part4(x: Sym, y: Sym): Sym { ((x >> 4) & 1) * y }

  lemma {:induction false} PartsAre(x: Sym, y: Sym)
    ensures If(Has(x, 1), y) == Part0(x, y) && If(Has(x, 2), y) == Part1(x, y) && If(Has(x, 4), y) == Part2(x, y)
    ensures If(Has(x, 8), y) == Part3(x, y) && If(Has(x, 16), y) == Part4(x, y)
  {
  }

  function Product(x: Sym, y: Sym): Sym {
    var y1 := Double(y);
    var y2 := Double(y1);
    var y3 := Double(y2);
    Five(Part0(x, y), Part1(x, y1), Part2(x, y2), Part3(x, y3), Part4(x, Double(y3)))
  }

  lemma {:induction false} ProductIs(x: Sym, y: Sym)
    ensures Mul(x, y) == Product(x, y)
  {
    hide TimesA, Double, If, Has, Part0, Part1, Part2, Part3, Part4, Five, Add;
    var y1 := Double(y);
    var y2 := Double(y1);
    var y3 := Double(y2);
    DoubleIs(y);
    DoubleIs(y1);
    DoubleIs(y2);
    DoubleIs(y3);
    PartsAre(x, y);
    PartsAre(x, y1);
    PartsAre(x, y2);
    PartsAre(x, y3);
    PartsAre(x, Double(y3));
  }

  function Direct(u: Elt, v: Elt): Elt {
    Elt(Add(Product(u.lo, v.lo), Product(u.hi, v.hi)), Add(Product(u.lo, v.hi), Product(u.hi, Add(v.lo, v.hi))))
  }

  lemma {:induction false} TimesIs(u: Elt, v: Elt)
    ensures Times(u, v) == Direct(u, v)
  {
    hide Mul, Product, Add;
    ProductIs(u.lo, v.lo);
    ProductIs(u.hi, v.hi);
    ProductIs(u.lo, v.hi);
    ProductIs(u.hi, Add(v.lo, v.hi));
  }

  lemma {:induction false} PowerSum(u: Elt, j: nat, k: nat)
    ensures Power(u, j + k) == Direct(Power(u, j), Power(u, k))
  {
    hide Power, Times, Direct;
    PowerAdd(u, j, k);
    TimesIs(Power(u, j), Power(u, k));
  }

  // ---- the order of a ----

  /** An element of order 1023. */
  const ALPHA := Elt(1, 6)

  lemma {:induction false} PowersOfTwo(a: Elt)
    requires a == ALPHA
    ensures Power(a, 4) == Elt(1, 10) && Power(a, 8) == Elt(23, 22) && Power(a, 32) == Elt(7, 6)
    ensures Power(a, 256) == Elt(1, 22)
  {
    hide Power, Times;
    PowerZero(a);
    PowerSum(a, 1, 1);
    PowerSum(a, 2, 2);
    PowerSum(a, 4, 4);
    PowerSum(a, 8, 8);
    PowerSum(a, 16, 16);
    PowerSum(a, 32, 32);
    PowerSum(a, 64, 64);
    PowerSum(a, 128, 128);
  }

  lemma {:induction false} Power85(a: Elt)
    requires a == ALPHA
    ensures Power(a, 85) == Elt(21, 8)
  {
    hide Power, Times;
    PowersOfTwo(a);
    PowerZero(a);
    PowerSum(a, 4, 1);
    assert Power(a, 5) == Elt(20, 25);
    PowerSum(a, 5, 5);
    assert Power(a, 10) == Elt(3, 9);
    PowerSum(a, 10, 10);
    assert Power(a, 20) == Elt(22, 19);
    PowerSum(a, 20, 20);
    assert Power(a, 40) == Elt(17, 31);
    PowerSum(a, 40, 40);
    assert Power(a, 80) == Elt(6, 29);
    PowerSum(a, 80, 5);
  }

  /** The powers of a that decide its order. */
  lemma {:induction false} DecidingPowers(a: Elt)
    requires a == ALPHA
    ensures Power(a, 33) == Elt(19, 0) && Power(a, 93) == Elt(28, 21) && Power(a, 341) == Elt(1, 1)
    ensures Power(a, 1023) == IDENTITY
  {
    hide Power, Times;
    PowersOfTwo(a);
    Power85(a);
    PowerZero(a);
    PowerSum(a, 32, 1);
    PowerSum(a, 85, 8);
    PowerSum(a, 256, 85);
    PowerSum(a, 341, 341);
    PowerSum(a, 682, 341);
  }

  lemma {:induction false} Multiples(q: nat, n: nat, r: nat, j: nat, k: nat, g: nat)
    requires n == j * g && r == k * g
    ensures q * n + r == (q * j + k) * g
  {
    assert q * (j * g) == (q * j) * g;
  }

  /** Two exponents that give 1 are multiples of one that gives 1. */
  lemma {:induction false} CommonPeriod(u: Elt, m: nat, n: nat) returns (g: nat, j: nat, k: nat)
    requires m > 0 && Power(u, m) == IDENTITY && Power(u, n) == IDENTITY
    ensures m == j * g && n == k * g && Power(u, g) == IDENTITY
    decreases n
  {
    hide Times, Power;
    if n == 0 {
      g, j, k := m, 1, 0;
    } else {
      var q, r := m / n, m % n;
      PowerRepeats(u, n, q);
      PowerAdd(u, q * n, r);
      TimesUnits(Power(u, r));
      var jn, kr: nat;
      g, jn, kr := CommonPeriod(u, n, r);
      Multiples(q, n, r, jn, kr, g);
      j, k := q * jn + kr, jn;
    }
  }

  lemma {:induction false} SmallDivisor(k: nat, e: nat)
    requires 1 <= k <= 31 && k * e == 1023
    ensures (k == 1 && e == 1023) || (k == 3 && e == 341) || (k == 11 && e == 93) || (k == 31 && e == 33)
  {
  }

  lemma {:induction false} AtLeast(g: nat, k: nat)
    requires g * k == 1023 && k >= 32
    ensures g <= 31
  {
    if g >= 32 { Grows(32, g, k); }
  }

  lemma {:induction false} Grows(f: nat, g: nat, k: nat)
    requires f <= g
    ensures f * k <= g * k
  {
  }

  lemma {:induction false} Factor(j: nat, g: nat)
    requires j * g > 0
    ensures 0 < g <= j * g
  {
    Grows(1, j, g);
  }

  /** A proper divisor of 1023 divides 341, 93 or 33. */
  lemma {:induction false} Divisor(g: nat, k: nat) returns (d: nat)
    requires g * k == 1023 && g < 1023
    ensures d * g == 341 || d * g == 93 || d * g == 33
  {
    if k <= 31 {
      SmallDivisor(k, g);
      d := 1;
    } else {
      AtLeast(g, k);
      SmallDivisor(g, k);
      d := if g == 31 then 3 else 33 / g;
    }
  }

  /** a has order 1023. */
  lemma {:induction false} AlphaOrder(a: Elt, m: nat)
    requires a == ALPHA && 0 < m < 1023
    ensures Power(a, m) != IDENTITY
  {
    hide Times, Power;
    DecidingPowers(a);
    if Power(a, m) == IDENTITY {
      var g, j, k := CommonPeriod(a, m, 1023);
      Factor(j, g);
      var d := Divisor(g, k);
      PowerRepeats(a, g, d);
    }
  }

  lemma {:induction false} AlphaPowersDiffer(a: Elt, p: nat, q: nat)
    requires a == ALPHA && q < p < q + 1023
    ensures Power(a, p) != Power(a, q)
  {
    hide Times, Power, Plus;
    var x, y := Power(a, q), Power(a, p - q);
    AlphaOrder(a, p - q);
    PowerAdd(a, q, p - q);
    if Times(x, y) == x {
      TimesUnits(x);
      TimesPlus(x, y, IDENTITY);
      PlusFacts(x, x);
      TimesNonzero(x, Plus(y, IDENTITY));
      PowerNonzero(a, q);
      PlusFacts(y, IDENTITY);
    }
  }

  // ---- residues at a root of the generator ----

  const ROOT0 := Elt(12, 24)
  const ROOT1 := Elt(14, 27)
  const ROOT2 := Elt(6, 30)

  function Embed(x: Sym): Elt { Elt(x, 0) }

  function Next(b: Elt, h: Elt, x: Sym): Elt { Plus(Times(b, h), Embed(x)) }

  /** The value at b of the polynomial with these coefficients, the leading one first. */
  function Horner(b: Elt, v: seq<Sym>): Elt {
    if v == [] then NOTHING else Next(b, Horner(b, v[..|v| - 1]), v[|v| - 1])
  }

  function Value(b: Elt, s: Residue): Elt { Horner(b, Groups(s)) }

  /** b is a root of x^|g| + g. */
  predicate Root(b: Elt, g: seq<Sym>) { Power(b, |g|) == Horner(b, g) }

  lemma {:induction false} HornerAppend(b: Elt, v: seq<Sym>, x: Sym)
    ensures Horner(b, v + [x]) == Next(b, Horner(b, v), x)
  {
    hide Next;
    assert (v + [x])[..|v|] == v;
  }

  lemma {:induction false} NextPlus(b: Elt, g: Elt, h: Elt, x: Sym, y: Sym)
    ensures Next(b, Plus(g, h), Add(x, y)) == Plus(Next(b, g, x), Next(b, h, y))
  {
    hide Times, Plus, Add, Embed;
    EmbedAdd(x, y);
    TimesPlus(b, g, h);
    PlusSwap(Times(b, g), Times(b, h), Embed(x), Embed(y));
  }

  lemma {:induction false} EmbedAdd(x: Sym, y: Sym)
    ensures Embed(Add(x, y)) == Plus(Embed(x), Embed(y))
  {
  }

  lemma {:induction false} HornerSum(b: Elt, v: seq<Sym>, w: seq<Sym>)
    requires |v| == |w|
    ensures Horner(b, AddAll(v, w)) == Plus(Horner(b, v), Horner(b, w))
  {
    hide Next, Plus, Add;
    if v == [] {
      PlusFacts(NOTHING, NOTHING);
    } else {
      var n := |v| - 1;
      assert AddAll(v, w)[..n] == AddAll(v[..n], w[..n]);
      HornerSum(b, v[..n], w[..n]);
      NextPlus(b, Horner(b, v[..n]), Horner(b, w[..n]), v[n], w[n]);
    }
  }

  lemma {:induction false} ValueSum(b: Elt, s: Residue, t: Residue)
    ensures Value(b, Sum(s, t)) == Plus(Value(b, s), Value(b, t))
  {
    hide Horner, Plus, AddAll, Groups, Sum;
    GroupsSum(s, t);
    HornerSum(b, Groups(s), Groups(t));
  }

  lemma {:induction false} GroupsSum(s: Residue, t: Residue)
    ensures |Groups(s)| == |Groups(t)| == 6 && Groups(Sum(s, t)) == AddAll(Groups(s), Groups(t))
  {
    hide Add;
    var v, w := Groups(s), Groups(t);
    assert AddAll(v, w) == [Add(v[0], w[0]), Add(v[1], w[1]), Add(v[2], w[2]), Add(v[3], w[3]), Add(v[4], w[4]),
                            Add(v[5], w[5])];
  }

  lemma {:induction false} GroupsMultiple(k: Sym, s: Residue)
    ensures Groups(Multiple(k, s)) == MulAll(k, Groups(s))
  {
    hide Mul;
    var v := Groups(s);
    assert MulAll(k, v) == [Mul(k, v[0]), Mul(k, v[1]), Mul(k, v[2]), Mul(k, v[3]), Mul(k, v[4]), Mul(k, v[5])];
  }

  lemma {:induction false} GroupsShifted(s: Residue)
    ensures |Groups(s)| == 6
    ensures Groups(s) == [s.c0] + Groups(s)[1..] && Groups(Shifted(s)) == Groups(s)[1..] + [0]
  {
  }

  lemma {:induction false} TimesScale(u: Elt, k: Sym, v: Elt)
    ensures Times(u, Scale(k, v)) == Scale(k, Times(u, v))
  {
    hide Times, Scale;
    TimesCommutes(u, Scale(k, v));
    TimesCommutes(u, v);
    ScaleTimes(k, v, u);
  }

  lemma {:induction false} EmbedMul(k: Sym, x: Sym)
    ensures Embed(Mul(k, x)) == Scale(k, Embed(x))
  {
    hide Mul;
    MulUnits(k);
  }

  lemma {:induction false} NextScale(k: Sym, b: Elt, h: Elt, x: Sym)
    ensures Next(b, Scale(k, h), Mul(k, x)) == Scale(k, Next(b, h, x))
  {
    hide Times, Plus, Mul, Scale, Embed;
    EmbedMul(k, x);
    TimesScale(b, k, h);
    ScalePlus(k, Times(b, h), Embed(x));
  }

  function MulAll(k: Sym, v: seq<Sym>): seq<Sym> { seq(|v|, i requires 0 <= i < |v| => Mul(k, v[i])) }

  lemma {:induction false} HornerScale(k: Sym, b: Elt, v: seq<Sym>)
    ensures Horner(b, MulAll(k, v)) == Scale(k, Horner(b, v))
  {
    hide Next, Mul;
    if v == [] {
      MulUnits(k);
    } else {
      hide Scale;
      var n := |v| - 1;
      assert MulAll(k, v)[..n] == MulAll(k, v[..n]);
      HornerScale(k, b, v[..n]);
      NextScale(k, b, Horner(b, v[..n]), v[n]);
    }
  }

  lemma {:induction false} ValueMultiple(b: Elt, k: Sym, s: Residue)
    ensures Value(b, Multiple(k, s)) == Scale(k, Value(b, s))
  {
    hide Horner, Scale, MulAll, Groups, Multiple;
    GroupsMultiple(k, s);
    HornerScale(k, b, Groups(s));
  }

  lemma {:induction false} NextZero(b: Elt, h: Elt)
    ensures Next(b, h, 0) == Times(b, h)
  {
    hide Times, Plus;
    PlusFacts(Times(b, h), NOTHING);
  }

  lemma {:induction false} NextAfter(b: Elt, p: Elt, h: Elt, x: Sym)
    ensures Next(b, Plus(p, h), x) == Plus(Times(b, p), Next(b, h, x))
  {
    hide Times, Plus, Embed;
    TimesPlus(b, p, h);
    PlusSwap(Times(b, p), Times(b, h), NOTHING, Embed(x));
    PlusFacts(Embed(x), Embed(x));
    PlusFacts(Times(b, p), Times(b, p));
  }

  /** A leading coefficient x contributes x * b^n. */
  lemma {:induction false} HornerFront(b: Elt, x: Sym, v: seq<Sym>)
    ensures Horner(b, [x] + v) == Plus(Scale(x, Power(b, |v|)), Horner(b, v))
  {
    if v == [] {
      assert [x] + v == [x];
      FirstTerm(b, x);
    } else {
      hide Next, Plus, Scale, Times;
      var n := |v| - 1;
      assert ([x] + v)[..n + 1] == [x] + v[..n];
      HornerFront(b, x, v[..n]);
      TimesScale(b, x, Power(b, n));
      NextAfter(b, Scale(x, Power(b, n)), Horner(b, v[..n]), v[n]);
    }
  }

  lemma {:induction false} FirstTerm(b: Elt, x: Sym)
    ensures Horner(b, [x]) == Plus(Scale(x, Power(b, 0)), Horner(b, []))
  {
    hide Times, Mul;
    MulUnits(x);
    TimesUnits(b);
  }

  /** At a root of the generator, multiplication by x modulo the generator is multiplication by the root. */
  lemma {:induction false} ValueTimesX(b: Elt, s: Residue)
    requires Root(b, Groups(GENERATOR))
    ensures Value(b, TimesX(s)) == Times(b, Value(b, s))
  {
    hide Times, Scale, Power, Multiple, Sum, Horner, Plus, Shifted, Groups, Next;
    GroupsShifted(s);
    GroupsShifted(GENERATOR);
    var t := Groups(s)[1..];
    HornerFront(b, s.c0, t);
    HornerAppend(b, t, 0);
    NextZero(b, Horner(b, t));
    ValueSum(b, Shifted(s), Multiple(s.c0, GENERATOR));
    ValueMultiple(b, s.c0, GENERATOR);
    PowerZero(b);
    PowerAdd(b, 1, 5);
    TimesScale(b, s.c0, Power(b, 5));
    TimesPlus(b, Scale(s.c0, Power(b, 5)), Horner(b, t));
    PlusFacts(Scale(s.c0, Power(b, 6)), Times(b, Horner(b, t)));
  }

  lemma {:induction false} ValueIter(b: Elt, k: nat, s: Residue)
    requires Root(b, Groups(GENERATOR))
    ensures Value(b, Iter(k, s)) == Times(Power(b, k), Value(b, s))
  {
    hide Times, Value, TimesX, Root;
    if k == 0 {
      TimesUnits(Value(b, s));
    } else {
      ValueIter(b, k - 1, s);
      ValueTimesX(b, Iter(k - 1, s));
      TimesAssoc(b, Power(b, k - 1), Value(b, s));
    }
  }

  lemma {:induction false} ValueConst(b: Elt, d: Sym)
    ensures Value(b, Const(d)) == Embed(d)
  {
    hide Next;
    SixSteps(b, Groups(Const(d)));
    NextUnit(b, 0);
    NextUnit(b, d);
  }

  lemma {:induction false} NextUnit(b: Elt, x: Sym)
    ensures Next(b, NOTHING, x) == Embed(x)
  {
    hide Times, Plus;
    TimesUnits(b);
    PlusFacts(Embed(x), Embed(x));
  }

  lemma {:induction false} SixSteps(b: Elt, v: seq<Sym>)
    requires |v| == 6
    ensures Horner(b, v)
            == Next(b, Next(b, Next(b, Next(b, Next(b, Next(b, NOTHING, v[0]), v[1]), v[2]), v[3]), v[4]), v[5])
  {
    hide Next, Horner;
    HornerEmpty(b);
    HornerAppend(b, [], v[0]);
    HornerAppend(b, v[..1], v[1]);
    HornerAppend(b, v[..2], v[2]);
    HornerAppend(b, v[..3], v[3]);
    HornerAppend(b, v[..4], v[4]);
    HornerAppend(b, v[..5], v[5]);
    assert [] + [v[0]] == v[..1] && v[..1] + [v[1]] == v[..2] && v[..2] + [v[2]] == v[..3];
    assert v[..3] + [v[3]] == v[..4] && v[..4] + [v[4]] == v[..5] && v[..5] + [v[5]] == v;
  }

  lemma {:induction false} HornerEmpty(b: Elt)
    ensures Horner(b, []) == NOTHING
  {
  }

  lemma {:induction false} SixthPower(b: Elt)
    ensures Power(b, |Groups(GENERATOR)|) == Times(Times(b, Times(b, b)), Times(b, Times(b, b)))
  {
    hide Times, Power;
    PowerZero(b);
    PowerAdd(b, 1, 1);
    PowerAdd(b, 1, 2);
    PowerAdd(b, 3, 3);
  }

  lemma {:induction false} Steps0(b: Elt, h: Elt, x: Sym, r: Elt)
    requires b == ROOT0
    requires (h == Elt(0, 0) && x == 29 && r == Elt(29, 0))
             || (h == Elt(29, 0) && x == 22 && r == Elt(7, 11))
             || (h == Elt(7, 11) && x == 20 && r == Elt(7, 11))
             || (h == Elt(7, 11) && x == 21 && r == Elt(6, 11))
             || (h == Elt(6, 11) && x == 29 && r == Elt(2, 19))
             || (h == Elt(2, 19) && x == 18 && r == Elt(28, 4))
    ensures Next(b, h, x) == r
  {
    hide Times;
    TimesIs(b, h);
  }

  lemma {:induction false} IsRoot0(b: Elt)
    requires b == ROOT0
    ensures Root(b, Groups(GENERATOR))
  {
    hide Power, Horner, Next, Times;
    SixthPower(b);
    TimesIs(b, b);
    TimesIs(b, Times(b, b));
    TimesIs(Elt(28, 2), Elt(28, 2));
    SixSteps(b, Groups(GENERATOR));
    Steps0(b, Elt(0, 0), 29, Elt(29, 0));
    Steps0(b, Elt(29, 0), 22, Elt(7, 11));
    Steps0(b, Elt(7, 11), 20, Elt(7, 11));
    Steps0(b, Elt(7, 11), 21, Elt(6, 11));
    Steps0(b, Elt(6, 11), 29, Elt(2, 19));
    Steps0(b, Elt(2, 19), 18, Elt(28, 4));
  }

  lemma {:induction false} Steps1(b: Elt, h: Elt, x: Sym, r: Elt)
    requires b == ROOT1
    requires (h == Elt(0, 0) && x == 29 && r == Elt(29, 0))
             || (h == Elt(29, 0) && x == 22 && r == Elt(20, 5))
             || (h == Elt(20, 5) && x == 20 && r == Elt(31, 10))
             || (h == Elt(31, 10) && x == 21 && r == Elt(19, 21))
             || (h == Elt(19, 21) && x == 29 && r == Elt(27, 1))
             || (h == Elt(27, 1) && x == 18 && r == Elt(6, 24))
    ensures Next(b, h, x) == r
  {
    hide Times;
    TimesIs(b, h);
  }

  lemma {:induction false} IsRoot1(b: Elt)
    requires b == ROOT1
    ensures Root(b, Groups(GENERATOR))
  {
    hide Power, Horner, Next, Times;
    SixthPower(b);
    TimesIs(b, b);
    TimesIs(b, Times(b, b));
    TimesIs(Elt(18, 28), Elt(18, 28));
    SixSteps(b, Groups(GENERATOR));
    Steps1(b, Elt(0, 0), 29, Elt(29, 0));
    Steps1(b, Elt(29, 0), 22, Elt(20, 5));
    Steps1(b, Elt(20, 5), 20, Elt(31, 10));
    Steps1(b, Elt(31, 10), 21, Elt(19, 21));
    Steps1(b, Elt(19, 21), 29, Elt(27, 1));
    Steps1(b, Elt(27, 1), 18, Elt(6, 24));
  }

  lemma {:induction false} Steps2(b: Elt, h: Elt, x: Sym, r: Elt)
    requires b == ROOT2
    requires (h == Elt(0, 0) && x == 29 && r == Elt(29, 0))
             || (h == Elt(29, 0) && x == 22 && r == Elt(10, 23))
             || (h == Elt(10, 23) && x == 20 && r == Elt(5, 30))
             || (h == Elt(5, 30) && x == 21 && r == Elt(23, 23))
             || (h == Elt(23, 23) && x == 29 && r == Elt(16, 9))
             || (h == Elt(16, 9) && x == 18 && r == Elt(17, 11))
    ensures Next(b, h, x) == r
  {
    hide Times;
    TimesIs(b, h);
  }

  lemma {:induction false} IsRoot2(b: Elt)
    requires b == ROOT2
    ensures Root(b, Groups(GENERATOR))
  {
    hide Power, Horner, Next, Times;
    SixthPower(b);
    TimesIs(b, b);
    TimesIs(b, Times(b, b));
    TimesIs(Elt(16, 21), Elt(16, 21));
    SixSteps(b, Groups(GENERATOR));
    Steps2(b, Elt(0, 0), 29, Elt(29, 0));
    Steps2(b, Elt(29, 0), 22, Elt(10, 23));
    Steps2(b, Elt(10, 23), 20, Elt(5, 30));
    Steps2(b, Elt(5, 30), 21, Elt(23, 23));
    Steps2(b, Elt(23, 23), 29, Elt(16, 9));
    Steps2(b, Elt(16, 9), 18, Elt(17, 11));
  }

  lemma {:induction false} RootsProgress(a: Elt, b0: Elt, b1: Elt)
    requires a == ALPHA && b0 == ROOT0 && b1 == ROOT1
    ensures Times(a, b0) == ROOT1 && Times(a, b1) == ROOT2
  {
    hide Times;
    TimesIs(a, b0);
    TimesIs(a, b1);
  }

  /** The generator has three roots in geometric progression. */
  lemma {:induction false} ThreeRoots(a: Elt, b0: Elt, b1: Elt, b2: Elt)
    requires a == ALPHA && b0 == ROOT0 && b1 == ROOT1 && b2 == ROOT2
    ensures Root(b0, Groups(GENERATOR)) && Root(b1, Groups(GENERATOR)) && Root(b2, Groups(GENERATOR))
    ensures Times(a, b0) == b1 && Times(a, b1) == b2
  {
    hide Times, Root;
    IsRoot0(b0);
    IsRoot1(b1);
    IsRoot2(b2);
    RootsProgress(a, b0, b1);
  }

  // ---- three terms never cancel ----

  lemma {:induction false} Eliminate(a1: Elt, a2: Elt, a3: Elt, x: Elt, y: Elt)
    requires x != y && x != IDENTITY
    requires Plus(Plus(a1, a2), a3) == NOTHING
    requires Plus(Plus(Times(x, a1), Times(y, a2)), a3) == NOTHING
    requires Plus(Plus(Times(x, Times(x, a1)), Times(y, Times(y, a2))), a3) == NOTHING
    ensures a1 == NOTHING
  {
    hide Plus, Times;
    var m1, m2 := Times(x, a1), Times(y, a2);
    var n1, n2 := Times(x, m1), Times(y, m2);
    PlusFacts(Plus(a1, a2), a3);
    PlusFacts(Plus(m1, m2), a3);
    PlusFacts(Plus(n1, n2), a3);
    PlusFacts(a3, a3);
    var p, q := Plus(m1, a1), Plus(m2, a2);
    PlusSwap(m1, a1, m2, a2);
    PlusFacts(p, q);
    TimesPlus(x, m1, a1);
    TimesPlus(y, m2, a2);
    PlusSwap(n1, m1, n2, m2);
    PlusTimes(x, y, p);
    TimesNonzero(Plus(x, y), p);
    PlusFacts(x, y);
    TimesUnits(a1);
    PlusTimes(x, IDENTITY, a1);
    TimesNonzero(Plus(x, IDENTITY), a1);
    PlusFacts(x, IDENTITY);
  }

  /** The value at b of d * x^k. */
  function Term(b: Elt, k: nat, d: Sym): Elt { Times(Power(b, k), Embed(d)) }

  lemma {:induction false} TermTimes(a: Elt, b: Elt, k: nat, d: Sym)
    ensures Term(Times(a, b), k, d) == Times(Power(a, k), Term(b, k, d))
  {
    hide Times, Power;
    PowerOfProduct(a, b, k);
    TimesAssoc(Power(a, k), Power(b, k), Embed(d));
  }

  lemma {:induction false} ValueTerms(b: Elt, p: nat, d: Sym, q: nat, e: Sym, f: Sym)
    requires Root(b, Groups(GENERATOR))
    ensures Value(b, Sum(Sum(Iter(p, Const(d)), Iter(q, Const(e))), Const(f)))
            == Plus(Plus(Term(b, p, d), Term(b, q, e)), Embed(f))
  {
    hide Times, Power, Value, Sum, Iter, Root, Plus;
    ValueSum(b, Sum(Iter(p, Const(d)), Iter(q, Const(e))), Const(f));
    ValueSum(b, Iter(p, Const(d)), Iter(q, Const(e)));
    ValueIter(b, p, Const(d));
    ValueIter(b, q, Const(e));
    ValueConst(b, d);
    ValueConst(b, e);
    ValueConst(b, f);
  }

  lemma {:induction false} ValueNil(b: Elt)
    ensures Value(b, NIL) == NOTHING
  {
    hide Value;
    ValueConst(b, 0);
  }

  /** d * x^p + e * x^q + f is not a multiple of the generator. */
  lemma {:induction false} ThreeTerms(p: nat, d: Sym, q: nat, e: Sym, f: Sym)
    requires 0 < q < p < 1023 && d != 0
    ensures Sum(Sum(Iter(p, Const(d)), Iter(q, Const(e))), Const(f)) != NIL
  {
    hide Times, Power, Value, Sum, Iter, Root, Plus, Term;
    var a, b0, b1, b2 := ALPHA, ROOT0, ROOT1, ROOT2;
    ThreeRoots(a, b0, b1, b2);
    if Sum(Sum(Iter(p, Const(d)), Iter(q, Const(e))), Const(f)) == NIL {
      ValueTerms(b0, p, d, q, e, f);
      ValueTerms(b1, p, d, q, e, f);
      ValueTerms(b2, p, d, q, e, f);
      ValueNil(b0);
      ValueNil(b1);
      ValueNil(b2);
      TermTimes(a, b0, p, d);
      TermTimes(a, b0, q, e);
      TermTimes(a, b1, p, d);
      TermTimes(a, b1, q, e);
      AlphaPowersDiffer(a, p, q);
      AlphaOrder(a, p);
      Eliminate(Term(b0, p, d), Term(b0, q, e), Embed(f), Power(a, p), Power(a, q));
      TermNonzero(b0, p, d);
    }
  }

  lemma {:induction false} TermNonzero(b: Elt, k: nat, d: Sym)
    requires b != NOTHING && d != 0
    ensures Term(b, k, d) != NOTHING
  {
    hide Times, Power;
    PowerNonzero(b, k);
    if Term(b, k, d) == NOTHING { TimesNonzero(Power(b, k), Embed(d)); }
  }
}
