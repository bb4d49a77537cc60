/** Durations with rational periods: the common period of two durations, conversions between
    periods, comparisons, and rounding to a coarser period. Counts are signed and never overflow. */
module Durations {
  import opened Gcds

  /** A ratio in lowest terms, the only kind a period can be. */
  datatype Ratio = Ratio(num: nat, den: nat)

  type Period = r: Ratio | r.num > 0 && r.den > 0 && Gcd(r.num, r.den) == 1 witness Ratio(1, 1)

  datatype Duration = Duration(count: int, period: Period)

  // ----- ratios -----

  /** The ratio of two numbers, brought to lowest terms. */
  function Simplify(num: nat, den: nat): (r: Period)
    requires num > 0 && den > 0
    ensures r.num * den == r.den * num
  {
    GcdDivides(num, den);
    CofactorsCoprime(num, den);
    var g := Gcd(num, den);
    var r := Ratio(Over(num, g), Over(den, g));
    Positive(g, r.num);
    Positive(g, r.den);
    Crossed(g, r.num, r.den);
    r
  }

  lemma Crossed(g: nat, x: nat, y: nat)
    ensures x * (g * y) == y * (g * x)
  {
  }

  /** One period divided by another. */
  function Quotient(p: Period, q: Period): Period
  {
    var g1 := Gcd(p.num, q.num);
    var g2 := Gcd(p.den, q.den);
    CofactorsPositive(p.num, q.num);
    CofactorsPositive(p.den, q.den);
    Product(Over(p.num, g1), Over(q.den, g2));
    Product(Over(p.den, g2), Over(q.num, g1));
    Simplify(Over(p.num, g1) * Over(q.den, g2), Over(p.den, g2) * Over(q.num, g1))
  }

  lemma CofactorsPositive(m: nat, n: nat)
    requires m > 0 && n > 0
    ensures Gcd(m, n) > 0 && Over(m, Gcd(m, n)) > 0 && Over(n, Gcd(m, n)) > 0
  {
    GcdDivides(m, n);
    Positive(Gcd(m, n), Over(m, Gcd(m, n)));
    Positive(Gcd(m, n), Over(n, Gcd(m, n)));
  }

  /** The quotient of two periods is what its name says. */
  lemma QuotientExact(p: Period, q: Period)
    ensures Quotient(p, q).num * (p.den * q.num) == Quotient(p, q).den * (p.num * q.den)
  {
    CofactorsPositive(p.num, q.num);
    CofactorsPositive(p.den, q.den);
    GcdDivides(p.num, q.num);
    GcdDivides(p.den, q.den);
    var g1, g2 := Gcd(p.num, q.num), Gcd(p.den, q.den);
    var a, b := Over(p.num, g1), Over(q.num, g1);
    var c, d := Over(p.den, g2), Over(q.den, g2);
    Product(a, d);
    Product(c, b);
    var r := Simplify(a * d, c * b);
    FourFactors(g2, c, g1, b);
    FourFactors(g1, a, g2, d);
    Assoc(g1, g2, c * b);
    Swap(g1, g2);
    Scaled(r.num, c * b, r.den, a * d, g1 * g2);
  }

  lemma FourFactors(g: nat, x: nat, h: nat, y: nat)
    ensures (g * x) * (h * y) == (g * h) * (x * y)
  {
    Assoc(g, x, h * y);
    Assoc(x, h, y);
    Assoc(h, x, y);
    Swap(x, h);
    Assoc(g, h, x * y);
  }

  lemma Scaled(x: nat, y: nat, z: nat, w: nat, g: nat)
    requires x * y == z * w
    ensures x * (g * y) == z * (g * w)
  {
    Assoc(x, g, y);
    Assoc(g, x, y);
    Assoc(z, g, w);
    Assoc(g, z, w);
    Swap(x, g);
    Swap(z, g);
  }

  // ----- the common period -----

  /** `p` is a whole multiple of `c`. */
  ghost predicate WholeMultiple(p: Period, c: Period) {
    exists k: nat :: IsTimes(p, k, c)
  }

  /** `p` is `k` times `c`. */
  predicate IsTimes(p: Period, k: nat, c: Period) {
    p.num * c.den == k * (c.num * p.den)
  }

  function CommonPeriod(p: Period, q: Period): Period {
    CofactorsPositive(p.num, q.num);
    LcmMultiple(p.den, q.den);
    Simplify(Gcd(p.num, q.num), Lcm(p.den, q.den))
  }

  /** Whole multiples, in terms of lowest terms. */
  lemma MultipleParts(p: Period, c: Period)
    ensures WholeMultiple(p, c) <==> Divides(c.num, p.num) && Divides(p.den, c.den)
  {
    if WholeMultiple(p, c) {
      var k: nat :| IsTimes(p, k, c);
      Assoc(k, c.num, p.den);
      Swap(k, c.num);
      Assoc(c.num, k, p.den);
      Intro(c.num, k * p.den, p.num * c.den);
      Swap(p.num, c.den);
      GcdSwap(c.num, c.den);
      Euclid(c.num, c.den, p.num);
      Swap(k * c.num, p.den);
      Intro(p.den, k * c.num, c.den * p.num);
      GcdSwap(p.num, p.den);
      Euclid(p.den, p.num, c.den);
    }
    if Divides(c.num, p.num) && Divides(p.den, c.den) {
      var k, m := Over(p.num, c.num), Over(c.den, p.den);
      FourFactors(c.num, k, p.den, m);
      Swap(c.num * p.den, k * m);
      assert IsTimes(p, k * m, c);
    }
  }

  lemma GcdSwap(m: nat, n: nat)
    requires m > 0 && n > 0
    ensures Gcd(m, n) == Gcd(n, m)
  {
    GcdDivides(m, n);
    GcdDivides(n, m);
    GcdGreatest(Gcd(m, n), n, m);
    GcdGreatest(Gcd(n, m), m, n);
    Antisymmetric(Gcd(m, n), Gcd(n, m));
  }

  lemma Antisymmetric(m: nat, n: nat)
    requires Divides(m, n) && Divides(n, m)
    ensures m == n
  {
    var s, t := Over(n, m), Over(m, n);
    if m < n {
      Positive(n, t);
      Stretch(n, t);
    } else if n < m {
      Positive(m, s);
      Stretch(m, s);
    }
  }

  lemma DividesTrans(a: nat, b: nat, c: nat)
    requires Divides(a, b) && Divides(b, c)
    ensures Divides(a, c)
  {
    Assoc(a, Over(b, a), Over(c, b));
    Intro(a, Over(b, a) * Over(c, b), c);
  }

  /** A divisor of one of two coprime numbers is coprime to the other. */
  lemma DivisorCoprime(h: nat, m: nat, n: nat)
    requires m > 0 && n > 0 && Gcd(m, n) == 1 && Divides(h, m)
    ensures Gcd(h, n) == 1
  {
    GcdDivides(h, n);
    DividesTrans(Gcd(h, n), h, m);
    GcdGreatest(Gcd(h, n), m, n);
    DividesOne(Gcd(h, n));
  }

  /** The numbers the common period is made from have no common factor. */
  lemma CommonCoprime(p: Period, q: Period)
    ensures Gcd(p.den, q.den) > 0 && Gcd(Gcd(p.num, q.num), Lcm(p.den, q.den)) == 1
  {
    LcmMultiple(p.den, q.den);
    GcdDivides(p.num, q.num);
    GcdDivides(p.den, q.den);
    var g, l := Gcd(p.num, q.num), Lcm(p.den, q.den);
    var h := Gcd(g, l);
    var d := Gcd(p.den, q.den);
    var s := Over(p.den, d);
    GcdDivides(g, l);
    DividesTrans(h, g, p.num);
    DividesTrans(h, g, q.num);
    DivisorCoprime(h, q.num, q.den);
    Swap(s, q.den);
    Euclid(h, q.den, s);
    Swap(d, s);
    Intro(s, d, p.den);
    DividesTrans(h, s, p.den);
    GcdGreatest(h, p.num, p.den);
    DividesOne(h);
  }

  /** So bringing it to lowest terms changes nothing. */
  lemma CommonParts(p: Period, q: Period)
    ensures CommonPeriod(p, q).num == Gcd(p.num, q.num)
    ensures Gcd(p.den, q.den) > 0 && CommonPeriod(p, q).den == Lcm(p.den, q.den)
  {
    CofactorsPositive(p.num, q.num);
    LcmMultiple(p.den, q.den);
    CommonCoprime(p, q);
    OverOne(Gcd(p.num, q.num));
    OverOne(Lcm(p.den, q.den));
  }

  lemma OverOne(n: nat)
    ensures Over(n, 1) == n
  {
  }

  /** The common period is the largest of which both periods are whole multiples: these are exactly
      the periods of which the common one is a whole multiple. */
  lemma CommonLargest(p: Period, q: Period, c: Period)
    ensures WholeMultiple(p, c) && WholeMultiple(q, c) <==> WholeMultiple(CommonPeriod(p, q), c)
  {
    CommonParts(p, q);
    MultipleParts(p, c);
    MultipleParts(q, c);
    MultipleParts(CommonPeriod(p, q), c);
    GcdDivides(p.num, q.num);
    LcmMultiple(p.den, q.den);
    if WholeMultiple(p, c) && WholeMultiple(q, c) {
      GcdGreatest(c.num, p.num, q.num);
      LcmLeast(p.den, q.den, c.den);
    }
    if WholeMultiple(CommonPeriod(p, q), c) {
      DividesTrans(c.num, Gcd(p.num, q.num), p.num);
      DividesTrans(c.num, Gcd(p.num, q.num), q.num);
      DividesTrans(p.den, Lcm(p.den, q.den), c.den);
      DividesTrans(q.den, Lcm(p.den, q.den), c.den);
    }
  }

  lemma MultipleOfSelf(p: Period)
    ensures WholeMultiple(p, p)
  {
    assert IsTimes(p, 1, p);
  }

  lemma MultipleAntisymmetric(p: Period, q: Period)
    requires WholeMultiple(p, q) && WholeMultiple(q, p)
    ensures p == q
  {
    MultipleParts(p, q);
    MultipleParts(q, p);
    Antisymmetric(p.num, q.num);
    Antisymmetric(p.den, q.den);
  }

  lemma CommonBelow(p: Period, q: Period)
    ensures WholeMultiple(p, CommonPeriod(p, q)) && WholeMultiple(q, CommonPeriod(p, q))
  {
    MultipleOfSelf(CommonPeriod(p, q));
    CommonLargest(p, q, CommonPeriod(p, q));
  }

  /** The order of the two does not matter, and a period shares itself with itself. */
  lemma CommonSymmetric(p: Period, q: Period)
    ensures CommonPeriod(p, q) == CommonPeriod(q, p) && CommonPeriod(p, p) == p
  {
    var c, d := CommonPeriod(p, q), CommonPeriod(q, p);
    CommonBelow(p, q);
    CommonBelow(q, p);
    CommonLargest(p, q, d);
    CommonLargest(q, p, c);
    MultipleAntisymmetric(c, d);
    CommonBelow(p, p);
    MultipleOfSelf(p);
    CommonLargest(p, p, p);
    MultipleAntisymmetric(CommonPeriod(p, p), p);
  }

  // ----- time as a number -----

  /** The exact length of a duration in seconds. */
  ghost function Seconds(d: Duration): real {
    (d.count * d.period.num) as real / d.period.den as real
  }

  ghost predicate Before(a: Duration, b: Duration) {
    a.count * a.period.num * b.period.den < b.count * b.period.num * a.period.den
  }

  /** Comparing seconds is comparing cross products. */
  lemma CrossProducts(a: Duration, b: Duration)
    ensures Seconds(a) < Seconds(b) <==> Before(a, b)
  {
    Fractions(a.count * a.period.num, a.period.den, b.count * b.period.num, b.period.den);
  }

  lemma Fractions(x: int, u: nat, y: int, v: nat)
    requires u > 0 && v > 0
    ensures x as real / u as real < y as real / v as real <==> x * v < y * u
  {
    var s, t := x as real / u as real, y as real / v as real;
    var r := u as real * v as real;
    assert r > 0.0;
    RealScale(s, t, r);
    RealCancel(x as real, u as real, v as real);
    RealCancel(y as real, v as real, u as real);
    assert (x * v) as real == x as real * v as real;
    assert (y * u) as real == y as real * u as real;
    assert r == v as real * u as real;
  }

  lemma RealCancel(x: real, u: real, v: real)
    requires u > 0.0 && v > 0.0
    ensures (x / u) * (u * v) == x * v
  {
    var q := x / u;
    assert q * u == x;
    assert q * (u * v) == (q * u) * v;
  }

  lemma RealScale(s: real, t: real, r: real)
    requires r > 0.0
    ensures s < t <==> s * r < t * r
  {
    if s < t { RealOrdered(s, t, r); } else if t < s { RealOrdered(t, s, r); }
  }

  lemma RealOrdered(s: real, t: real, r: real)
    requires r > 0.0 && s < t
    ensures s * r < t * r
  {
    var e := t - s;
    assert e * r > 0.0;
    assert t * r == (s + e) * r == s * r + e * r;
  }

  // ----- conversion -----

  /** Division that drops the fraction, as built-in division does. */
  function Trunc(a: int, b: int): int
    requires b > 0
  {
    if a >= 0 then a / b else -(-a / b)
  }

  /** Converts a duration to another period: one of four forms, picked by the factor between them. */
  function Cast(to: Period, d: Duration): Duration {
    if d.period == to then d else
      var cf := Quotient(d.period, to);
      if cf.num == 1 && cf.den == 1 then Duration(d.count, to)
      else if cf.num == 1 then Duration(Trunc(d.count, cf.den), to)
      else if cf.den == 1 then Duration(d.count * cf.num, to)
      else Duration(Trunc(d.count * cf.num, cf.den), to)
  }

  /** All four forms truncate `count * num / den`. */
  lemma CastForms(to: Period, d: Duration)
    ensures Cast(to, d).period == to
    ensures var cf := Quotient(d.period, to); Cast(to, d).count == Trunc(d.count * cf.num, cf.den)
  {
    var cf := Quotient(d.period, to);
    if d.period == to {
      QuotientExact(to, to);
      Swap(to.num, to.den);
      Product(to.num, to.den);
      Swap(cf.num, to.den * to.num);
      Swap(cf.den, to.den * to.num);
      Cancel(to.den * to.num, cf.num, cf.den);
      SelfCoprime(cf.num);
    }
    if cf.den == 1 {
      TruncOne(d.count * cf.num);
    }
  }

  lemma TruncOne(a: int)
    ensures Trunc(a, 1) == a
  {
  }

  lemma SelfCoprime(n: nat)
    requires n > 0 && Gcd(n, n) == 1
    ensures n == 1
  {
    Intro(n, 1, n);
    GcdGreatest(n, n, n);
    DividesOne(n);
  }

  /** How `k` ticks of the target period compare with a duration, in whole numbers. */
  lemma Ticks(k: int, to: Period, d: Duration)
    ensures var cf := Quotient(d.period, to);
      ((Seconds(Duration(k, to)) < Seconds(d) <==> k * cf.den < d.count * cf.num) &&
       (Seconds(d) < Seconds(Duration(k, to)) <==> d.count * cf.num < k * cf.den))
  {
    var cf := Quotient(d.period, to);
    var u, w := d.period.den * to.num, d.period.num * to.den;
    CrossProducts(Duration(k, to), d);
    CrossProducts(d, Duration(k, to));
    QuotientExact(d.period, to);
    Product(d.period.den, to.num);
    Product(d.period.num, to.den);
    Assoc(k, to.num, d.period.den);
    Swap(to.num, d.period.den);
    Assoc(d.count, d.period.num, to.den);
    Ratios(k, d.count, u, w, cf.num, cf.den);
  }

  lemma Ratios(k: int, c: int, u: nat, w: nat, n: nat, m: nat)
    requires n * u == m * w && u > 0 && w > 0 && n > 0 && m > 0
    ensures k * u < c * w <==> k * m < c * n
    ensures c * w < k * u <==> c * n < k * m
  {
    Cancel(m, k * u, c * w);
    Cancel(m, c * w, k * u);
    Cancel(u, k * m, c * n);
    Cancel(u, c * n, k * m);
    assert m * (k * u) == u * (k * m);
    assert m * (c * w) == c * (m * w);
    assert c * (n * u) == u * (c * n);
  }

  /** Conversion truncates toward zero: nothing is added, and less than one tick is lost. */
  lemma CastTruncates(to: Period, d: Duration)
    ensures Cast(to, d).period == to
    ensures var c := Cast(to, d).count;
      d.count >= 0 ==> c >= 0 && Seconds(Duration(c, to)) <= Seconds(d) < Seconds(Duration(c + 1, to))
    ensures var c := Cast(to, d).count;
      d.count <= 0 ==> c <= 0 && Seconds(Duration(c - 1, to)) < Seconds(d) <= Seconds(Duration(c, to))
  {
    var cf := Quotient(d.period, to);
    var c := Cast(to, d).count;
    CastForms(to, d);
    TruncBounds(d.count * cf.num, cf.den);
    Sign(d.count, cf.num);
    Ticks(c, to, d);
    Ticks(c + 1, to, d);
    Ticks(c - 1, to, d);
  }

  lemma Sign(x: int, y: nat)
    requires y > 0
    ensures x >= 0 ==> x * y >= 0
    ensures x <= 0 ==> x * y <= 0
  {
  }

  lemma TruncBounds(a: int, b: nat)
    requires b > 0
    ensures a >= 0 ==> 0 <= Trunc(a, b) && Trunc(a, b) * b <= a < (Trunc(a, b) + 1) * b
    ensures a <= 0 ==> Trunc(a, b) <= 0 && (Trunc(a, b) - 1) * b < a <= Trunc(a, b) * b
  {
    if a >= 0 {
      DivBounds(a, b);
    } else {
      var q := (0 - a) / b;
      DivBounds(0 - a, b);
      Negated(q, b);
      Negated(q + 1, b);
      assert Trunc(a, b) == 0 - q;
    }
    if a == 0 {
      Negated(1, b);
    }
  }

  lemma DivBounds(m: nat, b: nat)
    requires b > 0
    ensures 0 <= m / b && (m / b) * b <= m < (m / b + 1) * b
  {
    assert m == b * (m / b) + m % b;
  }

  lemma Negated(q: int, b: nat)
    ensures (0 - q) * b == 0 - q * b
  {
  }

  /** Conversion between two periods that is allowed to happen silently. */
  predicate Harmonic(p: Period, to: Period) {
    Quotient(p, to).den == 1
  }

  /** The test for a silent conversion is whether one period is a whole multiple of the other. */
  lemma HarmonicIsMultiple(p: Period, to: Period)
    ensures Harmonic(p, to) <==> WholeMultiple(p, to)
  {
    var cf := Quotient(p, to);
    QuotientExact(p, to);
    Swap(p.den, to.num);
    if Harmonic(p, to) {
      assert IsTimes(p, cf.num, to);
    }
    if WholeMultiple(p, to) {
      var k: nat :| IsTimes(p, k, to);
      Assoc(cf.den, k, to.num * p.den);
      Product(to.num, p.den);
      Swap(cf.num, to.num * p.den);
      Swap(cf.den * k, to.num * p.den);
      Cancel(to.num * p.den, cf.num, cf.den * k);
      DenDivides(cf, k);
    }
  }

  lemma DenDivides(r: Period, k: int)
    requires r.num == r.den * k
    ensures r.den == 1
  {
    Remainder(r.num, r.den, k, 0);
    Intro(r.den, 1, r.den);
    GcdGreatest(r.den, r.num, r.den);
    DividesOne(r.den);
  }

  /** And exactly then is the conversion exact for every count. */
  lemma HarmonicExact(p: Period, to: Period)
    ensures Harmonic(p, to) <==> forall n :: Seconds(Cast(to, Duration(n, p))) == Seconds(Duration(n, p))
  {
    var cf := Quotient(p, to);
    if Harmonic(p, to) {
      forall n ensures Seconds(Cast(to, Duration(n, p))) == Seconds(Duration(n, p)) {
        ExactWhenHarmonic(to, Duration(n, p));
      }
    }
    if forall n :: Seconds(Cast(to, Duration(n, p))) == Seconds(Duration(n, p)) {
      var one := Duration(1, p);
      CastForms(to, one);
      var k := Cast(to, one).count;
      assert Seconds(Cast(to, Duration(1, p))) == Seconds(Duration(1, p));
      assert Cast(to, one) == Duration(k, to);
      Ticks(k, to, one);
      Swap(k, cf.den);
      DenDivides(cf, k);
    }
  }

  lemma ExactWhenHarmonic(to: Period, d: Duration)
    requires Harmonic(d.period, to)
    ensures Seconds(Cast(to, d)) == Seconds(d) && Cast(to, d).period == to
  {
    CastForms(to, d);
    TruncOne(d.count * Quotient(d.period, to).num);
    var c := Cast(to, d);
    assert c == Duration(c.count, to);
    Ticks(c.count, to, d);
  }

  // ----- comparing durations of different periods -----

  predicate Equal(a: Duration, b: Duration) {
    var ct := CommonPeriod(a.period, b.period);
    Cast(ct, a).count == Cast(ct, b).count
  }

  predicate Less(a: Duration, b: Duration) {
    var ct := CommonPeriod(a.period, b.period);
    Cast(ct, a).count < Cast(ct, b).count
  }

  function Minus(a: Duration, b: Duration): Duration {
    var ct := CommonPeriod(a.period, b.period);
    Duration(Cast(ct, a).count - Cast(ct, b).count, ct)
  }

  lemma CommonConversions(a: Duration, b: Duration)
    ensures var ct := CommonPeriod(a.period, b.period);
      (Seconds(Duration(Cast(ct, a).count, ct)) == Seconds(a) &&
       Seconds(Duration(Cast(ct, b).count, ct)) == Seconds(b))
  {
    var ct := CommonPeriod(a.period, b.period);
    CommonBelow(a.period, b.period);
    HarmonicIsMultiple(a.period, ct);
    HarmonicIsMultiple(b.period, ct);
    ExactWhenHarmonic(ct, a);
    ExactWhenHarmonic(ct, b);
    assert Cast(ct, a) == Duration(Cast(ct, a).count, ct);
    assert Cast(ct, b) == Duration(Cast(ct, b).count, ct);
  }

  /** With one period, more ticks are more seconds. */
  lemma TicksOrdered(m: int, n: int, p: Period)
    ensures Seconds(Duration(m, p)) < Seconds(Duration(n, p)) <==> m < n
  {
    CrossProducts(Duration(m, p), Duration(n, p));
    Product(p.num, p.den);
    Assoc(m, p.num, p.den);
    Assoc(n, p.num, p.den);
    Swap(m, p.num * p.den);
    Swap(n, p.num * p.den);
    Cancel(p.num * p.den, n, m);
  }

  /** Mixed comparisons are comparisons of the exact lengths. */
  lemma ComparisonsExact(a: Duration, b: Duration)
    ensures Equal(a, b) <==> Seconds(a) == Seconds(b)
    ensures Less(a, b) <==> Seconds(a) < Seconds(b)
  {
    var ct := CommonPeriod(a.period, b.period);
    CommonConversions(a, b);
    TicksOrdered(Cast(ct, a).count, Cast(ct, b).count, ct);
    TicksOrdered(Cast(ct, b).count, Cast(ct, a).count, ct);
  }

  /** Mixed subtraction loses nothing. */
  lemma MinusExact(a: Duration, b: Duration)
    ensures Seconds(Minus(a, b)) == Seconds(a) - Seconds(b)
  {
    var ct := CommonPeriod(a.period, b.period);
    CommonConversions(a, b);
    Difference(Cast(ct, a).count, Cast(ct, b).count, ct.num, ct.den);
  }

  lemma Difference(x: int, y: int, n: nat, d: nat)
    requires d > 0
    ensures ((x - y) * n) as real / d as real == (x * n) as real / d as real - (y * n) as real / d as real
  {
    assert (x - y) * n == x * n - y * n;
    assert ((x - y) * n) as real == (x * n) as real - (y * n) as real;
  }

  // ----- rounding -----

  function Floor(to: Period, d: Duration): Duration {
    var t := Cast(to, d);
    if Less(d, t) then Duration(t.count - 1, to) else t
  }

  function Ceil(to: Period, d: Duration): Duration {
    var t := Cast(to, d);
    if Less(t, d) then Duration(t.count + 1, to) else t
  }

  function Round(to: Period, d: Duration): Duration {
    var t0 := Floor(to, d);
    var t1 := Duration(t0.count + 1, to);
    var diff0 := Minus(d, t0);
    var diff1 := Minus(t1, d);
    if Equal(diff0, diff1) then (if t0.count % 2 == 1 then t1 else t0)
    else if Less(diff0, diff1) then t0
    else t1
  }

  /** Truncation brackets the duration between neighbouring ticks, on the side that its sign says. */
  ghost predicate Truncated(c: int, to: Period, x: real) {
    || Seconds(Duration(c, to)) <= x < Seconds(Duration(c + 1, to))
    || Seconds(Duration(c - 1, to)) < x <= Seconds(Duration(c, to))
  }

  lemma Corrected(c: int, to: Period, x: real)
    requires Truncated(c, to, x)
    ensures x < Seconds(Duration(c, to)) ==> Seconds(Duration(c - 1, to)) < x
    ensures x >= Seconds(Duration(c, to)) ==> x < Seconds(Duration(c + 1, to))
    ensures x > Seconds(Duration(c, to)) ==> x < Seconds(Duration(c + 1, to))
    ensures x <= Seconds(Duration(c, to)) ==> Seconds(Duration(c - 1, to)) < x
  {
    TicksOrdered(c - 1, c, to);
    TicksOrdered(c, c + 1, to);
  }

  lemma CastTruncated(to: Period, d: Duration)
    ensures Cast(to, d) == Duration(Cast(to, d).count, to)
    ensures Truncated(Cast(to, d).count, to, Seconds(d))
  {
    CastTruncates(to, d);
  }

  lemma FloorBrackets(to: Period, d: Duration)
    ensures Floor(to, d) == Duration(Floor(to, d).count, to)
    ensures Seconds(Duration(Floor(to, d).count, to)) <= Seconds(d) < Seconds(Duration(Floor(to, d).count + 1, to))
  {
    CastTruncated(to, d);
    var t := Cast(to, d);
    ComparisonsExact(d, t);
    Corrected(t.count, to, Seconds(d));
    assert (t.count - 1) + 1 == t.count;
  }

  lemma CeilBrackets(to: Period, d: Duration)
    ensures Ceil(to, d) == Duration(Ceil(to, d).count, to)
    ensures Seconds(Duration(Ceil(to, d).count - 1, to)) < Seconds(d) <= Seconds(Duration(Ceil(to, d).count, to))
  {
    CastTruncated(to, d);
    var t := Cast(to, d);
    ComparisonsExact(t, d);
    Corrected(t.count, to, Seconds(d));
    assert (t.count + 1) - 1 == t.count;
  }

  lemma Bracketed(f: int, k: int, to: Period, x: real)
    ensures Seconds(Duration(f, to)) <= x < Seconds(Duration(f + 1, to)) ==>
      (Seconds(Duration(k, to)) <= x <==> k <= f)
    ensures Seconds(Duration(f, to)) < x <= Seconds(Duration(f + 1, to)) ==>
      (x <= Seconds(Duration(k, to)) <==> f < k)
  {
    TicksOrdered(f, k, to);
    TicksOrdered(k, f, to);
    TicksOrdered(k, f + 1, to);
    TicksOrdered(f + 1, k, to);
  }

  /** The greatest whole number of target ticks that does not exceed the duration. */
  lemma FloorGreatest(to: Period, d: Duration)
    ensures Floor(to, d).period == to
    ensures forall k: int :: Seconds(Duration(k, to)) <= Seconds(d) <==> k <= Floor(to, d).count
  {
    FloorBrackets(to, d);
    var f := Floor(to, d).count;
    forall k: int ensures Seconds(Duration(k, to)) <= Seconds(d) <==> k <= f {
      Bracketed(f, k, to, Seconds(d));
    }
  }

  /** The least whole number of target ticks that is not below the duration. */
  lemma CeilLeast(to: Period, d: Duration)
    ensures Ceil(to, d).period == to
    ensures forall k: int :: Seconds(d) <= Seconds(Duration(k, to)) <==> Ceil(to, d).count <= k
  {
    CeilBrackets(to, d);
    var c := Ceil(to, d).count;
    forall k: int ensures Seconds(d) <= Seconds(Duration(k, to)) <==> c <= k {
      Bracketed(c - 1, k, to, Seconds(d));
    }
  }

  /** How far `k` target ticks are from a duration. */
  ghost function Distance(k: int, to: Period, d: Duration): real {
    var x := Seconds(Duration(k, to)) - Seconds(d);
    if x < 0.0 then 0.0 - x else x
  }

  /** The two differences that are compared are the distances to the two neighbours. */
  lemma Gaps(to: Period, d: Duration)
    ensures var f := Floor(to, d).count; var t1 := Duration(f + 1, to);
      (Floor(to, d) == Duration(f, to) &&
       Seconds(Minus(d, Floor(to, d))) == Distance(f, to, d) && Seconds(Minus(t1, d)) == Distance(f + 1, to, d))
  {
    FloorBrackets(to, d);
    MinusExact(d, Floor(to, d));
    MinusExact(Duration(Floor(to, d).count + 1, to), d);
  }

  /** Which of its two neighbours a duration is rounded to. */
  lemma RoundChoice(to: Period, d: Duration)
    ensures var f := Floor(to, d).count;
      Round(to, d) == Duration(Nearer(f, Distance(f, to, d), Distance(f + 1, to, d)), to)
  {
    var t0 := Floor(to, d);
    var t1 := Duration(t0.count + 1, to);
    Gaps(to, d);
    ComparisonsExact(Minus(d, t0), Minus(t1, d));
  }

  /** The nearer of `f` and `f + 1`, or the even one, by their distances. */
  ghost function Nearer(f: int, below: real, above: real): int {
    if below < above then f
    else if above < below then f + 1
    else if f % 2 == 0 then f else f + 1
  }

  lemma Further(f: int, k: int, to: Period, d: Duration)
    requires Seconds(Duration(f, to)) <= Seconds(d) < Seconds(Duration(f + 1, to))
    ensures k < f ==> Distance(k, to, d) > Distance(f, to, d)
    ensures k > f + 1 ==> Distance(k, to, d) > Distance(f + 1, to, d)
  {
    TicksOrdered(k, f, to);
    TicksOrdered(f + 1, k, to);
  }

  /** No number of ticks is nearer than the rounded one, and it is even if one is as near. */
  lemma RoundNearest(to: Period, d: Duration)
    ensures Round(to, d).period == to
    ensures forall k: int | k != Round(to, d).count :: NoNearer(Round(to, d).count, k, to, d)
  {
    RoundChoice(to, d);
    FloorBrackets(to, d);
    var f := Floor(to, d).count;
    var r := Round(to, d).count;
    forall k: int | k != r ensures NoNearer(r, k, to, d) {
      Further(f, k, to, d);
      Nearest(f, r, k, to, d);
    }
  }

  ghost predicate NoNearer(r: int, k: int, to: Period, d: Duration) {
    Distance(r, to, d) <= Distance(k, to, d) && (Distance(r, to, d) == Distance(k, to, d) ==> r % 2 == 0)
  }

  lemma Nearest(f: int, r: int, k: int, to: Period, d: Duration)
    requires r == Nearer(f, Distance(f, to, d), Distance(f + 1, to, d)) && k != r
    requires k < f ==> Distance(k, to, d) > Distance(f, to, d)
    requires k > f + 1 ==> Distance(k, to, d) > Distance(f + 1, to, d)
    ensures NoNearer(r, k, to, d)
  {
    NearerBest(f, r, k, Distance(f, to, d), Distance(f + 1, to, d), Distance(k, to, d));
  }

  lemma NearerBest(f: int, r: int, k: int, below: real, above: real, other: real)
    requires r == Nearer(f, below, above) && k != r
    requires k < f ==> other > below
    requires k > f + 1 ==> other > above
    requires k == f ==> other == below
    requires k == f + 1 ==> other == above
    ensures var mine := if r == f then below else above; mine <= other && (mine == other ==> r % 2 == 0)
  {
  }
}
