/** Greatest common divisors and what follows from them. */
module Gcds {

  predicate Divides(d: nat, n: nat) {
    d > 0 && n % d == 0
  }

  lemma Intro(d: nat, k: nat, n: nat)
    requires d > 0 && n == d * k
    ensures Divides(d, n)
  {
    Remainder(n, d, k, 0);
  }

  /** The whole number of times `d` goes into `n`. */
  function Over(n: nat, d: nat): (k: nat)
    requires d > 0
    ensures Divides(d, n) ==> n == d * k
  {
    n / d
  }

  lemma Remainder(n: nat, d: nat, q: int, r: nat)
    requires d > 0 && r < d && n == d * q + r
    ensures n / d == q && n % d == r
  {
    var k := n / d - q;
    assert n == d * (n / d) + n % d;
    assert d * k == d * (n / d) - d * q;
    if k >= 1 {
      Stretch(d, k);
    } else if k < 0 {
      Stretch(d, 0 - k);
    }
  }

  lemma Stretch(d: nat, k: int)
    requires k >= 1
    ensures d * k >= d
  {
  }

  /** The recursive form of the algorithm. */
  function Gcd(m: nat, n: nat): nat
    decreases n
  {
    if n == 0 then m else Gcd(n, m % n)
  }

  lemma {:induction false} Bezout(m: nat, n: nat) returns (a: int, b: int)
    ensures Gcd(m, n) == a * m + b * n
    decreases n
  {
    if n == 0 {
      a, b := 1, 0;
    } else {
      var c, e := Bezout(n, m % n);
      a, b := e, c - e * (m / n);
      Regroup(m, n, c, e, m / n, m % n);
    }
  }

  lemma Regroup(m: nat, n: nat, c: int, e: int, q: nat, r: nat)
    requires m == n * q + r
    ensures c * n + e * r == e * m + (c - e * q) * n
  {
    assert e * m == e * (n * q) + e * r;
    assert (c - e * q) * n == c * n - (e * q) * n;
  }

  lemma {:induction false} GcdDivides(m: nat, n: nat)
    requires m > 0 || n > 0
    ensures Divides(Gcd(m, n), m) && Divides(Gcd(m, n), n)
    decreases n
  {
    if n == 0 {
      Intro(m, 1, m);
    } else {
      GcdDivides(n, m % n);
      var g := Gcd(m, n);
      assert m == n * (m / n) + m % n;
      Extended(g, m, n, m / n, m % n);
    }
  }

  /** What divides the divisor and the remainder divides the dividend. */
  lemma Extended(g: nat, m: nat, n: nat, q: nat, r: nat)
    requires Divides(g, n) && Divides(g, r) && m == n * q + r
    ensures Divides(g, m)
  {
    var s, t := Over(n, g), Over(r, g);
    Multiple(g, s, q, t);
    Remainder(m, g, s * q + t, 0);
  }

  lemma Multiple(g: nat, s: int, q: int, t: int)
    ensures (g * s) * q + g * t == g * (s * q + t)
  {
  }

  lemma Combined(d: nat, a: int, x: int, b: int, y: int)
    ensures a * (d * x) + b * (d * y) == d * (a * x + b * y)
  {
    assert a * (d * x) == d * (a * x);
    assert b * (d * y) == d * (b * y);
  }

  lemma {:induction false} GcdGreatest(d: nat, m: nat, n: nat)
    requires Divides(d, m) && Divides(d, n)
    ensures Divides(d, Gcd(m, n))
  {
    var a, b := Bezout(m, n);
    var s, t := Over(m, d), Over(n, d);
    Combined(d, a, s, b, t);
    Remainder(Gcd(m, n), d, a * s + b * t, 0);
  }

  lemma DividesOne(d: nat)
    requires Divides(d, 1)
    ensures d == 1
  {
    if d > 1 {
      Remainder(1, d, 0, 1);
    }
  }

  /** Two numbers that some combination turns into one are coprime. */
  lemma Coprime(m: nat, n: nat, a: int, b: int)
    requires a * m + b * n == 1
    ensures Gcd(m, n) == 1
  {
    assert m > 0 || n > 0;
    GcdDivides(m, n);
    var g := Gcd(m, n);
    var s, t := Over(m, g), Over(n, g);
    Combined(g, a, s, b, t);
    Remainder(1, g, a * s + b * t, 0);
    DividesOne(g);
  }

  /** Divided by their greatest common divisor, two numbers become coprime. */
  lemma CofactorsCoprime(m: nat, n: nat)
    requires m > 0 || n > 0
    ensures Gcd(m, n) > 0 && Gcd(Over(m, Gcd(m, n)), Over(n, Gcd(m, n))) == 1
  {
    GcdDivides(m, n);
    var g := Gcd(m, n);
    var a, b := Bezout(m, n);
    var s, t := Over(m, g), Over(n, g);
    Combined(g, a, s, b, t);
    Cancel(g, a * s + b * t, 1);
    Coprime(s, t, a, b);
  }

  lemma Cancel(g: nat, x: int, y: int)
    requires g > 0
    ensures g * x == g * y <==> x == y
    ensures g * x <= g * y <==> x <= y
  {
    if x < y { Ordered(g, x, y); } else if y < x { Ordered(g, y, x); }
  }

  lemma Ordered(g: nat, x: int, y: int)
    requires g > 0 && x < y
    ensures g * x < g * y
  {
    Stretch(g, y - x);
    assert g * (y - x) == g * y - g * x;
  }

  /** Euclid's lemma. */
  lemma {:induction false} Euclid(a: nat, b: nat, c: nat)
    requires Gcd(a, b) == 1 && Divides(a, b * c)
    ensures Divides(a, c)
  {
    var s, t := Bezout(a, b);
    var k := Over(b * c, a);
    assert c == (s * a + t * b) * c;
    Shared(s, a, t, b, c, k);
    Remainder(c, a, s * c + t * k, 0);
  }

  lemma Shared(s: int, a: int, t: int, b: int, c: int, k: int)
    requires b * c == a * k
    ensures (s * a + t * b) * c == a * (s * c + t * k)
  {
    assert (s * a + t * b) * c == s * a * c + t * b * c;
    assert t * b * c == t * (b * c);
    assert t * (a * k) == a * (t * k);
    assert s * a * c == a * (s * c);
  }

  /** The least common multiple, as it is computed. */
  function Lcm(a: nat, b: nat): nat
    requires Gcd(a, b) > 0
  {
    Over(a, Gcd(a, b)) * b
  }

  lemma LcmMultiple(a: nat, b: nat)
    requires a > 0 && b > 0
    ensures Gcd(a, b) > 0 && Lcm(a, b) > 0 && Divides(a, Lcm(a, b)) && Divides(b, Lcm(a, b))
  {
    GcdDivides(a, b);
    var g := Gcd(a, b);
    var s, t := Over(a, g), Over(b, g);
    Positive(g, s);
    Product(s, b);
    Swap(s, b);
    Intro(b, s, Lcm(a, b));
    Assoc(g, s, t);
    Swap(s, g * t);
    Assoc(g, t, s);
    Swap(t, s);
    Intro(a, t, Lcm(a, b));
  }

  lemma Positive(g: nat, s: nat)
    requires g * s > 0
    ensures s > 0
  {
  }

  lemma Product(x: nat, y: nat)
    requires x > 0 && y > 0
    ensures x * y > 0
  {
  }

  lemma LcmLeast(a: nat, b: nat, y: nat)
    requires a > 0 && b > 0 && Divides(a, y) && Divides(b, y)
    ensures Gcd(a, b) > 0 && Divides(Lcm(a, b), y)
  {
    CofactorsCoprime(a, b);
    LcmMultiple(a, b);
    GcdDivides(a, b);
    var g := Gcd(a, b);
    LeastOfCofactors(g, Over(a, g), Over(b, g), Over(y, a), Over(y, b), y);
  }

  lemma LeastOfCofactors(g: nat, a: nat, b: nat, s: nat, t: nat, y: nat)
    requires g > 0 && a > 0 && Gcd(a, b) == 1 && y == (g * a) * s && y == (g * b) * t && a * (g * b) > 0
    ensures Divides(a * (g * b), y)
  {
    Assoc(g, a, s);
    Assoc(g, b, t);
    Cancel(g, a * s, b * t);
    Intro(a, s, b * t);
    Euclid(a, b, t);
    var u := Over(t, a);
    Assoc(g * b, a, u);
    Swap(g * b, a);
    Intro(a * (g * b), u, y);
  }

  lemma Assoc(x: int, y: int, z: int)
    ensures (x * y) * z == x * (y * z)
  {
  }

  lemma Swap(x: int, y: int)
    ensures x * y == y * x
  {
  }

  /** The loop. */
  method GcdLoop(m0: nat, n0: nat) returns (r: nat)
    requires n0 > 0
    ensures r == Gcd(m0, n0)
    ensures Divides(r, m0) && Divides(r, n0)
    ensures forall d | Divides(d, m0) && Divides(d, n0) :: Divides(d, r)
  {
    GcdDivides(m0, n0);
    forall d | Divides(d, m0) && Divides(d, n0) ensures Divides(d, Gcd(m0, n0)) {
      GcdGreatest(d, m0, n0);
    }
    var m, n := m0, n0;
    while true
      invariant n > 0 && Gcd(m, n) == Gcd(m0, n0)
      decreases n
    {
      var rem := m % n;
      m := n;
      n := rem;
      if n == 0 {
        return m;
      }
    }
  }
}
