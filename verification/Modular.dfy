/** Powers, congruences and greatest common divisors. */
module Modular {
  import opened Integers

  function Power(x: int, n: nat): int {
    if n == 0 then 1 else x * Power(x, n - 1)
  }

  lemma {:induction false} PowerSum(x: int, m: nat, n: nat)
    ensures Power(x, m + n) == Power(x, m) * Power(x, n)
  {
    if m > 0 {
      PowerSum(x, m - 1, n);
      Associate(x, Power(x, m - 1), Power(x, n));
    }
  }

  lemma MulMod(x: int, y: int, n: int)
    requires n > 0
    ensures (x * y) % n == ((x % n) * (y % n)) % n
  {
    var p, r, q, s := x / n, x % n, y / n, y % n;
    assert x == n * p + r && y == n * q + s;
    var k := p * (n * q + s) + r * q;
    assert x * y == r * s + n * k by {
      MulModParts(n, p, r, q, s);
    }
    ModPlusMultiple(r * s, n, k);
  }

  lemma MulModParts(n: int, p: int, r: int, q: int, s: int)
    ensures (n * p + r) * (n * q + s) == r * s + n * (p * (n * q + s) + r * q)
  {
    var y := n * q + s;
    assert (n * p + r) * y == n * p * y + r * y;
    assert r * y == r * s + n * (r * q);
    assert n * p * y + n * (r * q) == n * (p * y + r * q);
  }

  lemma CongruentProduct(x: int, y: int, x': int, y': int, n: int)
    requires n > 0 && x % n == x' % n && y % n == y' % n
    ensures (x * y) % n == (x' * y') % n
  {
    MulMod(x, y, n);
    MulMod(x', y', n);
  }

  /** Once a power of x is a multiple of n, all higher powers are. */
  lemma PowerStaysMultiple(x: int, m: nat, k: nat, n: int)
    requires n > 0 && m <= k && Power(x, m) % n == 0
    ensures Power(x, k) % n == 0
  {
    PowerSum(x, m, k - m);
    hide Power;
    MultipleTimes(Power(x, m), Power(x, k - m), n);
  }

  lemma MultipleTimes(p: int, f: int, n: int)
    requires n > 0 && p % n == 0
    ensures (p * f) % n == 0
  {
    var u := p / n;
    Divide(p, n);
    Associate(n, u, f);
    DivisionUnique(p * f, n, u * f, 0);
  }

  // ----- Greatest common divisors -----

  function Gcd(a: nat, b: nat): nat
    decreases b
  {
    if b == 0 then a else Gcd(b, a % b)
  }

  ghost predicate Divides(d: int, x: int) {
    exists k :: x == d * k
  }

  lemma DividesCombination(d: int, x: int, y: int, u: int)
    requires Divides(d, x) && Divides(d, y)
    ensures Divides(d, x + u * y)
  {
    var k, l :| x == d * k && y == d * l;
    assert x + u * y == d * (k + u * l);
  }

  /** Euclid's recursion yields a common divisor that every common divisor divides. */
  lemma {:induction false} GcdIsGreatest(a: nat, b: nat)
    ensures Divides(Gcd(a, b), a) && Divides(Gcd(a, b), b)
    ensures forall d | Divides(d, a) && Divides(d, b) :: Divides(d, Gcd(a, b))
    decreases b
  {
    if b == 0 {
      assert a == a * 1 && 0 == a * 0;
    } else {
      var q, r := a / b, a % b;
      GcdIsGreatest(b, r);
      assert r + q * b == a && a + -q * b == r;
      DividesCombination(Gcd(b, r), r, b, q);
      forall d | Divides(d, a) && Divides(d, b)
        ensures Divides(d, Gcd(a, b))
      {
        DividesCombination(d, a, b, -q);
        assert Divides(d, r);
      }
    }
  }

  /** Only numbers without a common factor have an inverse. */
  lemma InverseNeedsCoprime(e: nat, d: int, g: nat)
    requires g > 1 && (e * d) % g == 1
    ensures Gcd(g, e) == 1
  {
    var h := Gcd(g, e);
    GcdIsGreatest(g, e);
    var q := (e * d) / g;
    assert e * d == g * q + 1;
    var k, l :| g == h * k && e == h * l;
    Associate(h, l, d);
    Associate(h, k, q);
    assert h * (l * d - k * q) == 1;
    UnitDivisor(h, l * d - k * q);
  }

  lemma UnitDivisor(h: nat, x: int)
    requires h * x == 1
    ensures h == 1
  {
    if h >= 2 {
      if x >= 1 {
        MulMonotone(2, h, x);
      } else {
        MulMonotone(x, 0, h);
      }
    }
  }

  // ----- Extended Euclid -----

  function Abs(x: int): nat {
    if x < 0 then -x else x
  }

  /**
   What the extended Euclid loop keeps: both remainders are multiples of e modulo g, the factors
   alternate in sign, and their cross products with the remainders always add up to g.
   */
  ghost predicate Bezout(g: int, e: int, n1: int, n2: int, b1: int, b2: int) {
    && 0 < e < g && 0 < n2 < n1
    && (b1 * e) % g == n1 % g && (b2 * e) % g == n2 % g
    && Gcd(n1, n2) == Gcd(g, e)
    && Abs(b2) * n1 + Abs(b1) * n2 == g
    && (if b2 > 0 then b1 <= 0 else b2 < 0 && b1 > 0)
  }

  lemma BezoutStart(g: int, e: int)
    requires 0 < e < g
    ensures Bezout(g, e, g, e, 0, 1)
  {
    ModPlusMultiple(0, g, 1);
  }

  lemma CongruentGap(x: int, y: int, n: int) returns (u: int)
    requires n > 0 && x % n == y % n
    ensures x == y + n * u
  {
    u := x / n - y / n;
    assert x == n * (x / n) + x % n && y == n * (y / n) + y % n;
    assert n * u == n * (x / n) - n * (y / n);
  }

  lemma CombineCongruences(g: int, e: int, n1: int, n2: int, b1: int, b2: int, k: int)
    requires g > 0 && (b1 * e) % g == n1 % g && (b2 * e) % g == n2 % g
    ensures ((b1 - k * b2) * e) % g == (n1 - k * n2) % g
  {
    var u := CongruentGap(b1 * e, n1, g);
    var v := CongruentGap(b2 * e, n2, g);
    CombineMultiples(g, e, n1, n2, b1, b2, k, u, v);
    ModPlusMultiple(n1 - k * n2, g, u - k * v);
  }

  lemma CombineMultiples(g: int, e: int, n1: int, n2: int, b1: int, b2: int, k: int, u: int, v: int)
    requires b1 * e == n1 + g * u && b2 * e == n2 + g * v
    ensures (b1 - k * b2) * e == n1 - k * n2 + g * (u - k * v)
  {
    assert (b1 - k * b2) * e == b1 * e - k * (b2 * e);
    assert k * (n2 + g * v) == k * n2 + g * (k * v);
    assert g * (u - k * v) == g * u - g * (k * v);
  }

  /** The signs alternate, so magnitudes only add up. */
  lemma AlternatingSigns(b1: int, b2: int, k: int)
    requires k >= 1 && if b2 > 0 then b1 <= 0 else b2 < 0 && b1 > 0
    ensures Abs(b1 - k * b2) == Abs(b1) + k * Abs(b2)
    ensures k * Abs(b2) == Abs(k * b2) >= Abs(b2) > 0
    ensures if b2 > 0 then b1 - k * b2 < 0 else b1 - k * b2 > 0
  {
    MulMonotone(1, k, Abs(b2));
    assert k * -b2 == -(k * b2);
  }

  lemma CrossProducts(x1: int, x2: int, n1: int, n2: int, k: int, r: int)
    requires n1 == n2 * k + r
    ensures (x1 + k * x2) * n2 + x2 * r == x2 * n1 + x1 * n2
  {
    assert (x1 + k * x2) * n2 == x1 * n2 + x2 * (n2 * k);
    assert x2 * (n2 * k + r) == x2 * (n2 * k) + x2 * r;
  }

  lemma BezoutStep(g: int, e: int, n1: int, n2: int, b1: int, b2: int)
    requires Bezout(g, e, n1, n2, b1, b2) && n1 % n2 != 0
    ensures Bezout(g, e, n2, n1 % n2, b2, b1 - (n1 / n2) * b2)
  {
    var k, r := n1 / n2, n1 % n2;
    assert n1 == n2 * k + r;
    assert k * n2 == n2 * k;
    QuotientPositive(n1, n2);
    CombineCongruences(g, e, n1, n2, b1, b2, k);
    AlternatingSigns(b1, b2, k);
    CrossProducts(Abs(b1), Abs(b2), n1, n2, k, r);
  }

  lemma QuotientPositive(n1: int, n2: int)
    requires 0 < n2 < n1
    ensures n1 / n2 >= 1
  {
    var q := n1 / n2;
    assert n1 == n2 * q + n1 % n2;
    if q <= 0 {
      MulMonotone(q, 0, n2);
    }
  }

  lemma CrossBounds(x1: nat, x2: nat, n1: int, n2: int, g: int)
    requires x2 * n1 + x1 * n2 == g && n1 > n2 > 0 && x2 > 0
    ensures x1 <= g && x2 < g && n1 <= g
  {
    var p, q := x2 * n1, x1 * n2;
    assert p >= 2 * x2 by { MulMonotone(2, n1, x2); }
    assert p >= n1 by { MulMonotone(1, x2, n1); }
    assert q >= x1 by { MulMonotone(1, n2, x1); }
  }

  /** The factor stays below g. */
  lemma BezoutBounds(g: int, e: int, n1: int, n2: int, b1: int, b2: int)
    requires Bezout(g, e, n1, n2, b1, b2)
    ensures Abs(b1) <= g && 0 < Abs(b2) < g && n1 <= g
  {
    CrossBounds(Abs(b1), Abs(b2), n1, n2, g);
  }

  /** When the remainder vanishes, b2 reduced modulo g solves e * d = gcd modulo g. */
  lemma BezoutEnd(g: int, e: int, n1: int, n2: int, b1: int, b2: int, d: int)
    requires Bezout(g, e, n1, n2, b1, b2) && n1 % n2 == 0
    requires d == (b2 + g) % g
    ensures 0 <= d < g && (e * d) % g == Gcd(g, e) % g
  {
    assert Gcd(n2, 0) == n2;
    ReducedFactor(b2, g, d);
    hide Gcd;
    CongruentProduct(e, d, e, b2, g);
    assert e * b2 == b2 * e;
  }

  lemma ReducedFactor(b: int, g: int, d: int)
    requires g > 0 && d == (b + g) % g
    ensures 0 <= d < g && d % g == b % g
  {
    ModPlusMultiple(b, g, 1);
    SmallMod(b, g);
  }

  lemma SmallMod(x: int, n: int)
    requires n > 0
    ensures 0 <= x % n < n && (x % n) % n == x % n
  {
    Divide(x, n);
    DivisionUnique(x % n, n, 0, x % n);
  }
}
