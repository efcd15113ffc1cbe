/** Modular exponentiation, coprimality and the private exponent, as in rsa.cpp. */
module Rsa {
  import opened Decimal
  import opened Integers
  import opened Modular
  import opened Bignum
  import opened BignumArithmetic
  import opened BignumDivision

  const HALF := 49  // digits of a factor whose products fit

  lemma SmallerIsNoLonger(a: seq<int>, b: seq<int>)
    requires Natural(a) && Natural(b) && Mag(a) <= Mag(b)
    ensures Len(a) <= Len(b)
  {
    TidyBounds(a);
    TidyBounds(b);
    if Len(a) > Len(b) {
      Pow10Monotone(Len(b), Len(a) - 1);
    }
  }

  // ----- Exponentiation -----

  /** A factor below the modulus n; a zero may carry leading zeros, but no more digits than n. */
  ghost predicate Residue(x: seq<int>, n: seq<int>)
    requires Natural(n)
  {
    && |x| == RSA_MAX && WellFormed(x) && !Negative(x)
    && 1 <= Len(x) <= Len(n)
    && 0 <= Mag(x) < Mag(n)
    && (Canonical(x) || Mag(x) == 0)
  }

  lemma NaturalIsResidue(x: seq<int>, n: seq<int>)
    requires Natural(x) && Natural(n) && Mag(x) < Mag(n)
    ensures Residue(x, n)
  {
    SmallerIsNoLonger(x, n);
    TidyBounds(x);
  }

  /** The product may go into divt: if it is zero it is not longer than n. */
  lemma ProductIsDividend(x: seq<int>, y: seq<int>, z: seq<int>, n: seq<int>)
    requires Natural(n) && Natural(y) && Len(y) <= HALF && Len(n) <= HALF
    requires Residue(x, n) || (Natural(x) && Len(x) <= HALF)
    requires Mag(x) == 0 ==> Mag(y) == 0
    requires Mag(y) == 0 ==> Len(x) <= Len(n)
    requires |z| == RSA_MAX && IsProduct(x, y, z)
    ensures Dividend(z, n)
  {
    TidyBounds(y);
    if Mag(y) == 0 {
      ZeroProduct(x, y, z);
    } else {
      ProductTidy(x, y, z);
    }
  }

  /** What square-and-multiply keeps: temp is a^j and m is a^k modulo n, with j + k * b the exponent. */
  ghost predicate Invariant(b: seq<int>, temp: seq<int>, m: seq<int>, n: seq<int>, a: int, p: int, j: nat, k: nat) {
    && Natural(n) && Mag(n) >= 2 && Len(n) <= HALF
    && Natural(b) && Mag(b) >= 1 && Len(b) <= RSA_MAX - 2
    && j < k && p == j + k * Mag(b)
    && Residue(temp, n) && Natural(m) && Len(m) <= HALF
    && (Mag(temp) == 0 ==> Mag(m) == 0) && (Mag(m) < Mag(n) || Mag(temp) == 1)
    && Mag(temp) % Mag(n) == Power(a, j) % Mag(n)
    && Mag(m) % Mag(n) == Power(a, k) % Mag(n)
  }

  /** Five different arrays of the layout. */
  predicate Distinct(a: array<int>, b: array<int>, c: array<int>, d: array<int>, e: array<int>) {
    && a.Length == b.Length == c.Length == d.Length == e.Length == RSA_MAX
    && a != b && a != c && a != d && a != e && b != c && b != d && b != e && c != d && c != e && d != e
  }

  // The scratch arrays c and s of expmod are cleared before every use, so they are local here.

  /** temp := temp * m mod n. */
  method MultiplyMod(temp: array<int>, m: array<int>, n: array<int>, w: array<int>)
    requires temp.Length == m.Length == n.Length == w.Length == RSA_MAX
    requires temp != m && temp != n && temp != w && m != n && m != w && n != w
    requires Natural(n[..]) && Len(n[..]) <= HALF && Residue(temp[..], n[..])
    requires Natural(m[..]) && Len(m[..]) <= HALF && (Mag(temp[..]) == 0 ==> Mag(m[..]) == 0)
    modifies temp, w
    ensures n[..] == old(n[..]) && Residue(temp[..], n[..])
    ensures Mag(temp[..]) == old(Mag(temp[..]) * Mag(m[..])) % Mag(n[..])
  {
    ghost var X, Y, N := temp[..], m[..], n[..];
    var c := new int[RSA_MAX](_ => 0);
    Clear(w, 0);
    Mul(temp, m, w);
    assert temp[..] == X && m[..] == Y && n[..] == N;
    ProductIsDividend(X, Y, w[..], N);
    Mov(w, temp);
    ghost var T := temp[..];
    assert m[..] == Y && n[..] == N;
    Clear(w, 0);
    assert temp[..] == T && n[..] == N;
    Divt(temp, n, w, c);
    assert temp[..] == T && n[..] == N;
    Mov(c, temp);
    if Canonical(T) {
      NaturalIsResidue(temp[..], N);
    }
  }

  /** m := m * m mod n; the quotient array w comes in with whatever it holds. */
  method SquareMod(m: array<int>, n: array<int>, w: array<int>)
    requires m.Length == n.Length == w.Length == RSA_MAX && m != n && m != w && n != w
    requires Natural(n[..]) && Mag(n[..]) > 0 && Len(n[..]) <= HALF
    requires Natural(m[..]) && Len(m[..]) <= HALF
    modifies m, w
    ensures n[..] == old(n[..]) && Natural(m[..]) && Mag(m[..]) < Mag(n[..])
    ensures Mag(m[..]) == old(Mag(m[..]) * Mag(m[..])) % Mag(n[..])
  {
    ghost var Y, N := m[..], n[..];
    var s, c := new int[RSA_MAX](_ => 0), new int[RSA_MAX](_ => 0);
    Mul(m, m, s);
    assert m[..] == Y && n[..] == N;
    TidyBounds(N);
    TidyBounds(Y);
    if Mag(Y) == 0 {
      ZeroProduct(Y, Y, s[..]);
    } else {
      ProductTidy(Y, Y, s[..]);
    }
    Divt(s, n, w, c);
    assert n[..] == N;
    Mov(c, m);
  }

  /** A reduced factor is zero once the other one is. */
  lemma ZeroStays(a: int, j: nat, k: nat, x: int, y: int, n: int)
    requires n > 0 && j <= k && 0 <= x < n && 0 <= y < n
    requires x % n == Power(a, j) % n && y % n == Power(a, k) % n
    requires x == 0
    ensures y == 0
  {
    DivisionUnique(0, n, 0, 0);
    PowerStaysMultiple(a, j, k, n);
    hide Power;
    DivisionUnique(y, n, 0, y);
  }

  lemma ProductOfPowers(a: int, i: nat, j: nat, x: int, y: int, n: int)
    requires n > 0 && x % n == Power(a, i) % n && y % n == Power(a, j) % n
    ensures (x * y) % n == Power(a, i + j) % n
  {
    PowerSum(a, i, j);
    CongruentProduct(x, y, Power(a, i), Power(a, j), n);
  }

  lemma Halving(p: int, j: int, k: int, b: int)
    requires p == j + k * b
    ensures p == (if b % 2 == 1 then j + k else j) + (2 * k) * (b / 2)
  {
    var h := b / 2;
    assert k * (2 * h) == (2 * k) * h;
    if b % 2 == 1 {
      assert b == 2 * h + 1;
      assert k * (2 * h + 1) == k * (2 * h) + k;
    } else {
      assert b == 2 * h;
    }
  }

  /** One round on numbers: x = a^j and y = a^k become a^j' and a^2k, and the exponent is kept. */
  lemma Round(a: int, p: int, j: nat, k: nat, b: int, x: int, y: int, n: int, x': int, y': int)
    requires n > 0 && j < k && p == j + k * b
    requires x % n == Power(a, j) % n && y % n == Power(a, k) % n
    requires 0 <= x' < n && x' == if b % 2 == 1 then (x * y) % n else x
    requires y' == (y * y) % n
    ensures p == (if b % 2 == 1 then j + k else j) + (2 * k) * (b / 2)
    ensures x' % n == Power(a, if b % 2 == 1 then j + k else j) % n && y' % n == Power(a, 2 * k) % n
    ensures x' == 0 ==> y' == 0
  {
    Halving(p, j, k, b);
    SmallMod(y * y, n);
    ProductOfPowers(a, k, k, y, y, n);
    var j' := if b % 2 == 1 then j + k else j;
    assert x' % n == Power(a, j') % n by {
      if b % 2 == 1 {
        SmallMod(x * y, n);
        ProductOfPowers(a, j, k, x, y, n);
      }
    }
    assert y' % n == Power(a, 2 * k) % n by {
      assert k + k == 2 * k;
    }
    if x' == 0 {
      ZeroStays(a, j', 2 * k, x', y', n);
    }
  }

  /** One round: b is halved, temp takes m along if b was odd, m is squared. */
  lemma InvariantStep(b: seq<int>, temp: seq<int>, m: seq<int>, n: seq<int>, a: int, p: int, j: nat, k: nat,
                      b': seq<int>, temp': seq<int>, m': seq<int>)
    requires Invariant(b, temp, m, n, a, p, j, k) && Mag(b) >= 2
    requires Natural(b') && Mag(b') == Mag(b) / 2
    requires Residue(temp', n)
    requires Mag(temp') == if Mag(b) % 2 == 1 then (Mag(temp) * Mag(m)) % Mag(n) else Mag(temp)
    requires Natural(m') && Mag(m') < Mag(n) && Mag(m') == (Mag(m) * Mag(m)) % Mag(n)
    ensures Invariant(b', temp', m', n, a, p, if Mag(b) % 2 == 1 then j + k else j, 2 * k)
  {
    SmallerIsNoLonger(b', b);
    SmallerIsNoLonger(m', n);
    Round(a, p, j, k, Mag(b), Mag(temp), Mag(m), Mag(n), Mag(temp'), Mag(m'));
  }

  lemma InvariantEnd(b: seq<int>, temp: seq<int>, m: seq<int>, n: seq<int>, a: int, p: int, j: nat, k: nat)
    requires Invariant(b, temp, m, n, a, p, j, k) && Mag(b) == 1
    ensures p >= 0 && (Mag(m) * Mag(temp)) % Mag(n) == Power(a, p) % Mag(n)
  {
    ProductOfPowers(a, k, j, Mag(m), Mag(temp), Mag(n));
  }

  method SmallNumber(x: int) returns (a: array<int>)
    requires 1 <= x <= 9
    ensures fresh(a) && a.Length == RSA_MAX && Natural(a[..]) && Mag(a[..]) == x && Len(a[..]) == 1
  {
    a := new int[RSA_MAX](_ => 0);
    a[0] := x;
    a[RSA_MAX-1] := 1;
    assert Val(a[..], 1) == Val(a[..], 0) + a[0] * Pow10(0);
  }

  method IsOne(a: array<int>) returns (one: bool)
    requires a.Length == RSA_MAX && Natural(a[..])
    ensures one <==> Mag(a[..]) == 1
  {
    var l := SmallNumber(1);
    CompareOrders(a[..], l[..]);
    var r := Cmp(a, l);
    one := r == 0;
  }

  /** b := b div 2; the result says whether b was odd. */
  method Halve(b: array<int>, w: array<int>) returns (odd: bool)
    requires b.Length == w.Length == RSA_MAX && b != w
    requires Natural(b[..]) && Mag(b[..]) >= 2 && Len(b[..]) <= RSA_MAX - 2
    modifies b, w
    ensures Natural(b[..]) && Mag(b[..]) == old(Mag(b[..])) / 2
    ensures odd <==> old(Mag(b[..])) % 2 == 1
  {
    var c := new int[RSA_MAX](_ => 0);
    var t := SmallNumber(2);
    Clear(w, 0);
    Divt(b, t, w, c);
    Mov(w, b);
    odd := IsOne(c);
  }

  lemma InvariantStart(b: seq<int>, temp: seq<int>, m: seq<int>, n: seq<int>)
    requires Natural(n) && Mag(n) >= 2 && Len(n) <= HALF
    requires Natural(b) && Mag(b) >= 1 && Len(b) <= RSA_MAX - 2
    requires Natural(temp) && Mag(temp) == 1
    requires Natural(m) && Len(m) <= HALF
    ensures Invariant(b, temp, m, n, Mag(m), Mag(b), 0, 1)
  {
    NaturalIsResidue(temp, n);
    assert Power(Mag(m), 1) == Mag(m) * Power(Mag(m), 0) == Mag(m);
  }

  method ExpRound(b: array<int>, temp: array<int>, m: array<int>, n: array<int>, w: array<int>,
                  ghost a: int, ghost p: int, ghost j: nat, ghost k: nat) returns (ghost j': nat)
    requires Distinct(b, temp, m, n, w)
    requires Invariant(b[..], temp[..], m[..], n[..], a, p, j, k) && Mag(b[..]) >= 2
    modifies b, temp, m, w
    ensures n[..] == old(n[..]) && Invariant(b[..], temp[..], m[..], n[..], a, p, j', 2 * k)
    ensures Mag(b[..]) < old(Mag(b[..]))
  {
    ghost var B, X, Y, N := b[..], temp[..], m[..], n[..];
    var odd := Halve(b, w);
    ghost var B' := b[..];
    assert temp[..] == X && m[..] == Y && n[..] == N;
    if odd {
      MultiplyMod(temp, m, n, w);
    }
    ghost var X' := temp[..];
    assert b[..] == B' && m[..] == Y && n[..] == N;
    SquareMod(m, n, w);
    assert b[..] == B' && temp[..] == X' && n[..] == N;
    InvariantStep(B, X, Y, N, a, p, j, k, B', X', m[..]);
    j' := if odd then j + k else j;
  }

  /** The loop of expmod: while b is not 1, halve it, and multiply and square modulo n. */
  method SquareAndMultiply(b: array<int>, temp: array<int>, m: array<int>, n: array<int>, w: array<int>,
                           ghost a: int, ghost p: int) returns (ghost j: nat, ghost k: nat)
    requires Distinct(b, temp, m, n, w)
    requires Invariant(b[..], temp[..], m[..], n[..], a, p, 0, 1)
    modifies b, temp, m, w
    ensures n[..] == old(n[..]) && Invariant(b[..], temp[..], m[..], n[..], a, p, j, k) && Mag(b[..]) == 1
  {
    j, k := 0, 1;
    var done := IsOne(b);
    while !done
      invariant n[..] == old(n[..]) && Invariant(b[..], temp[..], m[..], n[..], a, p, j, k)
      invariant done <==> Mag(b[..]) == 1
      decreases Mag(b[..])
    {
      j := ExpRound(b, temp, m, n, w, a, p, j, k);
      k := 2 * k;
      done := IsOne(b);
    }
  }

  /** m := m * temp mod n, after the loop. */
  method FinishExponent(m: array<int>, temp: array<int>, n: array<int>, w: array<int>)
    requires temp.Length == m.Length == n.Length == w.Length == RSA_MAX
    requires temp != m && temp != n && temp != w && m != n && m != w && n != w
    requires Natural(n[..]) && Len(n[..]) <= HALF && Residue(temp[..], n[..])
    requires Natural(m[..]) && Len(m[..]) <= HALF && (Mag(temp[..]) == 0 ==> Mag(m[..]) == 0)
    modifies m, w
    ensures WellFormed(m[..]) && Len(m[..]) >= 1 && (Mag(m[..]) > 0 ==> Canonical(m[..]))
    ensures Mag(m[..]) == old(Mag(m[..]) * Mag(temp[..])) % Mag(n[..])
  {
    ghost var X, Y, N := temp[..], m[..], n[..];
    var s, c := new int[RSA_MAX](_ => 0), new int[RSA_MAX](_ => 0);
    Mul(m, temp, s);
    assert temp[..] == X && m[..] == Y && n[..] == N;
    ProductCommutes(X, Y, s[..]);
    ProductIsDividend(X, Y, s[..], N);
    Divt(s, n, w, c);
    Mov(c, m);
  }

  lemma ProductCommutes(x: seq<int>, y: seq<int>, z: seq<int>)
    requires WellFormed(x) && WellFormed(y) && Len(x) + Len(y) >= 1 && IsProduct(y, x, z)
    ensures IsProduct(x, y, z)
  {
    var u, v := Mag(x), Mag(y);
    assert u * v == v * u;
  }

  /** All of expmod but its last assignment. */
  method Raise(a: array<int>, p: array<int>, n: array<int>, m: array<int>)
    requires a.Length == p.Length == n.Length == m.Length == RSA_MAX && m != a && m != p && m != n
    requires Natural(a[..]) && Len(a[..]) <= HALF
    requires Natural(p[..]) && Mag(p[..]) >= 1 && Len(p[..]) <= RSA_MAX - 2
    requires Natural(n[..]) && Mag(n[..]) >= 2 && Len(n[..]) <= HALF
    modifies m
    ensures WellFormed(m[..]) && Len(m[..]) >= 1 && (Mag(m[..]) > 0 ==> Canonical(m[..]))
    ensures Mag(m[..]) == Power(Mag(a[..]), Mag(p[..])) % Mag(n[..])
  {
    hide Power, Pow10;
    ghost var A, P, N := a[..], p[..], n[..];
    var temp, b, w := new int[RSA_MAX], new int[RSA_MAX], new int[RSA_MAX](_ => 0);
    var l := SmallNumber(1);
    Mov(l, temp);
    Mov(a, m);
    Mov(p, b);
    assert m[..] == A && b[..] == P && temp[..] == l[..] && n[..] == N;
    InvariantStart(b[..], temp[..], m[..], N);
    ghost var j, k := SquareAndMultiply(b, temp, m, n, w, Mag(A), Mag(P));
    InvariantEnd(b[..], temp[..], m[..], N, Mag(A), Mag(P), j, k);
    FinishExponent(m, temp, n, w);
  }

  /** m := a^p mod n, with a's sign slot. */
  method ExpMod(a: array<int>, p: array<int>, n: array<int>, m: array<int>)
    requires a.Length == p.Length == n.Length == m.Length == RSA_MAX && m != a && m != p && m != n
    requires Natural(a[..]) && Len(a[..]) <= HALF
    requires Natural(p[..]) && Mag(p[..]) >= 1 && Len(p[..]) <= RSA_MAX - 2
    requires Natural(n[..]) && Mag(n[..]) >= 2 && Len(n[..]) <= HALF
    modifies m
    ensures WellFormed(m[..]) && Len(m[..]) >= 1 && (Mag(m[..]) > 0 ==> Canonical(m[..]))
    ensures Mag(m[..]) == Power(Mag(a[..]), Mag(p[..])) % Mag(n[..])
    ensures m[RSA_MAX-2] == a[RSA_MAX-2]
  {
    hide Power, Pow10;
    ghost var A, P, N := a[..], p[..], n[..];
    Raise(a, p, n, m);
    ghost var last := m[..];
    m[RSA_MAX-2] := a[RSA_MAX-2];
    assert a[..] == A && p[..] == P && n[..] == N;
    ValAgrees(last, m[..], Len(last));
  }

  /** A nonzero product, or a zero of no more places than n. */
  ghost predicate ReadsRight(a: seq<int>, b: seq<int>, n: seq<int>)
    requires WellFormed(a) && WellFormed(b) && |n| >= 2
  {
    Mag(a) * Mag(b) != 0 || Len(a) + Len(b) - 1 <= Len(n)
  }

  /** The product of two factors as long division reads it. */
  lemma ProductReads(a: seq<int>, b: seq<int>, c: seq<int>, n: seq<int>)
    requires Natural(a) && Natural(b) && Natural(n) && Mag(n) > 0
    requires |c| == RSA_MAX && IsProduct(a, b, c)
    ensures if ReadsRight(a, b, n) then Dividend(c, n) else LongZero(c, n) && Len(c) == Len(a) + Len(b) - 1
    ensures Compare(c, n) == Sign(Mag(c) - Mag(n)) <==> ReadsRight(a, b, n)
  {
    hide Pow10, Val;
    TidyBounds(a);
    TidyBounds(b);
    if Mag(a) == 0 || Mag(b) == 0 {
      ZeroProduct(a, b, c);
      ZeroCompares(c, n);
    } else {
      ProductTidy(a, b, c);
      assert Mag(a) * Mag(b) > 0;
      DividendCompare(c, n);
    }
  }

  /** m := a * b mod n, but for a zero product of more places than n: that is divided as a power of ten. */
  method MulMod(a: array<int>, b: array<int>, n: array<int>, m: array<int>)
    requires a.Length == b.Length == n.Length == m.Length == RSA_MAX && m != n
    requires Natural(a[..]) && Natural(b[..]) && Multipliable(a[..], b[..])
    requires Natural(n[..]) && Mag(n[..]) > 0 && !Negative(m[..])
    modifies m
    ensures WellFormed(m[..])
    ensures old(ReadsRight(a[..], b[..], n[..])) ==> Mag(m[..]) == old(Mag(a[..]) * Mag(b[..])) % Mag(n[..])
    ensures !old(ReadsRight(a[..], b[..], n[..])) ==>
              Mag(m[..]) == Pow10(old(Len(a[..]) + Len(b[..]) - 1)) % Mag(n[..])
  {
    ghost var A, B, N := a[..], b[..], n[..];
    var c, d := new int[RSA_MAX](_ => 0), new int[RSA_MAX](_ => 0);
    Mul(a, b, c);
    ProductReads(A, B, c[..], N);
    Divt(c, n, d, m);
  }

  /** 0 times 10 modulo 3: the zero of two places is divided as 100, which leaves 1. */
  lemma LongZeroGoesWrong(c: seq<int>)
    requires |c| == RSA_MAX && IsProduct(OneDigit(0, RSA_MAX), OneDigit(0, RSA_MAX)[1 := 1][RSA_MAX - 1 := 2], c)
    ensures var three := OneDigit(3, RSA_MAX); LongZero(c, three) && Pow10(Len(c)) % Mag(three) == 1
  {
    var zero, ten, three := OneDigit(0, RSA_MAX), OneDigit(0, RSA_MAX)[1 := 1][RSA_MAX - 1 := 2], OneDigit(3, RSA_MAX);
    assert Val(zero, 1) == Val(zero, 0) + zero[0] * Pow10(0);
    assert Val(three, 1) == Val(three, 0) + three[0] * Pow10(0);
    assert Natural(zero) && Natural(ten) && Natural(three);
    ProductReads(zero, ten, c, three);
    assert Pow10(2) == 100;
  }

  // ----- Euclid -----

  /** Whether e and s have no common factor. */
  method Coprime(e: array<int>, s: array<int>) returns (r: int)
    requires e.Length == s.Length == RSA_MAX
    requires Natural(e[..]) && Mag(e[..]) > 0 && Len(e[..]) <= RSA_MAX - 2
    requires Natural(s[..]) && 0 <= Mag(s[..]) && Len(s[..]) <= RSA_MAX - 2
    ensures r == if Gcd(Mag(s[..]), Mag(e[..])) == 1 then 1 else 0
  {
    hide Val, Pow10, Digits;
    ghost var g: nat := Gcd(Mag(s[..]), Mag(e[..]));
    var a, b, c, d := new int[RSA_MAX], new int[RSA_MAX], new int[RSA_MAX](_ => 0), new int[RSA_MAX](_ => 0);
    Mov(e, b);
    Mov(s, a);
    while true
      invariant Natural(a[..]) && 0 <= Mag(a[..]) && Len(a[..]) <= RSA_MAX - 2
      invariant Natural(b[..]) && Mag(b[..]) > 0 && Len(b[..]) <= RSA_MAX - 2
      invariant g == Gcd(Mag(a[..]), Mag(b[..]))
      decreases Mag(b[..])
    {
      ghost var A, B := a[..], b[..];
      var one := IsOne(b);
      if one {
        assert g == Gcd(1, 0);
        return 1;
      }
      Clear(c, 0);
      assert a[..] == A && b[..] == B;
      Divt(a, b, d, c);
      Mov(b, a);
      ghost var C := c[..];
      Mov(c, b);
      assert a[..] == B && b[..] == C;
      TidyBounds(C);
      SmallerIsNoLonger(C, B);
      var z := IsZero(b);
      if z {
        assert g == Mag(B);
        return 0;
      }
    }
  }

  method IsZero(a: array<int>) returns (zero: bool)
    requires a.Length == RSA_MAX && Natural(a[..])
    ensures zero <==> Mag(a[..]) == 0
  {
    var o := new int[RSA_MAX](_ => 0);
    o[RSA_MAX-1] := 1;
    assert Val(o[..], 1) == Val(o[..], 0) + o[0] * Pow10(0);
    TidyBounds(a[..]);
    CompareOrders(a[..], o[..]);
    var r := Cmp(a, o);
    zero := r == 0;
  }

  // ----- The private exponent -----

  /** Lengths of two factors whose product is at most g. */
  lemma FactorsFit(x: seq<int>, y: seq<int>, product: int, g: seq<int>)
    requires Canonical(x) && Canonical(y) && Mag(x) > 0 && Mag(y) > 0 && Natural(g)
    requires product == Mag(x) * Mag(y) <= Mag(g)
    ensures Len(x) + Len(y) <= Len(g) + 1
  {
    TidyBounds(x);
    TidyBounds(y);
    TidyBounds(g);
    ProductAtLeast(Mag(x), Mag(y), Len(x) - 1, Len(y) - 1);
    if Len(g) <= Len(x) + Len(y) - 2 {
      Pow10Monotone(Len(g), Len(x) + Len(y) - 2);
    }
  }

  lemma MagnitudeFits(x: seq<int>, g: seq<int>)
    requires Tidy(x) && Natural(g) && Mag(x) <= Mag(g)
    ensures Len(x) <= Len(g)
  {
    TidyBounds(x);
    TidyBounds(g);
    if Len(x) > Len(g) {
      Pow10Monotone(Len(g), Len(x) - 1);
    }
  }

  /** The arrays hold a step of the extended Euclid loop. */
  ghost predicate EuclidState(g: seq<int>, e: int, n1: seq<int>, n2: seq<int>, b1: seq<int>, b2: seq<int>) {
    && Natural(g) && Len(g) <= RSA_MAX - 3
    && Natural(n1) && Natural(n2)
    && |b1| == |b2| == RSA_MAX && Tidy(b1) && Tidy(b2)
    && Bezout(Mag(g), e, Mag(n1), Mag(n2), Value(b1), Value(b2))
    && (Negative(b1) <==> Value(b1) < 0) && (Negative(b2) <==> Value(b2) < 0)
  }

  /** k := n1 div n2 and r := n1 mod n2, the remainder by way of k * n2. */
  method DivideStep(n1: array<int>, n2: array<int>, k: array<int>, r: array<int>)
    requires n1.Length == n2.Length == k.Length == r.Length == RSA_MAX
    requires n1 != n2 && n1 != k && n1 != r && n2 != k && n2 != r && k != r
    requires Natural(n1[..]) && Natural(n2[..]) && 0 < Mag(n2[..]) < Mag(n1[..]) && Len(n1[..]) <= RSA_MAX - 3
    modifies k, r
    ensures Natural(k[..]) && Mag(k[..]) == Mag(n1[..]) / Mag(n2[..]) >= 1
    ensures Natural(r[..]) && Mag(r[..]) == Mag(n1[..]) % Mag(n2[..])
  {
    ghost var N1, N2 := n1[..], n2[..];
    var w, temp := new int[RSA_MAX](_ => 0), new int[RSA_MAX](_ => 0);
    Clear(k, 0);
    Divt(n1, n2, k, w);
    ghost var K := k[..];
    QuotientPositive(Mag(N1), Mag(N2));
    Divide(Mag(N1), Mag(N2));
    hide Mag;
    assert Mag(N2) * Mag(K) == Mag(K) * Mag(N2);
    FactorsFit(K, N2, Mag(K) * Mag(N2), N1);
    Mul(k, n2, temp);
    ProductTidy(K, N2, temp[..]);
    assert n1[..] == N1 && k[..] == K;
    Clear(r, 0);
    assert n1[..] == N1 && k[..] == K;
    Sub(n1, temp, r);
  }

  /** After the first step b1 and k * b2 differ in sign, so that sub adds their magnitudes. */
  lemma FactorsSubtract(g: seq<int>, e: int, n1: seq<int>, n2: seq<int>, b1: seq<int>, b2: seq<int>, k: seq<int>,
                        temp: seq<int>)
    requires EuclidState(g, e, n1, n2, b1, b2) && Mag(n1) % Mag(n2) != 0
    requires Natural(k) && Mag(k) == Mag(n1) / Mag(n2) >= 1
    requires Len(k) + Len(b2) >= 1 && |temp| == RSA_MAX && IsProduct(k, b2, temp)
    ensures Subtractable(b1, temp) && Value(temp) == Mag(k) * Value(b2)
    ensures Negative(temp) <==> Negative(b2)
  {
    BezoutStep(Mag(g), e, Mag(n1), Mag(n2), Value(b1), Value(b2));
    BezoutBounds(Mag(g), e, Mag(n2), Mag(n1) % Mag(n2), Value(b2), Value(b1) - Mag(k) * Value(b2));
    AlternatingSigns(Value(b1), Value(b2), Mag(k));
    assert Mag(k) * -Mag(b2) == -(Mag(k) * Mag(b2));
    ProductTidy(k, b2, temp);
    MagnitudeFits(temp, g);
    TidyBounds(b1);
    MagnitudeFits(b1, g);
    TidyBounds(temp);
  }

  lemma FactorsFitToo(g: seq<int>, e: int, n1: seq<int>, n2: seq<int>, b1: seq<int>, b2: seq<int>, k: seq<int>)
    requires EuclidState(g, e, n1, n2, b1, b2) && Mag(n1) % Mag(n2) != 0
    requires Natural(k) && Mag(k) == Mag(n1) / Mag(n2) >= 1
    ensures Canonical(b2) && Len(k) + Len(b2) <= Len(g) + 1
  {
    BezoutStep(Mag(g), e, Mag(n1), Mag(n2), Value(b1), Value(b2));
    BezoutBounds(Mag(g), e, Mag(n2), Mag(n1) % Mag(n2), Value(b2), Value(b1) - Mag(k) * Value(b2));
    AlternatingSigns(Value(b1), Value(b2), Mag(k));
    TidyBounds(b2);
    FactorsFit(k, b2, Mag(k) * Mag(b2), g);
  }

  /** b1, b2 := b2, b1 - k * b2. */
  method FactorStep(k: array<int>, b1: array<int>, b2: array<int>, ghost g: seq<int>, ghost e: int,
                    ghost n1: seq<int>, ghost n2: seq<int>)
    requires k.Length == b1.Length == b2.Length == RSA_MAX && k != b1 && k != b2 && b1 != b2
    requires EuclidState(g, e, n1, n2, b1[..], b2[..]) && Mag(n1) % Mag(n2) != 0
    requires Natural(k[..]) && Mag(k[..]) == Mag(n1) / Mag(n2) >= 1
    modifies b1, b2
    ensures b1[..] == old(b2[..])
    ensures Tidy(b2[..]) && Value(b2[..]) == old(Value(b1[..]) - Mag(k[..]) * Value(b2[..]))
    ensures Negative(b2[..]) <==> Value(b2[..]) < 0
  {
    ghost var K, B1, B2 := k[..], b1[..], b2[..];
    var t, temp := new int[RSA_MAX], new int[RSA_MAX](_ => 0);
    Mov(b2, t);
    FactorsFitToo(g, e, n1, n2, B1, B2, K);
    Mul(k, b2, temp);
    FactorsSubtract(g, e, n1, n2, B1, B2, K, temp[..]);
    AlternatingSigns(Value(B1), Value(B2), Mag(K));
    ghost var P := temp[..];
    Clear(b2, 0);
    assert b1[..] == B1 && temp[..] == P && t[..] == B2;
    Sub(b1, temp, b2);
    ghost var R := b2[..];
    Mov(t, b1);
    assert b2[..] == R;
  }

  lemma EuclidStep(g: seq<int>, e: int, n1: seq<int>, n2: seq<int>, b1: seq<int>, b2: seq<int>,
                   r: seq<int>, b2': seq<int>)
    requires EuclidState(g, e, n1, n2, b1, b2)
    requires Natural(r) && Mag(r) == Mag(n1) % Mag(n2) != 0
    requires |b2'| == RSA_MAX && Tidy(b2') && Value(b2') == Value(b1) - (Mag(n1) / Mag(n2)) * Value(b2)
    requires Negative(b2') <==> Value(b2') < 0
    ensures EuclidState(g, e, n2, r, b2, b2') && Mag(r) < Mag(n2)
  {
    BezoutStep(Mag(g), e, Mag(n1), Mag(n2), Value(b1), Value(b2));
  }

  /** The loop of rsad, up to the step whose remainder vanishes. */
  method EuclidLoop(n1: array<int>, n2: array<int>, b1: array<int>, b2: array<int>, ghost g: seq<int>, ghost e: int)
    requires n1.Length == n2.Length == b1.Length == b2.Length == RSA_MAX
    requires n1 != n2 && n1 != b1 && n1 != b2 && n2 != b1 && n2 != b2 && b1 != b2
    requires EuclidState(g, e, n1[..], n2[..], b1[..], b2[..])
    modifies n1, n2, b1, b2
    ensures EuclidState(g, e, n1[..], n2[..], b1[..], b2[..]) && Mag(n1[..]) % Mag(n2[..]) == 0
  {
    var k, r := new int[RSA_MAX], new int[RSA_MAX];
    while true
      invariant EuclidState(g, e, n1[..], n2[..], b1[..], b2[..])
      decreases Mag(n2[..])
    {
      ghost var N1, N2, B1, B2 := n1[..], n2[..], b1[..], b2[..];
      BezoutBounds(Mag(g), e, Mag(N1), Mag(N2), Value(B1), Value(B2));
      SmallerIsNoLonger(N1, g);
      DivideStep(n1, n2, k, r);
      ghost var K, R := k[..], r[..];
      assert n1[..] == N1 && n2[..] == N2 && b1[..] == B1 && b2[..] == B2;
      TidyBounds(R);
      assert Val(R, 1) == Val(R, 0) + R[0] * Pow10(0);
      if r[RSA_MAX-1] == 1 && r[0] == 0 {
        return;
      }
      ZeroRemainder(R);
      Mov(n2, n1);
      Mov(r, n2);
      assert n1[..] == N2 && n2[..] == R && k[..] == K && b1[..] == B1 && b2[..] == B2;
      FactorStep(k, b1, b2, g, e, N1, N2);
      assert n1[..] == N2 && n2[..] == R;
      EuclidStep(g, e, N1, N2, B1, B2, R, b2[..]);
    }
  }

  lemma ZeroRemainder(r: seq<int>)
    requires Natural(r) && !(Len(r) == 1 && r[0] == 0)
    ensures Mag(r) > 0
  {
    TidyBounds(r);
    assert Val(r, 1) == Val(r, 0) + r[0] * Pow10(0);
  }

  /** t := b2 + g lies between 0 and 2g. */
  lemma FinalSum(g: seq<int>, e: int, n1: seq<int>, n2: seq<int>, b1: seq<int>, b2: seq<int>)
    requires EuclidState(g, e, n1, n2, b1, b2)
    ensures Addable(b2, g) && 0 < Value(b2) + Mag(g) < 2 * Mag(g)
  {
    BezoutBounds(Mag(g), e, Mag(n1), Mag(n2), Value(b1), Value(b2));
    TidyBounds(b2);
    MagnitudeFits(b2, g);
  }

  lemma FinalDividend(t: seq<int>, g: seq<int>)
    requires Natural(g) && Len(g) <= RSA_MAX - 3 && |t| == RSA_MAX && Tidy(t) && !Negative(t)
    requires 0 < Mag(t) < 2 * Mag(g)
    ensures Dividend(t, g)
  {
    TidyBounds(t);
    TidyBounds(g);
    if Len(t) > Len(g) + 1 {
      Pow10Monotone(Len(g) + 1, Len(t) - 1);
    }
  }

  /** d := (b2 + g) mod g. */
  method ReduceFactor(b2: array<int>, g: array<int>, d: array<int>)
    requires b2.Length == g.Length == d.Length == RSA_MAX && b2 != g && d != b2 && d != g
    requires Natural(g[..]) && Len(g[..]) <= RSA_MAX - 3
    requires Addable(b2[..], g[..]) && 0 < Value(b2[..]) + Mag(g[..]) < 2 * Mag(g[..])
    requires !Negative(b2[..]) || Value(b2[..]) < 0
    modifies d
    ensures Natural(d[..]) && Mag(d[..]) == (Value(b2[..]) + Mag(g[..])) % Mag(g[..])
  {
    var t, temp := new int[RSA_MAX](_ => 0), new int[RSA_MAX](_ => 0);
    Add(b2, g, t);
    FinalDividend(t[..], g[..]);
    Clear(d, 0);
    Divt(t, g, temp, d);
  }

  lemma EuclidStart(g: seq<int>, e: seq<int>, b1: seq<int>, b2: seq<int>)
    requires Natural(g) && Natural(e) && 0 < Mag(e) < Mag(g) && Len(g) <= RSA_MAX - 3
    requires |b1| == RSA_MAX && Zeroed(b1) && Natural(b2) && Mag(b2) == 1
    ensures EuclidState(g, Mag(e), g, e, b1, b2)
  {
    BezoutStart(Mag(g), Mag(e));
    assert Val(b1, 0) == 0;
  }

  lemma EuclidEnd(g: seq<int>, e: int, n1: seq<int>, n2: seq<int>, b1: seq<int>, b2: seq<int>, d: int)
    requires EuclidState(g, e, n1, n2, b1, b2) && Mag(n1) % Mag(n2) == 0
    requires d == (Value(b2) + Mag(g)) % Mag(g)
    ensures 0 <= d < Mag(g) && (e * d) % Mag(g) == Gcd(Mag(g), e) % Mag(g)
  {
    BezoutEnd(Mag(g), e, Mag(n1), Mag(n2), Value(b1), Value(b2), d);
  }

  /**
   The private exponent d for the public exponent e and the totient g: e * d leaves the greatest
   common divisor of g and e modulo g, hence 1 when they have no common factor.
   */
  method Rsad(e: array<int>, g: array<int>, d: array<int>)
    requires e.Length == g.Length == d.Length == RSA_MAX && d != e && d != g
    requires Natural(e[..]) && Natural(g[..]) && 0 < Mag(e[..]) < Mag(g[..]) && Len(g[..]) <= RSA_MAX - 3
    modifies d
    ensures Natural(d[..]) && 0 <= Mag(d[..]) < Mag(g[..])
    ensures (Mag(e[..]) * Mag(d[..])) % Mag(g[..]) == Gcd(Mag(g[..]), Mag(e[..])) % Mag(g[..])
  {
    hide Pow10, Val, Bezout, Gcd;
    ghost var E, G := e[..], g[..];
    var n1, n2 := new int[RSA_MAX], new int[RSA_MAX];
    Mov(g, n1);
    Mov(e, n2);
    var b1 := new int[RSA_MAX](_ => 0);
    var b2 := SmallNumber(1);
    assert n1[..] == G && n2[..] == E;
    EuclidStart(G, E, b1[..], b2[..]);
    EuclidLoop(n1, n2, b1, b2, G, Mag(E));
    ghost var B2 := b2[..];
    FinalSum(G, Mag(E), n1[..], n2[..], b1[..], B2);
    ReduceFactor(b2, g, d);
    assert e[..] == E && g[..] == G;
    EuclidEnd(G, Mag(E), n1[..], n2[..], b1[..], B2, Mag(d[..]));
  }

  /** What the caller is after: the exponents are inverse to each other exactly when e is coprime to g. */
  lemma PrivateExponentInverts(e: nat, g: nat, d: nat)
    requires 1 < g && (e * d) % g == Gcd(g, e) % g && 0 < e < g
    ensures (e * d) % g == 1 <==> Gcd(g, e) == 1
  {
    if (e * d) % g == 1 {
      InverseNeedsCoprime(e, d, g);
    } else if Gcd(g, e) == 1 {
      DivisionUnique(1, g, 0, 1);
    }
  }
}
