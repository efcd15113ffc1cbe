/** Schoolbook multiplication, addition and subtraction on digit arrays, as in rsa.cpp. */
module BignumArithmetic {
  import opened Decimal
  import opened Integers
  import opened Stripping
  import opened Bignum

  ghost predicate Zeroed(c: seq<int>) {
    forall i | 0 <= i < |c| :: c[i] == 0
  }

  // ----- Multiplication -----

  /** Adding the two-digit product x at place w, carrying out of place w only. */
  lemma MulStep(c: seq<int>, c': seq<int>, n: nat, w: nat, x: int)
    requires w + 1 < n <= |c| && |c'| == |c|
    requires x >= 0 && c[w] >= 0
    requires forall i | 0 <= i < n && i != w && i != w + 1 :: c'[i] == c[i]
    requires c'[w] == (c[w] + x % 10) % 10
    requires c'[w+1] == c[w+1] + x / 10 + (c[w] + x % 10) / 10
    ensures Val(c', n) == Val(c, n) + x * Pow10(w)
  {
    hide Val;
    var mid := c[w := c'[w]];
    ValUpdate(c, mid, n, w);
    ValUpdate(mid, c', n, w + 1);
    var d := x / 10 + (c[w] + x % 10) / 10;
    CellDigits(c[w], x);
    assert Pow10(w + 1) == 10 * Pow10(w);
    hide Pow10;
    CellValue(x, d, Pow10(w));
  }

  lemma CellDigits(y: int, x: int)
    requires y >= 0 && x >= 0
    ensures (y + x % 10) % 10 - y == x - 10 * (x / 10 + (y + x % 10) / 10)
  {
    Divide(x, 10);
    Divide(y + x % 10, 10);
  }

  lemma CellValue(x: int, d: int, p: int)
    ensures (x - 10 * d) * p + d * (10 * p) == x * p
  {
    TimesDifference(x, 10 * d, p);
    assert 10 * d * p == d * (10 * p);
  }

  /** The place after a finished row cannot hold more than one digit. */
  lemma RowEnd(c: seq<int>, n: nat, p: nat)
    requires p < n <= |c|
    requires forall i | 0 <= i < n :: c[i] >= 0
    requires Val(c, n) < Pow10(p + 1)
    ensures c[p] <= 9
  {
    ValAtLeast(c, n, p);
    if c[p] >= 10 {
      MulMonotone(10, c[p], Pow10(p));
    }
  }

  lemma ProductBound(x: int, y: int, m: nat, n: nat)
    requires 0 <= x < Pow10(m) && 0 <= y < Pow10(n)
    ensures 0 <= x * y < Pow10(m + n)
  {
    Pow10Sum(m, n);
    assert x * y <= x * Pow10(n) by { MulMonotone(y, Pow10(n), x); }
    assert (x + 1) * Pow10(n) <= Pow10(m) * Pow10(n) by { MulMonotone(x + 1, Pow10(m), Pow10(n)); }
    assert (x + 1) * Pow10(n) == x * Pow10(n) + Pow10(n);
    MulMonotone(0, x, y);
  }

  lemma Expand(x: int, v: int, d: int, p: int, q: int)
    ensures x * (v + d * p) * q == x * v * q + x * d * (q * p)
  {
  }

  lemma RowStep(x: int, b: seq<int>, j: nat, i: nat)
    requires j < |b|
    ensures x * Val(b, j + 1) * Pow10(i) == x * Val(b, j) * Pow10(i) + x * b[j] * Pow10(i + j)
  {
    Pow10Sum(i, j);
    Expand(x, Val(b, j), b[j], Pow10(j), Pow10(i));
  }

  lemma RowSum(a: seq<int>, y: int, i: nat)
    requires i < |a|
    ensures Val(a, i + 1) * y == Val(a, i) * y + a[i] * y * Pow10(i)
  {
    Expand(1, Val(a, i), a[i], Pow10(i), y);
    Expand(a[i], 0, 1, Pow10(i), y);
  }

  /** In row i every place but i + j is a digit already; place i + j is about to be cut. */
  ghost predicate MidRow(c: seq<int>, n: nat, i: nat, j: nat, l2: nat)
    requires n <= |c|
  {
    && (forall k | 0 <= k < n :: c[k] >= 0 && (k != i + j ==> c[k] <= 9))
    && (forall k | i + 1 + l2 <= k < n :: c[k] == 0)
    && (j < l2 && i + l2 < n ==> c[i + l2] == 0)
  }

  method MulCell(x: int, c: array<int>, i: nat, j: nat, l2: nat, n: nat)
    requires j < l2 && i + l2 < n <= c.Length && x >= 0
    requires MidRow(c[..], n, i, j, l2)
    modifies c
    ensures MidRow(c[..], n, i, j + 1, l2)
    ensures Val(c[..], n) == old(Val(c[..], n)) + x * Pow10(i + j)
    ensures c[n..] == old(c[n..])
  {
    var y, z, w := x / 10, x % 10, i + j;
    c[w] := c[w] + z;
    c[w+1] := c[w+1] + y + c[w] / 10;
    c[w] := c[w] % 10;
    MulStep(old(c[..]), c[..], n, w, x);
  }

  method MulRow(a1: array<int>, a2: array<int>, c: array<int>, i: nat, n: nat)
    requires a1.Length == a2.Length == c.Length && c != a1 && c != a2
    requires WellFormed(a1[..]) && WellFormed(a2[..])
    requires i < Len(a1[..]) && n == Len(a1[..]) + Len(a2[..]) <= c.Length - 1
    requires Digits(c[..], n) && forall k | i + Len(a2[..]) <= k < n :: c[k] == 0
    requires Val(c[..], n) == Val(a1[..], i) * Mag(a2[..])
    modifies c
    ensures Digits(c[..], n) && forall k | i + 1 + Len(a2[..]) <= k < n :: c[k] == 0
    ensures Val(c[..], n) == Val(a1[..], i + 1) * Mag(a2[..])
    ensures c[n..] == old(c[n..])
  {
    assert Val(a2[..], 0) == 0;
    hide Val, Pow10, MidRow;
    var l2 := a2[a2.Length-1];
    ghost var A, B := a1[..], a2[..];
    ghost var start := Val(A, i) * Mag(B);
    RowStart(c[..], n, i, l2);
    for j := 0 to l2
      invariant a1[..] == A && a2[..] == B && c[n..] == old(c[n..])
      invariant MidRow(c[..], n, i, j, l2)
      invariant Val(c[..], n) == start + A[i] * Val(B, j) * Pow10(i)
    {
      RowStep(A[i], B, j, i);
      MulMonotone(0, A[i], B[j]);
      MulCell(a1[i] * a2[j], c, i, j, l2, n);
    }
    RowSum(A, Mag(B), i);
    RowDone(A, B, c[..], n, i);
  }

  lemma RowStart(c: seq<int>, n: nat, i: nat, l2: nat)
    requires i + l2 < n <= |c| && Digits(c, n) && forall k | i + l2 <= k < n :: c[k] == 0
    ensures MidRow(c, n, i, 0, l2)
  {
  }

  lemma RowDone(a: seq<int>, b: seq<int>, c: seq<int>, n: nat, i: nat)
    requires WellFormed(a) && WellFormed(b) && i < Len(a) && n == Len(a) + Len(b) <= |c|
    requires MidRow(c, n, i, Len(b), Len(b)) && Val(c, n) == Val(a, i + 1) * Mag(b)
    ensures Digits(c, n) && forall k | i + 1 + Len(b) <= k < n :: c[k] == 0
  {
    ValBounds(a, i + 1);
    ValBounds(b, Len(b));
    ProductBound(Val(a, i + 1), Mag(b), i + 1, Len(b));
    hide Val, Pow10;
    RowEnd(c, n, i + Len(b));
  }

  method MulRows(a1: array<int>, a2: array<int>, c: array<int>, n: nat)
    requires a1.Length == a2.Length == c.Length && c != a1 && c != a2
    requires WellFormed(a1[..]) && WellFormed(a2[..])
    requires n == Len(a1[..]) + Len(a2[..]) <= c.Length - 1
    requires forall k | 0 <= k < n :: c[k] == 0
    modifies c
    ensures Digits(c[..], n) && Val(c[..], n) == Mag(a1[..]) * Mag(a2[..])
    ensures c[n..] == old(c[n..])
  {
    ghost var A, B := a1[..], a2[..];
    var l1, l2 := a1[a1.Length-1], a2[a2.Length-1];
    ValZeros(c[..], 0, n);
    for i := 0 to l1
      invariant a1[..] == A && a2[..] == B && c[n..] == old(c[n..])
      invariant Digits(c[..], n) && forall k | i + l2 <= k < n :: c[k] == 0
      invariant Val(c[..], n) == Val(A, i) * Mag(B)
    {
      MulRow(a1, a2, c, i, n);
    }
  }

  /** The product of two well-formed numbers; the length drops one leading zero only. */
  ghost predicate IsProduct(a: seq<int>, b: seq<int>, c: seq<int>)
    requires WellFormed(a) && WellFormed(b) && Len(a) + Len(b) >= 1
  {
    var n := Len(a) + Len(b);
    && WellFormed(c)
    && Mag(c) == Mag(a) * Mag(b)
    && (Len(c) == n - 1 || (Len(c) == n && c[n-1] != 0))
    && (Negative(c) <==> Negative(a) != Negative(b))
    && forall k | Len(c) <= k < |c| - 2 :: c[k] == 0
  }

  /** The digits of the product fit below the sign slot; a carry that is always zero may reach it. */
  ghost predicate Multipliable(a: seq<int>, b: seq<int>)
    requires WellFormed(a) && WellFormed(b) && |a| == |b|
  {
    || Len(a) + Len(b) <= |a| - 2
    || (Len(a) + Len(b) == |a| - 1 && Negative(a) == Negative(b) && Mag(a) * Mag(b) < Pow10(|a| - 2))
  }

  lemma SignSlotStaysEmpty(c: seq<int>, n: nat)
    requires n < |c| && Digits(c, n + 1) && Val(c, n + 1) < Pow10(n)
    ensures c[n] == 0
  {
    ValAtLeast(c, n + 1, n);
    if c[n] >= 1 {
      MulMonotone(1, c[n], Pow10(n));
    }
  }

  lemma ProductLength(a: seq<int>, b: seq<int>, full: seq<int>, c: seq<int>)
    requires WellFormed(a) && WellFormed(b) && |a| == |b| == |full|
    requires 1 <= Len(a) + Len(b) && Multipliable(a, b)
    requires Digits(full, Len(a) + Len(b)) && Val(full, Len(a) + Len(b)) == Mag(a) * Mag(b)
    requires forall k | Len(a) + Len(b) <= k < |full| - 2 :: full[k] == 0
    requires Negative(full) <==> Negative(a) != Negative(b)
    requires c == full[|full|-1 := Len(a) + Len(b) - if full[Len(a) + Len(b) - 1] == 0 then 1 else 0]
    ensures IsProduct(a, b, c)
  {
    hide Val, Pow10;
    var n := Len(a) + Len(b);
    if n == |a| - 1 {
      SignSlotStaysEmpty(full, n - 1);
    }
    if full[n-1] == 0 {
      ValZeros(full, n - 1, n);
    }
    ValAgrees(full, c, Len(c));
  }

  method MulSign(a1: array<int>, a2: array<int>, c: array<int>)
    requires a1.Length == a2.Length == c.Length >= 3 && c != a1 && c != a2
    requires Zeroed(c[..])
    modifies c
    ensures Negative(c[..]) <==> Negative(a1[..]) != Negative(a2[..])
    ensures Negative(a1[..]) == Negative(a2[..]) ==> c[c.Length-2] == 0
    ensures forall k | 0 <= k < c.Length && k != c.Length - 2 :: c[k] == 0
  {
    var R := c.Length;
    if a1[R-2] == MINUS && a2[R-2] == MINUS {
      c[R-2] := 0;
    } else if a1[R-2] == MINUS {
      c[R-2] := MINUS;
    } else if a2[R-2] == MINUS {
      c[R-2] := MINUS;
    }
  }

  method Mul(a1: array<int>, a2: array<int>, c: array<int>)
    requires a1.Length == a2.Length == c.Length && c != a1 && c != a2
    requires WellFormed(a1[..]) && WellFormed(a2[..])
    requires 1 <= Len(a1[..]) + Len(a2[..]) && Multipliable(a1[..], a2[..])
    requires Zeroed(c[..])
    modifies c
    ensures IsProduct(a1[..], a2[..], c[..])
  {
    ghost var A, B := a1[..], a2[..];
    MulSign(a1, a2, c);
    assert a1[..] == A && a2[..] == B;
    var R := c.Length;
    var w := a1[R-1] + a2[R-1];
    ghost var signed := c[..];
    MulRows(a1, a2, c, w);
    assert a1[..] == A && a2[..] == B;
    ghost var full := c[..];
    assert forall k | w <= k < R :: full[k] == full[w..][k-w] == signed[w..][k-w] == signed[k];
    if c[w-1] == 0 {
      w := w - 1;
    }
    c[R-1] := w;
    ProductLength(A, B, full, c[..]);
  }

  lemma ProductAtLeast(x: int, y: int, m: nat, n: nat)
    requires Pow10(m) <= x && Pow10(n) <= y
    ensures Pow10(m + n) <= x * y
  {
    Pow10Sum(m, n);
    MulMonotone(Pow10(m), x, Pow10(n));
    MulMonotone(Pow10(n), y, x);
  }

  /** A zero product keeps a leading zero for every digit of its factors but one. */
  lemma ZeroProduct(a: seq<int>, b: seq<int>, c: seq<int>)
    requires WellFormed(a) && WellFormed(b) && Len(a) >= 1 && Len(b) >= 1 && IsProduct(a, b, c)
    requires Mag(a) == 0 || Mag(b) == 0
    ensures Mag(c) == 0 && Len(c) == Len(a) + Len(b) - 1
  {
    assert Mag(c) == 0;
    ValZero(c, Len(c));
  }

  /** Without leading zeros in the factors a nonzero product has none. */
  lemma ProductTidy(a: seq<int>, b: seq<int>, c: seq<int>)
    requires Canonical(a) && Canonical(b) && IsProduct(a, b, c)
    requires Mag(a) != 0 && Mag(b) != 0
    ensures Mag(c) > 0 && Canonical(c)
  {
    TidyBounds(a);
    TidyBounds(b);
    var n := Len(a) + Len(b);
    hide Pow10, Val;
    ValBounds(c, Len(c));
    ValBounds(c, Len(c) - 1);
    ProductAtLeast(Mag(a), Mag(b), Len(a) - 1, Len(b) - 1);
    if Len(c) == n - 1 && n > 2 {
      TopDigit(c, n - 1);
    }
  }

  // ----- Addition and subtraction -----

  /** One place of a carrying (k) or borrowing (negative k) loop: place n of c becomes x + k - 10 * k'. */
  lemma PlaceDone(c: seq<int>, c': seq<int>, n: nat, x: int, k: int, k': int, total: int)
    requires n < |c| == |c'|
    requires forall i | 0 <= i < n :: c'[i] == c[i]
    requires c'[n] == x + k - 10 * k'
    requires Val(c, n) + k * Pow10(n) == total
    ensures Val(c', n + 1) + k' * Pow10(n + 1) == total + x * Pow10(n)
  {
    ValAgrees(c, c', n);
    Carry(x, k, k', Pow10(n));
  }

  lemma Carry(x: int, k: int, k': int, p: int)
    ensures (x + k - 10 * k') * p + k' * (10 * p) == x * p + k * p
  {
  }

  lemma TopDigit(c: seq<int>, n: nat)
    requires 1 <= n <= |c| && Digits(c, n) && Val(c, n) >= Pow10(n - 1)
    ensures c[n-1] != 0
  {
    ValBounds(c, n - 1);
  }

  /** Places from..upto of the sum when only a is left, with its carry. */
  method AddTail(a: array<int>, c: array<int>, from: nat, upto: nat, k0: int, ghost total: int) returns (k: int)
    requires a != c && a.Length == c.Length && from <= upto < c.Length
    requires Digits(a[..], upto) && Digits(c[..], from) && 0 <= k0 <= 1
    requires Val(c[..], from) + k0 * Pow10(from) == Val(a[..], from) + total
    modifies c
    ensures Digits(c[..], upto) && 0 <= k <= 1
    ensures Val(c[..], upto) + k * Pow10(upto) == Val(a[..], upto) + total
    ensures forall i' | upto <= i' < c.Length :: c[i'] == old(c[i'])
  {
    ghost var A := a[..];
    k := k0;
    for i := from to upto
      invariant a[..] == A && Digits(c[..], i) && 0 <= k <= 1
      invariant Val(c[..], i) + k * Pow10(i) == Val(A, i) + total
      invariant forall i' | upto <= i' < c.Length :: c[i'] == old(c[i'])
    {
      ghost var before, k' := c[..], k;
      c[i] := (a[i] + k) % 10;
      k := (a[i] + k) / 10;
      PlaceDone(before, c[..], i, A[i], k', k, Val(A, i) + total);
    }
  }

  method AddCommon(a1: array<int>, a2: array<int>, c: array<int>, len: nat) returns (k: int)
    requires a1 != c && a2 != c && a1.Length == a2.Length == c.Length && len < c.Length
    requires Digits(a1[..], len) && Digits(a2[..], len)
    modifies c
    ensures Digits(c[..], len) && 0 <= k <= 1
    ensures Val(c[..], len) + k * Pow10(len) == Val(a1[..], len) + Val(a2[..], len)
    ensures forall i' | len <= i' < c.Length :: c[i'] == old(c[i'])
  {
    ghost var A, B := a1[..], a2[..];
    k := 0;
    for i := 0 to len
      invariant a1[..] == A && a2[..] == B && Digits(c[..], i) && 0 <= k <= 1
      invariant Val(c[..], i) + k * Pow10(i) == Val(A, i) + Val(B, i)
      invariant forall i' | len <= i' < c.Length :: c[i'] == old(c[i'])
    {
      ghost var before, k' := c[..], k;
      c[i] := (a1[i] + a2[i] + k) % 10;
      k := (a1[i] + a2[i] + k) / 10;
      PlaceDone(before, c[..], i, A[i] + B[i], k', k, Val(A, i) + Val(B, i));
      assert (A[i] + B[i]) * Pow10(i) == A[i] * Pow10(i) + B[i] * Pow10(i);
    }
  }

  lemma SumAtLeast(a: seq<int>, b: seq<int>)
    requires Tidy(a) && Tidy(b)
    ensures Len(a) > 1 ==> Mag(a) + Mag(b) >= Pow10(Len(a) - 1)
    ensures Len(b) > 1 ==> Mag(a) + Mag(b) >= Pow10(Len(b) - 1)
  {
    TidyBounds(a);
    TidyBounds(b);
  }

  lemma SumLength(full: seq<int>, c: seq<int>, l: nat, k: int, sum: int)
    requires |full| == |c| == RSA_MAX && l <= RSA_MAX - 3 && 0 <= k <= 1 && Digits(full, l)
    requires Val(full, l) + k * Pow10(l) == sum
    requires l > 1 ==> sum >= Pow10(l - 1)
    requires forall i | 0 <= i < l :: c[i] == full[i]
    requires k == 0 ==> c[RSA_MAX-1] == l
    requires k == 1 ==> c[RSA_MAX-1] == l + 1 && c[l] == 1
    ensures Tidy(c) && Mag(c) == sum
  {
    ValAgrees(full, c, l);
    if k == 0 && l > 1 {
      TopDigit(c, l);
    }
  }

  /** The part of add that adds magnitudes; the sign slot keeps what it holds. */
  method AddMagnitudes(a1: array<int>, a2: array<int>, c: array<int>)
    requires a1 != c && a2 != c && a1.Length == a2.Length == c.Length == RSA_MAX
    requires Tidy(a1[..]) && Tidy(a2[..])
    requires Len(a1[..]) <= RSA_MAX - 3 && Len(a2[..]) <= RSA_MAX - 3
    modifies c
    ensures Tidy(c[..]) && Mag(c[..]) == Mag(a1[..]) + Mag(a2[..])
    ensures c[RSA_MAX-2] == old(c[RSA_MAX-2])
  {
    hide Pow10, Val;
    ghost var A, B := a1[..], a2[..];
    SumAtLeast(A, B);
    var l1, l2 := a1[RSA_MAX-1], a2[RSA_MAX-1];
    var len := if l1 < l2 then l1 else l2;
    var k := AddCommon(a1, a2, c, len);
    assert a1[..] == A && a2[..] == B;
    var l := if l1 > len then l1 else l2;
    if l1 > len {
      k := AddTail(a1, c, len, l1, k, Mag(B));
    } else {
      k := AddTail(a2, c, len, l2, k, Mag(A));
    }
    ghost var full := c[..];
    if k != 0 {
      c[l] := k;
      len := l + 1;
    } else {
      len := l;
    }
    c[99] := len;
    SumLength(full, c[..], l, k, Mag(A) + Mag(B));
  }

  /** One place of a difference, with the borrows into and out of it. */
  method SubPlace(x: int, y: int, k0: int) returns (digit: int, k: int)
    requires 0 <= x <= 9 && 0 <= y <= 9 && 0 <= k0 <= 1
    ensures 0 <= digit <= 9 && 0 <= k <= 1 && digit == x - y - k0 + 10 * k
  {
    if x - k0 - y < 0 {
      digit := (x - y - k0 + 10) % 10;
      k := 1;
    } else {
      digit := (x - y - k0) % 10;
      k := 0;
    }
  }

  /** Places from..upto of the difference when only a is left, with its borrow. */
  method SubTail(a: array<int>, c: array<int>, from: nat, upto: nat, k0: int, ghost total: int) returns (k: int)
    requires a != c && a.Length == c.Length && from <= upto < c.Length
    requires Digits(a[..], upto) && Digits(c[..], from) && 0 <= k0 <= 1
    requires Val(c[..], from) - k0 * Pow10(from) == Val(a[..], from) - total
    modifies c
    ensures Digits(c[..], upto) && 0 <= k <= 1
    ensures Val(c[..], upto) - k * Pow10(upto) == Val(a[..], upto) - total
    ensures forall i' | upto <= i' < c.Length :: c[i'] == old(c[i'])
  {
    hide Val, Pow10;
    ghost var A := a[..];
    k := k0;
    for i := from to upto
      invariant a[..] == A && Digits(c[..], i) && 0 <= k <= 1
      invariant Val(c[..], i) - k * Pow10(i) == Val(A, i) - total
      invariant forall i' | upto <= i' < c.Length :: c[i'] == old(c[i'])
    {
      ghost var before, k' := c[..], k;
      var digit;
      digit, k := SubPlace(a[i], 0, k);
      c[i] := digit;
      PlaceDone(before, c[..], i, A[i], -k', -k, Val(A, i) - total);
      ValNext(A, i);
    }
  }

  method SubCommon(a1: array<int>, a2: array<int>, c: array<int>, len: nat) returns (k: int)
    requires a1 != c && a2 != c && a1.Length == a2.Length == c.Length && len < c.Length
    requires Digits(a1[..], len) && Digits(a2[..], len)
    modifies c
    ensures Digits(c[..], len) && 0 <= k <= 1
    ensures Val(c[..], len) - k * Pow10(len) == Val(a1[..], len) - Val(a2[..], len)
    ensures forall i' | len <= i' < c.Length :: c[i'] == old(c[i'])
  {
    assert Val(a1[..], 0) == Val(a2[..], 0) == Val(c[..], 0) == 0;
    hide Val, Pow10;
    ghost var A, B := a1[..], a2[..];
    k := 0;
    for i := 0 to len
      invariant a1[..] == A && a2[..] == B && Digits(c[..], i) && 0 <= k <= 1
      invariant Val(c[..], i) - k * Pow10(i) == Val(A, i) - Val(B, i)
      invariant forall i' | len <= i' < c.Length :: c[i'] == old(c[i'])
    {
      ghost var before, k' := c[..], k;
      var digit;
      digit, k := SubPlace(a1[i], a2[i], k);
      c[i] := digit;
      DifferenceDone(A, B, before, c[..], i, k', k);
    }
  }

  lemma DifferenceDone(a: seq<int>, b: seq<int>, c: seq<int>, c': seq<int>, i: nat, k: int, k': int)
    requires i < |a| == |b| == |c| == |c'|
    requires forall j | 0 <= j < i :: c'[j] == c[j]
    requires c'[i] == a[i] - b[i] - k + 10 * k'
    requires Val(c, i) - k * Pow10(i) == Val(a, i) - Val(b, i)
    ensures Val(c', i + 1) - k' * Pow10(i + 1) == Val(a, i + 1) - Val(b, i + 1)
  {
    PlaceDone(c, c', i, a[i] - b[i], -k, -k', Val(a, i) - Val(b, i));
    ValNext(a, i);
    ValNext(b, i);
    TimesDifference(a[i], b[i], Pow10(i));
  }

  lemma BorrowLeft(c: seq<int>, n: nat, k: int, diff: int)
    requires n <= |c| && Digits(c, n) && 0 <= k <= 1
    requires Val(c, n) - k * Pow10(n) == diff
    ensures k == if diff >= 0 then 0 else 1
  {
    ValBounds(c, n);
  }

  /** The places of x - y, for x no shorter than y; the borrow that is left over is dropped. */
  ghost function Places(x: seq<int>, y: seq<int>): int
    requires WellFormed(x) && WellFormed(y)
  {
    Mag(x) - Mag(y) + if Mag(x) < Mag(y) then Pow10(Len(x)) else 0
  }

  method SubPlaces(x: array<int>, y: array<int>, c: array<int>)
    requires x != c && y != c && x.Length == y.Length == c.Length >= 3
    requires WellFormed(x[..]) && WellFormed(y[..]) && Len(y[..]) <= Len(x[..])
    modifies c
    ensures Digits(c[..], Len(x[..])) && Val(c[..], Len(x[..])) == Places(x[..], y[..])
    ensures forall i | Len(x[..]) <= i < c.Length :: c[i] == old(c[i])
  {
    ghost var X, Y := x[..], y[..];
    var l1, len := x[x.Length-1], y[y.Length-1];
    var k := SubCommon(x, y, c, len);
    assert x[..] == X && y[..] == Y;
    k := SubTail(x, c, len, l1, k, Mag(Y));
    BorrowLeft(c[..], l1, k, Mag(X) - Mag(Y));
  }

  /** The length without leading zeros of the l places of c, where the source finds it: it counts down from
      the length of the first operand, whichever operand is longer. */
  method Strip(c: array<int>, l: nat, base: nat) returns (len: nat)
    requires base <= l && 1 <= l <= c.Length && Digits(c[..], l) && Val(c[..], l) > 0
    requires FindsLength(Val(c[..], l), l, base)
    ensures 1 <= len <= l && c[len-1] != 0 && Val(c[..], len) == Val(c[..], l)
  {
    FindsLengthExactly(c[..], l, base);
    TopBounds(c[..], l);
    hide Val, FindsLength;
    len := l;
    if c[l-1] == 0 {
      len := l - 1;
      var i := 2;
      while c[base-i] == 0
        invariant 2 <= i <= base && StripLoop(c[..], base, i, len) == StripLength(c[..], l, base)
        decreases base - i
      {
        len := base - i;
        i := i + 1;
      }
    }
  }

  /** Where sub finds the length of the difference, and nonnegative operands are told apart. */
  ghost predicate Orderly(x: seq<int>, y: seq<int>)
    requires Tidy(x) && Tidy(y)
  {
    && (Len(x) == Len(y) || Mag(x) > 0 || Mag(y) > 0)
    && (Mag(x) < Mag(y) ==> FindsLength(Mag(y) - Mag(x), Len(y), Len(x)))
  }

  /** A zero of more places than the b > 0 it is compared with: cmp takes it for the larger number. */
  ghost predicate LongZero(a: seq<int>, b: seq<int>) {
    && |a| == |b| == RSA_MAX && WellFormed(a) && Tidy(b) && !Negative(a) && !Negative(b)
    && Mag(a) == 0 < Mag(b) && Len(b) < Len(a)
  }

  /** The number that subtracting b from a starts from: the borrow that a long zero drops counts as 10^n. */
  ghost function AsRead(a: seq<int>, b: seq<int>): int
    requires WellFormed(a)
  {
    if LongZero(a, b) then Pow10(Len(a)) else Mag(a)
  }

  /** Such a zero passes for larger than b, and b leaves digits of a positive number. */
  lemma LongZeroReads(a: seq<int>, b: seq<int>)
    requires LongZero(a, b)
    ensures Compare(a, b) == 1 && 0 < Mag(b) < Pow10(Len(a))
    ensures Places(a, b) == Pow10(Len(a)) - Mag(b)
    ensures FindsLength(Places(a, b), Len(a), Len(a))
  {
    TidyBounds(b);
    Pow10Monotone(Len(b), Len(a));
    hide Pow10, Val;
    OwnBaseFinds(Pow10(Len(a)) - Mag(b), Len(a));
  }

  /** The digits of x - y > 0 and their number. */
  method SubLarger(x: array<int>, y: array<int>, c: array<int>, base: nat) returns (len: nat)
    requires x != c && y != c && x.Length == y.Length == c.Length >= 3
    requires WellFormed(x[..]) && WellFormed(y[..])
    requires 1 <= Len(x[..]) && Len(y[..]) <= Len(x[..]) && Places(x[..], y[..]) > 0
    requires base <= Len(x[..]) && FindsLength(Places(x[..], y[..]), Len(x[..]), base)
    modifies c
    ensures 1 <= len <= c.Length - 2 && Digits(c[..], len) && c[len-1] != 0
    ensures Val(c[..], len) == Places(x[..], y[..])
    ensures c[c.Length-2] == old(c[c.Length-2])
  {
    hide FindsLength;
    var l := x[x.Length-1];
    SubPlaces(x, y, c);
    len := Strip(c, l, base);
  }

  /** What cmp tells sub. */
  lemma DifferenceSign(a: seq<int>, b: seq<int>)
    requires |a| == |b| == RSA_MAX && WellFormed(a)
    requires LongZero(a, b) || (Tidy(a) && Tidy(b) && Orderly(a, b))
    ensures Compare(a, b) == Sign(AsRead(a, b) - Mag(b))
    ensures AsRead(a, b) > Mag(b) ==>
              1 <= Len(a) && Len(b) <= Len(a) && Places(a, b) == AsRead(a, b) - Mag(b) &&
                FindsLength(Places(a, b), Len(a), Len(a))
    ensures AsRead(a, b) < Mag(b) ==> 1 <= Len(b) && Len(a) <= Len(b) && Places(b, a) == Mag(b) - AsRead(a, b)
  {
    if LongZero(a, b) {
      LongZeroReads(a, b);
    } else {
      CompareOrders(a, b);
      TidyBounds(a);
      TidyBounds(b);
      if Len(a) < Len(b) {
        Pow10Monotone(Len(a), Len(b) - 1);
      } else if Len(b) < Len(a) {
        Pow10Monotone(Len(b), Len(a) - 1);
      }
      if Mag(a) > Mag(b) {
        OwnBaseFinds(Mag(a) - Mag(b), Len(a));
      }
    }
  }

  lemma SubtractableIsNoLongZero(a: seq<int>, b: seq<int>)
    requires Subtractable(a, b)
    ensures !LongZero(a, b)
  {
    TidyBounds(a);
  }

  method SubMagnitudes(a1: array<int>, a2: array<int>, c: array<int>)
    requires a1 != c && a2 != c && a1.Length == a2.Length == c.Length == RSA_MAX
    requires LongZero(a1[..], a2[..]) || (Tidy(a1[..]) && Tidy(a2[..]) && Orderly(a1[..], a2[..]))
    requires !Negative(c[..])
    modifies c
    ensures Canonical(c[..]) && Value(c[..]) == AsRead(a1[..], a2[..]) - Mag(a2[..])
    ensures Negative(c[..]) <==> AsRead(a1[..], a2[..]) < Mag(a2[..])
  {
    hide Pow10;
    ghost var A, B := a1[..], a2[..];
    ghost var diff := AsRead(A, B) - Mag(B);
    var l1 := a1[RSA_MAX-1];
    var len;
    DifferenceSign(A, B);
    var r := Cmp(a1, a2);
    if r == 1 {
      len := SubLarger(a1, a2, c, l1);
    } else if r == -1 {
      c[RSA_MAX-2] := MINUS;
      assert a1[..] == A && a2[..] == B;
      len := SubLarger(a2, a1, c, l1);
    } else {
      len := 1;
      c[len-1] := 0;
      assert Val(c[..], 1) == Val(c[..], 0) + c[0] * Pow10(0);
    }
    ghost var full := c[..];
    assert Digits(full, len) && (len > 1 ==> full[len-1] != 0);
    assert Val(full, len) == if diff < 0 then -diff else diff;
    c[RSA_MAX-1] := len;
    assert c[..] == full[RSA_MAX-1 := len];
    ValAgrees(full, c[..], len);
  }

  lemma SignSlot(a: seq<int>, b: seq<int>, sign: int)
    requires Tidy(a) && b == a[|a|-2 := sign]
    ensures Tidy(b) && Len(b) == Len(a) && Mag(b) == Mag(a)
    ensures Negative(b) <==> sign == MINUS
  {
    ValAgrees(a, b, Len(a));
  }

  /** A copy of a with another sign. */
  method WithSign(a: array<int>, sign: int) returns (b: array<int>)
    requires a.Length == RSA_MAX && Tidy(a[..])
    ensures fresh(b) && b.Length == RSA_MAX && Tidy(b[..])
    ensures Len(b[..]) == Len(a[..]) && Mag(b[..]) == Mag(a[..])
    ensures Negative(b[..]) <==> sign == MINUS
  {
    b := new int[RSA_MAX];
    Mov(a, b);
    b[RSA_MAX-2] := sign;
    SignSlot(a[..], b[..], sign);
  }

  /** The operands of add whose sum fits, and whose difference sub can take when signs differ. */
  ghost predicate Addable(a: seq<int>, b: seq<int>) {
    && Tidy(a) && Tidy(b) && |a| == |b| == RSA_MAX
    && if Negative(a) == Negative(b) then Len(a) <= RSA_MAX - 3 && Len(b) <= RSA_MAX - 3
       else if Negative(a) then Orderly(b, a)
       else Orderly(a, b)
  }

  ghost predicate Subtractable(a: seq<int>, b: seq<int>) {
    && Tidy(a) && Tidy(b) && |a| == |b| == RSA_MAX
    && if Negative(a) != Negative(b) then Len(a) <= RSA_MAX - 3 && Len(b) <= RSA_MAX - 3
       else if Negative(a) then Orderly(b, a)
       else Orderly(a, b)
  }

  method Add(a1: array<int>, a2: array<int>, c: array<int>)
    requires a1 != c && a2 != c && a1.Length == a2.Length == c.Length == RSA_MAX
    requires Addable(a1[..], a2[..]) && !Negative(c[..])
    modifies c
    ensures Tidy(c[..]) && Value(c[..]) == Value(a1[..]) + Value(a2[..])
    ensures Negative(a1[..]) != Negative(a2[..]) ==> (Negative(c[..]) <==> Value(c[..]) < 0)
    ensures Negative(a1[..]) == Negative(a2[..]) ==> (Negative(c[..]) <==> Negative(a1[..]))
    decreases if Negative(a1[..]) == Negative(a2[..]) then 0 else 1
  {
    if a1[RSA_MAX-2] == MINUS && a2[RSA_MAX-2] == MINUS {
      c[RSA_MAX-2] := MINUS;
    } else if a1[RSA_MAX-2] == MINUS {
      var temp := WithSign(a1, 0);
      Sub(a2, temp, c);
      return;
    } else if a2[RSA_MAX-2] == MINUS {
      var temp := WithSign(a2, 0);
      Sub(a1, temp, c);
      return;
    }
    assert a1[..] == old(a1[..]) && a2[..] == old(a2[..]);
    AddMagnitudes(a1, a2, c);
  }

  method Sub(a1: array<int>, a2: array<int>, c: array<int>)
    requires a1 != c && a2 != c && a1.Length == a2.Length == c.Length == RSA_MAX
    requires Subtractable(a1[..], a2[..]) || LongZero(a1[..], a2[..])
    requires !Negative(c[..])
    modifies c
    ensures Tidy(c[..])
    ensures Subtractable(a1[..], a2[..]) ==> Value(c[..]) == Value(a1[..]) - Value(a2[..])
    ensures LongZero(a1[..], a2[..]) ==> Value(c[..]) == Pow10(Len(a1[..])) - Mag(a2[..])
    ensures Negative(a1[..]) == Negative(a2[..]) ==> Canonical(c[..]) && (Negative(c[..]) <==> Value(c[..]) < 0)
    ensures Negative(a1[..]) != Negative(a2[..]) ==> (Negative(c[..]) <==> Negative(a1[..]))
    decreases if !Negative(a1[..]) && !Negative(a2[..]) then 0 else 1
  {
    if a1[RSA_MAX-2] == MINUS && a2[RSA_MAX-2] == MINUS {
      var t1 := WithSign(a1, 0);
      var t2 := WithSign(a2, 0);
      Sub(t2, t1, c);
    } else if a2[RSA_MAX-2] == MINUS {
      var t2 := WithSign(a2, 0);
      Add(a1, t2, c);
    } else if a1[RSA_MAX-2] == MINUS {
      var t2 := WithSign(a2, MINUS);
      Add(a1, t2, c);
    } else {
      if Subtractable(a1[..], a2[..]) {
        SubtractableIsNoLongZero(a1[..], a2[..]);
      }
      SubMagnitudes(a1, a2, c);
    }
  }
}
