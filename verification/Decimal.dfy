/** Numbers written as decimal digits, the least significant digit first. */
module Decimal {
  import opened Integers

  function Pow10(n: nat): (p: int)
    ensures p >= 1
  {
    if n == 0 then 1 else 10 * Pow10(n - 1)
  }

  /** The number written in the first n places of a; a place may exceed 9 for a while. */
  function Val(a: seq<int>, n: nat): int
    requires n <= |a|
  {
    if n == 0 then 0 else Val(a, n - 1) + a[n-1] * Pow10(n - 1)
  }

  ghost predicate Digits(a: seq<int>, n: nat)
    requires n <= |a|
  {
    forall i | 0 <= i < n :: 0 <= a[i] <= 9
  }

  lemma ValNext(a: seq<int>, n: nat)
    requires n < |a|
    ensures Val(a, n + 1) == Val(a, n) + a[n] * Pow10(n)
  {
  }

  lemma {:induction false} Pow10Sum(m: nat, n: nat)
    ensures Pow10(m + n) == Pow10(m) * Pow10(n)
  {
    if m > 0 {
      Pow10Sum(m - 1, n);
      assert Pow10(m + n) == 10 * Pow10(m - 1 + n);
      assert Pow10(m) * Pow10(n) == 10 * (Pow10(m - 1) * Pow10(n));
    }
  }

  lemma {:induction false} Pow10Monotone(m: nat, n: nat)
    requires m <= n
    ensures Pow10(m) <= Pow10(n)
    decreases n
  {
    if m < n {
      Pow10Monotone(m, n - 1);
    }
  }

  lemma Distribute(x: int, y: int, p: int, q: int)
    ensures (x + y * p) * q == x * q + y * (p * q)
  {
    assert (x + y * p) * q == x * q + (y * p) * q;
    assert (y * p) * q == y * (p * q);
  }

  lemma {:induction false} ValAgrees(a: seq<int>, b: seq<int>, n: nat)
    requires n <= |a| && n <= |b|
    requires forall i | 0 <= i < n :: a[i] == b[i]
    ensures Val(a, n) == Val(b, n)
  {
    if n > 0 {
      ValAgrees(a, b, n - 1);
    }
  }

  lemma {:induction false} ValUpdate(a: seq<int>, b: seq<int>, n: nat, w: nat)
    requires w < n <= |a| && n <= |b|
    requires forall i | 0 <= i < n && i != w :: a[i] == b[i]
    ensures Val(b, n) == Val(a, n) + (b[w] - a[w]) * Pow10(w)
  {
    if w == n - 1 {
      ValAgrees(a, b, n - 1);
      assert (b[w] - a[w]) * Pow10(w) == b[w] * Pow10(w) - a[w] * Pow10(w);
    } else {
      ValUpdate(a, b, n - 1, w);
    }
  }

  lemma {:induction false} ValZeros(a: seq<int>, m: nat, n: nat)
    requires m <= n <= |a|
    requires forall i | m <= i < n :: a[i] == 0
    ensures Val(a, n) == Val(a, m)
    decreases n
  {
    if m < n {
      ValZeros(a, m, n - 1);
      assert a[n-1] * Pow10(n - 1) == 0;
    }
  }

  lemma {:induction false} ValBounds(a: seq<int>, n: nat)
    requires n <= |a| && Digits(a, n)
    ensures 0 <= Val(a, n) < Pow10(n)
  {
    if n > 0 {
      ValBounds(a, n - 1);
      MulMonotone(a[n-1], 9, Pow10(n - 1));
      MulMonotone(0, a[n-1], Pow10(n - 1));
    }
  }

  /** One place alone bounds the number from below. */
  lemma {:induction false} ValAtLeast(a: seq<int>, n: nat, k: nat)
    requires k < n <= |a|
    requires forall i | 0 <= i < n :: a[i] >= 0
    ensures Val(a, n) >= a[k] * Pow10(k)
    ensures Val(a, k) >= 0
    decreases n
  {
    if k == n - 1 {
      ValNonnegative(a, k);
    } else {
      ValAtLeast(a, n - 1, k);
      MulMonotone(0, a[n-1], Pow10(n - 1));
    }
  }

  lemma {:induction false} ValNonnegative(a: seq<int>, n: nat)
    requires n <= |a|
    requires forall i | 0 <= i < n :: a[i] >= 0
    ensures Val(a, n) >= 0
  {
    if n > 0 {
      ValNonnegative(a, n - 1);
      MulMonotone(0, a[n-1], Pow10(n - 1));
    }
  }

  /** The first differing place from the top decides. */
  lemma {:induction false} ValCompare(a: seq<int>, b: seq<int>, n: nat, k: nat)
    requires k < n <= |a| && n <= |b| && Digits(a, n) && Digits(b, n)
    requires forall i | k < i < n :: a[i] == b[i]
    requires a[k] < b[k]
    ensures Val(a, n) < Val(b, n)
    decreases n
  {
    if k == n - 1 {
      ValBounds(a, k);
      ValBounds(b, k);
      MulMonotone(a[k] + 1, b[k], Pow10(k));
      assert (a[k] + 1) * Pow10(k) == a[k] * Pow10(k) + Pow10(k);
    } else {
      ValCompare(a, b, n - 1, k);
    }
  }

  /** A multiple of 10^k has zeros in its first k places. */
  lemma {:induction false} ValMultiple(a: seq<int>, n: nat, k: nat, x: int)
    requires k <= n <= |a| && Digits(a, n)
    requires Val(a, n) == x * Pow10(k)
    ensures forall i | 0 <= i < k :: a[i] == 0
  {
    var y := ValSplit(a, n, k);
    ValBounds(a, k);
    assert Val(a, k) == (x - y) * Pow10(k) by {
      assert (x - y) * Pow10(k) == x * Pow10(k) - y * Pow10(k);
    }
    if x - y >= 1 {
      MulMonotone(1, x - y, Pow10(k));
    } else if x - y <= -1 {
      MulMonotone(x - y, -1, Pow10(k));
    }
    ValZero(a, k);
  }

  lemma {:induction false} ValSplit(a: seq<int>, n: nat, k: nat) returns (y: int)
    requires k <= n <= |a|
    ensures Val(a, n) == Val(a, k) + y * Pow10(k)
    decreases n
  {
    if n == k {
      return 0;
    }
    var z := ValSplit(a, n - 1, k);
    Pow10Sum(n - 1 - k, k);
    y := z + a[n-1] * Pow10(n - 1 - k);
    Distribute(z, a[n-1], Pow10(n - 1 - k), Pow10(k));
  }

  lemma {:induction false} ValZero(a: seq<int>, n: nat)
    requires n <= |a| && Digits(a, n) && Val(a, n) == 0
    ensures forall i | 0 <= i < n :: a[i] == 0
  {
    if n > 0 {
      ValBounds(a, n - 1);
      if a[n-1] > 0 {
        MulMonotone(1, a[n-1], Pow10(n - 1));
      }
      ValZero(a, n - 1);
    }
  }
}
