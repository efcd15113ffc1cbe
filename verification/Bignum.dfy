/**
 The decimal numbers of rsa.cpp: an array whose last slot holds the number of digits, whose
 last but one holds the sign, and whose first slots hold the digits, least significant first.
 */
module Bignum {
  import opened Decimal
  import opened Integers

  const RSA_MAX := 100
  const MINUS := '-' as int

  function Len(a: seq<int>): int
    requires |a| >= 2
  {
    a[|a|-1]
  }

  predicate Negative(a: seq<int>)
    requires |a| >= 2
  {
    a[|a|-2] == MINUS
  }

  ghost predicate WellFormed(a: seq<int>) {
    && |a| >= 3
    && 0 <= Len(a) <= |a| - 2
    && Digits(a, Len(a))
  }

  /** No leading zero; zero itself may have one digit or none. */
  ghost predicate Tidy(a: seq<int>) {
    WellFormed(a) && (Len(a) > 1 ==> a[Len(a)-1] != 0)
  }

  ghost predicate Canonical(a: seq<int>) {
    Tidy(a) && Len(a) >= 1
  }

  /** The magnitude. */
  ghost function Mag(a: seq<int>): int
    requires WellFormed(a)
  {
    Val(a, Len(a))
  }

  ghost function Value(a: seq<int>): int
    requires WellFormed(a)
  {
    if Negative(a) then -Mag(a) else Mag(a)
  }

  lemma TidyBounds(a: seq<int>)
    requires Tidy(a)
    ensures 0 <= Mag(a) < Pow10(Len(a))
    ensures Len(a) >= 1 && Mag(a) > 0 ==> Pow10(Len(a) - 1) <= Mag(a)
    ensures Len(a) > 1 ==> Mag(a) > 0
  {
    ValBounds(a, Len(a));
    if Len(a) >= 1 {
      ValBounds(a, Len(a) - 1);
      if a[Len(a)-1] >= 1 {
        MulMonotone(1, a[Len(a)-1], Pow10(Len(a) - 1));
      }
    }
  }

  /** What the comparison reads: the lengths in slot 99, then the digits from the top. */
  function Compare(a: seq<int>, b: seq<int>): int
    requires |a| == |b| >= 100 && a[99] <= |a| && b[99] <= |b|
  {
    if a[99] > b[99] then 1 else if a[99] < b[99] then -1 else CompareDown(a, b, a[99])
  }

  function CompareDown(a: seq<int>, b: seq<int>, n: int): int
    requires n <= |a| && n <= |b|
    decreases if n < 0 then 0 else n
  {
    if n <= 0 then 0
    else if a[n-1] > b[n-1] then 1
    else if a[n-1] < b[n-1] then -1
    else CompareDown(a, b, n - 1)
  }

  method Cmp(a1: array<int>, a2: array<int>) returns (r: int)
    requires a1.Length == a2.Length >= 100 && a1[99] <= a1.Length && a2[99] <= a2.Length
    ensures r == Compare(a1[..], a2[..])
  {
    var l1, l2 := a1[99], a2[99];
    if l1 > l2 {
      return 1;
    }
    if l1 < l2 {
      return -1;
    }
    var i := l1 - 1;
    while i >= 0
      invariant -1 <= i < l1 || i == l1 - 1
      invariant CompareDown(a1[..], a2[..], i + 1) == CompareDown(a1[..], a2[..], l1)
    {
      if a1[i] > a2[i] {
        return 1;
      }
      if a1[i] < a2[i] {
        return -1;
      }
      i := i - 1;
    }
    return 0;
  }

  lemma {:induction false} CompareDownOrders(a: seq<int>, b: seq<int>, n: nat)
    requires n <= |a| && n <= |b| && Digits(a, n) && Digits(b, n)
    ensures CompareDown(a, b, n) == Sign(Val(a, n) - Val(b, n))
  {
    if n > 0 {
      if a[n-1] > b[n-1] {
        ValCompare(b, a, n, n - 1);
      } else if a[n-1] < b[n-1] {
        ValCompare(a, b, n, n - 1);
      } else {
        CompareDownOrders(a, b, n - 1);
      }
    }
  }

  /** On numbers without leading zeros of a 100-slot layout the comparison orders the magnitudes. */
  lemma CompareOrders(a: seq<int>, b: seq<int>)
    requires Tidy(a) && Tidy(b) && |a| == |b| == RSA_MAX
    requires Len(a) == Len(b) || Mag(a) > 0 || Mag(b) > 0
    ensures Compare(a, b) == Sign(Mag(a) - Mag(b))
  {
    TidyBounds(a);
    TidyBounds(b);
    hide Pow10, Val, Tidy;
    if Len(a) == Len(b) {
      CompareDownOrders(a, b, Len(a));
    } else if Len(a) < Len(b) {
      Pow10Monotone(Len(a), Len(b) - 1);
    } else {
      Pow10Monotone(Len(b), Len(a) - 1);
    }
  }

  /** A one-digit number in a layout of r slots. */
  function OneDigit(x: int, r: nat): seq<int>
    requires r >= 3
  {
    seq(r, i => if i == 0 then x else if i == r - 1 then 1 else 0)
  }

  /**
   The literal slot 99 is the length slot of one layout only. With any other number of slots,
   among them the 800 that rsa.h asks for, 2 and 1 compare as equal.
   */
  lemma CompareNeedsHundredSlots(r: nat)
    requires r >= 100
    ensures (forall a, b | Canonical(a) && Canonical(b) && |a| == |b| == r ::
               a[99] <= r && b[99] <= r && Compare(a, b) == Sign(Mag(a) - Mag(b)))
            <==> r == RSA_MAX
  {
    if r == RSA_MAX {
      forall a, b | Canonical(a) && Canonical(b) && |a| == |b| == r
        ensures a[99] <= r && b[99] <= r && Compare(a, b) == Sign(Mag(a) - Mag(b))
      {
        TidyBounds(a);
        TidyBounds(b);
        CompareOrders(a, b);
      }
    } else {
      var two, one := OneDigit(2, r), OneDigit(1, r);
      assert Canonical(two) && Canonical(one);
      assert two[99] == 0 && one[99] == 0;
      assert Pow10(0) == 1 && Val(two, 0) == 0 && Val(one, 0) == 0;
      assert Mag(two) == 2 && Mag(one) == 1;
    }
  }

  method Mov(a: array<int>, b: array<int>)
    requires a.Length == b.Length && a != b
    modifies b
    ensures b[..] == a[..]
  {
    for j := 0 to a.Length
      invariant forall i | 0 <= i < j :: b[i] == a[i]
      invariant a[..] == old(a[..])
    {
      b[j] := a[j];
    }
  }
}
