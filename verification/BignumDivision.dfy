/** Long division by trial subtraction, as in rsa.cpp. */
module BignumDivision {
  import opened Decimal
  import opened Integers
  import opened Bignum
  import opened BignumArithmetic

  method Clear(c: array<int>, from: nat)
    requires from <= c.Length
    modifies c
    ensures forall i | 0 <= i < c.Length :: c[i] == if i < from then old(c[i]) else 0
  {
    for j := from to c.Length
      invariant forall i | 0 <= i < c.Length :: c[i] == if from <= i < j then 0 else old(c[i])
    {
      c[j] := 0;
    }
  }

  /** A nonnegative number without leading zeros. */
  ghost predicate Natural(a: seq<int>) {
    |a| == RSA_MAX && Canonical(a) && !Negative(a)
  }

  lemma PowerOfTen(d: seq<int>, i: nat)
    requires |d| == RSA_MAX && i < RSA_MAX - 2
    requires forall j | 0 <= j < RSA_MAX - 1 && j != i :: d[j] == 0
    requires d[i] == 1 && d[RSA_MAX-1] == i + 1
    ensures Natural(d) && Mag(d) == Pow10(i) && Len(d) == i + 1
  {
    ValZeros(d, 0, i);
    assert Val(d, i + 1) == Val(d, i) + d[i] * Pow10(i);
  }

  lemma ShiftBound(x: int, p: int, q: int)
    requires x < p && q > 0
    ensures x * q < p * q
  {
    MulMonotone(x + 1, p, q);
    assert (x + 1) * q == x * q + q;
  }

  lemma ShiftFits(b: seq<int>, d: seq<int>, i: nat)
    requires Natural(b) && Natural(d) && Len(b) + i + 1 <= RSA_MAX - 1 && Mag(d) == Pow10(i) && Len(d) == i + 1
    ensures Multipliable(b, d)
  {
    TidyBounds(b);
    Pow10Sum(Len(b), i);
    ShiftBound(Mag(b), Pow10(Len(b)), Pow10(i));
    hide Pow10, Val;
  }

  lemma ShiftLength(b: seq<int>, e: seq<int>, i: nat)
    requires Natural(b) && Mag(b) > 0 && Natural(e) && Mag(e) == Mag(b) * Pow10(i)
    ensures Len(e) == Len(b) + i
  {
    hide Pow10, Val;
    TidyBounds(b);
    TidyBounds(e);
    Pow10Sum(Len(b), i);
    ShiftBound(Mag(b), Pow10(Len(b)), Pow10(i));
    Pow10Sum(Len(b) - 1, i);
    MulMonotone(Pow10(Len(b) - 1), Mag(b), Pow10(i));
    if Len(e) < Len(b) + i {
      Pow10Monotone(Len(e), Len(b) - 1 + i);
    }
    if Len(e) > Len(b) + i {
      Pow10Monotone(Len(b) + i, Len(e) - 1);
    }
  }

  /** e := b * 10^i, for an e that is all zeros. */
  method Shift(b: array<int>, e: array<int>, i: nat)
    requires b.Length == e.Length == RSA_MAX && b != e
    requires Natural(b[..]) && Mag(b[..]) > 0 && Len(b[..]) + i + 1 <= RSA_MAX - 1
    requires Zeroed(e[..])
    modifies e
    ensures Natural(e[..]) && Mag(e[..]) == Mag(b[..]) * Pow10(i) > 0 && Len(e[..]) == Len(b[..]) + i
    ensures forall j | 0 <= j < i :: e[j] == 0
  {
    var d, g := new int[RSA_MAX], new int[RSA_MAX];
    Clear(d, 0);
    d[i] := 1;
    d[RSA_MAX-1] := i + 1;
    Mov(b, g);
    PowerOfTen(d[..], i);
    ghost var B, D := g[..], d[..];
    ShiftFits(B, D, i);
    Mul(g, d, e);
    assert g[..] == B && d[..] == D;
    ProductTidy(B, D, e[..]);
    ShiftLength(B, e[..], i);
    ValMultiple(e[..], Len(e[..]), i, Mag(B));
  }

  /** a := a - e, by way of f. */
  method TakeAway(a: array<int>, e: array<int>, f: array<int>)
    requires a.Length == e.Length == f.Length == RSA_MAX
    requires a != e && a != f && e != f
    requires Natural(e[..]) && Mag(e[..]) > 0 && !Negative(f[..])
    requires LongZero(a[..], e[..]) || (Natural(a[..]) && Mag(e[..]) <= Mag(a[..]))
    modifies a, f
    ensures Natural(a[..]) && !Negative(f[..])
    ensures Mag(a[..]) == old(AsRead(a[..], e[..])) - Mag(e[..])
  {
    DifferenceSign(a[..], e[..]);
    Sub(a, e, f);
    Mov(f, a);
  }

  /** What long division may be handed: no leading zeros, or a zero no longer than the divisor. */
  ghost predicate Dividend(t: seq<int>, b: seq<int>)
    requires Natural(b)
  {
    && |t| == RSA_MAX && WellFormed(t) && !Negative(t) && 1 <= Len(t) <= RSA_MAX - 2
    && (Canonical(t) || (Mag(t) == 0 && Len(t) <= Len(b)))
  }

  lemma DividendCompare(t: seq<int>, b: seq<int>)
    requires Natural(b) && Mag(b) > 0 && Dividend(t, b)
    ensures Compare(t, b) == Sign(Mag(t) - Mag(b))
    ensures !Canonical(t) ==> Compare(t, b) == -1
    ensures Mag(t) >= 0
    ensures Mag(t) >= Mag(b) ==> Len(t) >= Len(b) && Mag(t) < Mag(b) * Pow10(Len(t) - Len(b) + 1)
  {
    ValBounds(t, Len(t));
    TidyBounds(b);
    hide Pow10, Val;
    if Canonical(t) {
      CompareOrders(t, b);
      if Mag(t) >= Mag(b) {
        TidyBounds(t);
        if Len(t) < Len(b) {
          Pow10Monotone(Len(t), Len(b) - 1);
        }
        Pow10Sum(Len(b) - 1, Len(t) - Len(b) + 1);
        MulMonotone(Pow10(Len(b) - 1), Mag(b), Pow10(Len(t) - Len(b) + 1));
      }
    } else if Len(t) == Len(b) {
      CompareDownOrders(t, b, Len(b));
    }
  }

  /** How a zero compares with b > 0: rightly exactly when it has no more places than b. */
  lemma ZeroCompares(t: seq<int>, b: seq<int>)
    requires |t| == RSA_MAX && WellFormed(t) && !Negative(t) && Mag(t) == 0 && Natural(b) && Mag(b) > 0
    ensures Compare(t, b) == Sign(Mag(t) - Mag(b)) <==> Len(t) <= Len(b)
    ensures Compare(t, b) == Sign(AsRead(t, b) - Mag(b))
  {
    if Len(t) > Len(b) {
      LongZeroReads(t, b);
    } else if Len(t) == Len(b) {
      CompareDownOrders(t, b, Len(b));
    }
  }

  /** Any nonnegative dividend without leading zeros, and any zero. */
  ghost predicate Divisible(t: seq<int>, b: seq<int>)
    requires Natural(b)
  {
    Dividend(t, b) || LongZero(t, b)
  }

  lemma DivisibleCompare(t: seq<int>, b: seq<int>)
    requires Natural(b) && Mag(b) > 0 && Divisible(t, b)
    ensures Compare(t, b) == Sign(AsRead(t, b) - Mag(b)) && AsRead(t, b) >= 0
  {
    if LongZero(t, b) {
      LongZeroReads(t, b);
    } else {
      DividendCompare(t, b);
    }
  }

  /** A number without leading zeros is read as what it is. */
  lemma NaturalIsRead(a: seq<int>, e: seq<int>)
    requires Natural(a) && Natural(e) && Mag(e) > 0
    ensures !LongZero(a, e) && Dividend(a, e) && AsRead(a, e) == Mag(a) >= 0
    ensures Compare(a, e) == Sign(Mag(a) - Mag(e))
  {
    TidyBounds(a);
    CompareOrders(a, e);
  }

  /** What is not below e is read as a number without leading zeros, or is a longer zero. */
  lemma NotBelow(a: seq<int>, e: seq<int>)
    requires Natural(e) && Mag(e) > 0 && Divisible(a, e)
    ensures AsRead(a, e) >= Mag(e) ==> LongZero(a, e) || (Natural(a) && AsRead(a, e) == Mag(a))
    ensures AsRead(a, e) < Mag(e) ==> Dividend(a, e) && AsRead(a, e) == Mag(a)
  {
    if LongZero(a, e) {
      LongZeroReads(a, e);
    }
  }

  lemma CountBound(start: int, left: int, count: nat, e: int)
    requires start == left + count * e && 0 <= left && 0 < e
    ensures start < 10 * e ==> count <= 9
  {
    if count >= 10 {
      MulMonotone(10, count, e);
    }
  }

  /** Subtracts e from a while it fits, counting in place i of c; a < 10e allows for at most nine times. */
  method TrialDigit(a: array<int>, e: array<int>, f: array<int>, c: array<int>, i: nat) returns (ghost count: nat)
    requires a.Length == e.Length == f.Length == c.Length == RSA_MAX && i < RSA_MAX
    requires a != e && a != f && a != c && e != f && e != c && f != c
    requires Natural(e[..]) && Mag(e[..]) > 0 && Divisible(a[..], e[..]) && !Negative(f[..])
    modifies a, f, c
    ensures if count == 0 then a[..] == old(a[..]) else Natural(a[..])
    ensures Dividend(a[..], e[..]) && 0 <= Mag(a[..]) < Mag(e[..]) && !Negative(f[..])
    ensures old(AsRead(a[..], e[..])) == Mag(a[..]) + count * Mag(e[..])
    ensures old(AsRead(a[..], e[..])) < 10 * Mag(e[..]) ==> count <= 9
    ensures c[..] == old(c[..])[i := old(c[i]) + count]
  {
    hide Pow10, Val;
    ghost var E, start := e[..], AsRead(a[..], e[..]);
    ghost var step := Mag(E);
    count := 0;
    DivisibleCompare(a[..], E);
    var r := Cmp(a, e);
    while r != -1
      invariant e[..] == E && Divisible(a[..], E) && !Negative(f[..])
      invariant if count == 0 then a[..] == old(a[..]) else Natural(a[..])
      invariant r == Sign(AsRead(a[..], E) - step) && AsRead(a[..], E) >= 0
      invariant start == AsRead(a[..], E) + count * step
      invariant c[..] == old(c[..])[i := old(c[i]) + count]
      decreases AsRead(a[..], E)
    {
      c[i] := c[i] + 1;
      ghost var C, before := c[..], AsRead(a[..], E);
      NotBelow(a[..], E);
      TakeAway(a, e, f);
      assert c[..] == C && Mag(a[..]) == before - step;
      count := count + 1;
      assert count * step == (count - 1) * step + step;
      NaturalIsRead(a[..], E);
      r := Cmp(a, e);
    }
    NotBelow(a[..], E);
    CountBound(start, Mag(a[..]), count, step);
  }

  /** The quotient so far, when it started as all zeros: places below i are still untouched. */
  ghost predicate QuotientFrom(c: seq<int>, m: nat, i: nat, q: int) {
    && |c| == RSA_MAX && i <= m + 1 <= RSA_MAX - 2
    && Digits(c, m + 1) && Val(c, m + 1) == q
    && (forall k | 0 <= k < i :: c[k] == 0)
    && !Negative(c)
  }

  lemma QuotientStep(c: seq<int>, c': seq<int>, m: nat, i: nat, q: int, count: nat)
    requires QuotientFrom(c, m, i + 1, q) && i <= m && count <= 9
    requires c' == c[i := c[i] + count]
    ensures QuotientFrom(c', m, i, q + count * Pow10(i))
  {
    ValUpdate(c, c', m + 1, i);
  }

  lemma RemainderStep(t: int, b: int, q: int, a: int, a': int, count: int, p: int)
    requires t == b * q + a && a == a' + count * (b * p)
    ensures t == b * (q + count * p) + a'
  {
    assert b * (q + count * p) == b * q + b * (count * p);
    assert b * (count * p) == count * (b * p);
  }

  /** What is left to divide before place i; a long zero of Len(b) + i places waits for the next one. */
  ghost predicate LeftToDivide(a: seq<int>, b: seq<int>, i: nat) {
    && Natural(b) && Mag(b) > 0 && Len(b) + i <= RSA_MAX - 2
    && if LongZero(a, b) then Len(b) + i <= Len(a) <= Len(b) + i + 1
       else Natural(a) && Mag(a) < Mag(b) * Pow10(i + 1)
  }

  lemma TenTimes(x: int, i: nat)
    ensures x * Pow10(i + 1) == 10 * (x * Pow10(i))
  {
    assert x * (10 * Pow10(i)) == 10 * (x * Pow10(i));
  }

  lemma PlaceReads(a: seq<int>, b: seq<int>, e: seq<int>, i: nat)
    requires LeftToDivide(a, b, i)
    requires Natural(e) && Mag(e) == Mag(b) * Pow10(i) > 0 && Len(e) == Len(b) + i
    ensures Divisible(a, e)
    ensures AsRead(a, e) == if LongZero(a, b) && Len(a) == Len(b) + i then 0 else AsRead(a, b)
    ensures !LongZero(a, b) ==> AsRead(a, e) < 10 * Mag(e)
  {
    TenTimes(Mag(b), i);
    hide Pow10, Val;
    if !LongZero(a, b) {
      NaturalIsRead(a, e);
      NaturalIsRead(a, b);
    }
  }

  /** A zero that waits is not touched; anything else leaves a number below the shifted divisor. */
  lemma PlaceLeft(a: seq<int>, a': seq<int>, b: seq<int>, e: seq<int>, i: nat, count: nat)
    requires LeftToDivide(a, b, i)
    requires Natural(e) && Mag(e) == Mag(b) * Pow10(i) > 0 && Len(e) == Len(b) + i
    requires Dividend(a', e) && 0 <= Mag(a') < Mag(e) && AsRead(a, e) == Mag(a') + count * Mag(e)
    requires if count == 0 then a' == a else Natural(a')
    ensures AsRead(a, b) == AsRead(a', b) + count * Mag(e)
    ensures if LongZero(a, b) && Len(a) == Len(b) + i then a' == a && count == 0 else Natural(a')
  {
    hide Pow10, Val;
    PlaceReads(a, b, e, i);
    if LongZero(a, b) && Len(a) == Len(b) + i {
      if count >= 1 {
        MulMonotone(1, count, Mag(e));
      }
    } else {
      if LongZero(a, b) && count == 0 {
        LongZeroReads(a, e);
      }
      NaturalIsRead(a', b);
    }
  }

  /** One place of the quotient. */
  method DivPlace(a: array<int>, b: array<int>, c: array<int>, e: array<int>, f: array<int>, i: nat,
                  ghost t: int, ghost q: int)
    returns (ghost count: nat)
    requires a.Length == b.Length == c.Length == e.Length == f.Length == RSA_MAX
    requires a != b && a != c && a != e && a != f && b != c && b != e && b != f && c != e && c != f && e != f
    requires LeftToDivide(a[..], b[..], i)
    requires t == Mag(b[..]) * q + AsRead(a[..], b[..])
    requires Zeroed(e[..]) && !Negative(f[..])
    modifies a, c, e, f
    ensures Zeroed(e[..]) && !Negative(f[..])
    ensures if old(LongZero(a[..], b[..])) && old(Len(a[..])) == Len(b[..]) + i
            then a[..] == old(a[..]) && count == 0
            else Natural(a[..]) && 0 <= Mag(a[..]) < Mag(b[..]) * Pow10(i)
    ensures t == Mag(b[..]) * (q + count * Pow10(i)) + AsRead(a[..], b[..])
    ensures !old(LongZero(a[..], b[..])) ==> count <= 9
    ensures c[..] == old(c[..])[i := old(c[i]) + count]
  {
    hide Pow10, Val;
    ghost var A, B, C := a[..], b[..], c[..];
    Shift(b, e, i);
    assert a[..] == A && b[..] == B && c[..] == C;
    ghost var E := e[..];
    PlaceReads(A, B, E, i);
    count := TrialDigit(a, e, f, c, i);
    assert b[..] == B && e[..] == E;
    PlaceLeft(A, a[..], B, E, i, count);
    RemainderStep(t, Mag(B), q, AsRead(A, B), AsRead(a[..], B), count, Pow10(i));
    Clear(e, i);
  }

  /** The number of quotient places, given that the quotient is not too small for m places. */
  lemma QuotientLength(c: seq<int>, c': seq<int>, m: nat, q: int)
    requires QuotientFrom(c, m, 0, q) && |c'| == RSA_MAX
    requires q >= if m == 0 then 1 else Pow10(m - 1)
    requires c' == c[RSA_MAX-1 := if c[m] == 0 then m else m + 1]
    ensures Natural(c') && Mag(c') == q
  {
    ValAgrees(c, c', Len(c'));
    if c[m] == 0 {
      assert Val(c, m + 1) == Val(c, m);
      if m > 0 {
        TopDigit(c', m);
      }
    }
  }

  lemma QuotientLarge(t: int, b: int, q: int, r: int, m: nat, lb: nat)
    requires t == b * q + r && 0 <= r < b < Pow10(lb) && Pow10(lb + m) <= t
    ensures q >= Pow10(m)
  {
    if q < Pow10(m) {
      MulMonotone(q + 1, Pow10(m), b);
      assert b * q + b == (q + 1) * b;
      MulMonotone(b, Pow10(lb), Pow10(m));
      Pow10Sum(lb, m);
    }
  }

  lemma QuotientNotSmall(t: seq<int>, b: seq<int>, q: int, r: int)
    requires Natural(t) && Natural(b) && 0 < Mag(b) < Mag(t) && Len(b) <= Len(t)
    requires Mag(t) == Mag(b) * q + r && 0 <= r < Mag(b)
    ensures q >= if Len(t) == Len(b) then 1 else Pow10(Len(t) - Len(b) - 1)
  {
    TidyBounds(t);
    TidyBounds(b);
    if Len(t) > Len(b) {
      QuotientLarge(Mag(t), Mag(b), q, r, Len(t) - Len(b) - 1, Len(b));
    }
  }

  /** A number with the single digit x. */
  method SetDigit(c: array<int>, x: int)
    requires c.Length == RSA_MAX && 0 <= x <= 9
    modifies c
    ensures Canonical(c[..]) && Mag(c[..]) == x
    ensures c[RSA_MAX-2] == old(c[RSA_MAX-2])
  {
    c[0] := x;
    c[RSA_MAX-1] := 1;
    assert Val(c[..], 1) == Val(c[..], 0) + c[0] * Pow10(0);
  }

  /** The places of the quotient from the top, and the remainder in a. */
  method DivPlaces(a: array<int>, b: array<int>, c: array<int>, m: nat, ghost clean: bool) returns (ghost q: int)
    requires a.Length == b.Length == c.Length == RSA_MAX && a != b && a != c && b != c
    requires LeftToDivide(a[..], b[..], m)
    requires LongZero(a[..], b[..]) ==> m == Len(a[..]) - Len(b[..])
    requires clean ==> Zeroed(c[..]) && !LongZero(a[..], b[..])
    modifies a, c
    ensures Natural(a[..]) && 0 <= Mag(a[..]) < Mag(b[..])
    ensures old(AsRead(a[..], b[..])) == Mag(b[..]) * q + Mag(a[..])
    ensures clean ==> QuotientFrom(c[..], m, 0, q)
  {
    ghost var A, B, t := a[..], b[..], AsRead(a[..], b[..]);
    var e, f := new int[RSA_MAX](_ => 0), new int[RSA_MAX](_ => 0);
    q := 0;
    if clean {
      ValZeros(c[..], 0, m + 1);
      assert QuotientFrom(c[..], m, m + 1, q);
    }
    hide Pow10, Val, LongZero, Natural, QuotientFrom;
    var i: int := m;
    while i >= 0
      invariant -1 <= i <= m
      invariant b[..] == B && Zeroed(e[..]) && !Negative(f[..])
      invariant i >= 0 ==> LeftToDivide(a[..], B, i)
      invariant LongZero(a[..], B) ==> a[..] == A && i >= m - 1 >= 0
      invariant i == -1 ==> Natural(a[..]) && 0 <= Mag(a[..]) < Mag(B)
      invariant t == Mag(B) * q + AsRead(a[..], B)
      invariant clean ==> QuotientFrom(c[..], m, i + 1, q) && !LongZero(a[..], B)
    {
      ghost var before, C := a[..], c[..];
      ghost var count := DivPlace(a, b, c, e, f, i, t, q);
      assert b[..] == B;
      NextPlace(before, a[..], B, i);
      if clean {
        QuotientStep(C, c[..], m, i, q, count);
      }
      q := q + count * Pow10(i);
      i := i - 1;
    }
  }

  lemma NextPlace(a: seq<int>, a': seq<int>, b: seq<int>, i: nat)
    requires LeftToDivide(a, b, i)
    requires if LongZero(a, b) && Len(a) == Len(b) + i then a' == a else Natural(a') && 0 <= Mag(a') < Mag(b) * Pow10(i)
    ensures if i > 0 then LeftToDivide(a', b, i - 1) else Natural(a') && 0 <= Mag(a') < Mag(b)
    ensures Natural(a') ==> !LongZero(a', b)
  {
    if Natural(a') {
      NaturalIsRead(a', b);
    }
  }

  /**
   w := t mod b, and c := t div b when c comes in as all zeros. Whatever c holds, the remainder is right, but for
   a zero with more places than b: it is divided as the power of ten that has so many zeros.
   */
  method Divt(t: array<int>, b: array<int>, c: array<int>, w: array<int>)
    requires t.Length == b.Length == c.Length == w.Length == RSA_MAX
    requires c != w && c != t && c != b && w != t && w != b
    requires Natural(b[..]) && Mag(b[..]) > 0 && Divisible(t[..], b[..])
    requires !Negative(w[..])
    modifies c, w
    ensures WellFormed(w[..]) && !Negative(w[..])
    ensures Dividend(t[..], b[..]) ==> Mag(w[..]) == Mag(t[..]) % Mag(b[..])
    ensures LongZero(t[..], b[..]) ==> Mag(w[..]) == Pow10(Len(t[..])) % Mag(b[..])
    ensures if Canonical(t[..]) || LongZero(t[..], b[..]) then Natural(w[..]) else w[..] == t[..]
    ensures old(Zeroed(c[..])) && Dividend(t[..], b[..]) ==>
              Natural(c[..]) && Mag(c[..]) == Mag(t[..]) / Mag(b[..])
  {
    hide Pow10, Val, QuotientFrom;
    ghost var T, B := t[..], b[..];
    ghost var clean := Zeroed(c[..]) && !LongZero(T, B);
    DivisibleCompare(T, B);
    NotBelow(T, B);
    if Dividend(T, B) {
      DividendIsNoLongZero(T, B);
    }
    var a := new int[RSA_MAX];
    Mov(t, a);
    var a1, b1 := a[RSA_MAX-1], b[RSA_MAX-1];
    var r := Cmp(a, b);
    if r == -1 {
      DivisionUnique(Mag(T), Mag(B), 0, Mag(T));
      SetDigit(c, 0);
      Mov(t, w);
      return;
    } else if r == 0 {
      DivisionUnique(AsRead(T, B), Mag(B), 1, 0);
      SetDigit(c, 1);
      SetDigit(w, 0);
      return;
    }
    var m := a1 - b1;
    FirstPlace(T, B);
    ghost var q := DivPlaces(a, b, c, m, clean);
    assert t[..] == T && b[..] == B && !Negative(w[..]);
    DivisionUnique(AsRead(T, B), Mag(B), q, Mag(a[..]));
    if clean {
      QuotientNotSmall(T, B, q, Mag(a[..]));
      QuotientLength(c[..], c[..][RSA_MAX-1 := if c[m] == 0 then m else m + 1], m, q);
    }
    Mov(a, w);
    if c[m] == 0 {
      c[RSA_MAX-1] := m;
    } else {
      c[RSA_MAX-1] := m + 1;
    }
  }

  lemma DividendIsNoLongZero(t: seq<int>, b: seq<int>)
    requires Natural(b) && Mag(b) > 0 && Dividend(t, b)
    ensures !LongZero(t, b)
  {
    DividendCompare(t, b);
    TidyBounds(b);
    if Canonical(t) {
      TidyBounds(t);
    }
  }

  lemma FirstPlace(t: seq<int>, b: seq<int>)
    requires Natural(b) && Mag(b) > 0 && Divisible(t, b) && AsRead(t, b) >= Mag(b)
    ensures Len(t) >= Len(b) && LeftToDivide(t, b, Len(t) - Len(b))
  {
    NotBelow(t, b);
    if !LongZero(t, b) {
      DividendCompare(t, b);
    }
  }
}
