/** How subtraction finds the length of a difference, and when it finds the right one. */
module Stripping {
  import opened Integers
  import opened Decimal

  /** A length, or a read in front of the array. */
  datatype Stripped = Length(len: nat) | BeforeArray

  /** The counting loop: it looks at the places from base - i down. */
  function StripLoop(c: seq<int>, base: nat, i: nat, len: nat): Stripped
    requires base < |c| + i
    decreases base + 1 - i
  {
    if i > base then BeforeArray
    else if c[base-i] == 0 then StripLoop(c, base, i + 1, base - i)
    else Length(len)
  }

  /** What is taken for the length of l places; base is the length of the first operand. */
  function StripLength(c: seq<int>, l: nat, base: nat): Stripped
    requires 1 <= l <= |c| && base <= l
  {
    if c[l-1] == 0 then StripLoop(c, base, 2, l - 1) else Length(l)
  }

  /** The length of l places without leading zeros. */
  function TopLength(c: seq<int>, l: nat): (t: nat)
    requires l <= |c|
    ensures t <= l && (t > 0 ==> c[t-1] != 0)
    ensures forall k | t <= k < l :: c[k] == 0
  {
    if l == 0 || c[l-1] != 0 then l else TopLength(c, l - 1)
  }

  /** The length found for a positive difference d of l places is right: d has l digits, or one less and its
      digit at base - 2 is not zero, or so few that counting down from base - 2 meets them. */
  predicate FindsLength(d: nat, l: nat, base: nat) {
    || l == 0 || d >= Pow10(l - 1)
    || (base >= 2 && (d < Pow10(base - 2) || (l >= 2 && d >= Pow10(l - 2) && d / Pow10(base - 2) % 10 != 0)))
  }

  lemma {:induction false} LoopFinds(c: seq<int>, base: nat, i: nat, len: nat)
    requires 2 <= i <= base <= |c| && c[base-i] == 0
    ensures StripLoop(c, base, i, len) == var t := TopLength(c, base - i); if t == 0 then BeforeArray else Length(t)
    decreases base - i
  {
    if i < base {
      if c[base-i-1] == 0 {
        LoopFinds(c, base, i + 1, base - i);
      }
    }
  }

  lemma TopBounds(c: seq<int>, l: nat)
    requires l <= |c| && Digits(c, l) && Val(c, l) > 0
    ensures var t := TopLength(c, l); t >= 1 && Pow10(t - 1) <= Val(c, l) < Pow10(t)
    ensures Val(c, l) == Val(c, TopLength(c, l))
  {
    var t := TopLength(c, l);
    ValZeros(c, t, l);
    assert Val(c, 0) == 0;
    hide Val, Pow10, TopLength;
    ValBounds(c, t);
    ValAtLeast(c, t, t - 1);
    MulMonotone(1, c[t-1], Pow10(t - 1));
  }

  /** The length is at most k exactly if the number is below the k-th power. */
  lemma TopAtMost(c: seq<int>, l: nat, k: nat)
    requires l <= |c| && Digits(c, l) && Val(c, l) > 0
    ensures TopLength(c, l) <= k <==> Val(c, l) < Pow10(k)
  {
    TopBounds(c, l);
    var t := TopLength(c, l);
    if t <= k {
      Pow10Monotone(t, k);
    } else {
      Pow10Monotone(k, t - 1);
    }
  }

  lemma {:induction false} PlaceOf(c: seq<int>, n: nat, k: nat) returns (z: int)
    requires k < n <= |c|
    ensures Val(c, n) == Val(c, k) + (c[k] + 10 * z) * Pow10(k)
  {
    z := ValSplit(c, n, k + 1);
    assert (c[k] + 10 * z) * Pow10(k) == c[k] * Pow10(k) + z * (10 * Pow10(k)) by {
      Distribute(c[k], z, 10, Pow10(k));
    }
  }

  /** Division finds the digits of a number. */
  lemma DigitOf(c: seq<int>, n: nat, k: nat)
    requires k < n <= |c| && Digits(c, n)
    ensures Val(c, n) >= 0 && Val(c, n) / Pow10(k) % 10 == c[k]
  {
    hide Val, Pow10;
    var z := PlaceOf(c, n, k);
    ValBounds(c, k);
    ValBounds(c, n);
    Quotient(Val(c, n), Pow10(k), c[k], z, Val(c, k));
  }

  lemma Quotient(t: int, p: int, digit: int, z: int, r: int)
    requires t == r + (digit + 10 * z) * p && 0 <= r < p && 0 <= digit <= 9
    ensures t / p % 10 == digit
  {
    var y := digit + 10 * z;
    DivisionUnique(t, p, y, r);
    LastDigit(digit, z);
  }

  lemma LastDigit(digit: int, z: int)
    requires 0 <= digit <= 9
    ensures (digit + 10 * z) % 10 == digit
  {
  }

  /** The source finds the right length exactly under this condition on the difference. */
  lemma FindsLengthExactly(c: seq<int>, l: nat, base: nat)
    requires 1 <= l <= |c| && base <= l && Digits(c, l) && Val(c, l) > 0
    ensures StripLength(c, l, base) == Length(TopLength(c, l)) <==> FindsLength(Val(c, l), l, base)
  {
    var t, d := TopLength(c, l), Val(c, l);
    TopBounds(c, l);
    TopAtMost(c, l, l - 1);
    if c[l-1] == 0 && base >= 2 {
      TopAtMost(c, l, base - 2);
      TopAtMost(c, l, l - 2);
      DigitOf(c, l, base - 2);
      if c[base-2] == 0 {
        LoopFinds(c, base, 2, l - 1);
        TopAgain(c, l, base - 2);
      }
    }
  }

  lemma {:induction false} TopAgain(c: seq<int>, l: nat, m: nat)
    requires m <= l <= |c|
    ensures TopLength(c, l) <= m <==> TopLength(c, m) == TopLength(c, l)
  {
    if m < l {
      TopAgain(c, l - 1, m);
    }
  }

  /** Counting from the length of the difference itself always finds it. */
  lemma OwnBaseFinds(d: nat, l: nat)
    requires 0 < d < Pow10(l)
    ensures FindsLength(d, l, l)
  {
    if l >= 2 && Pow10(l - 2) <= d < Pow10(l - 1) {
      var p, q := Pow10(l - 2), d / Pow10(l - 2);
      assert d == q * p + d % p;
      if q >= 10 {
        MulMonotone(10, q, p);
      } else if q <= 0 {
        MulMonotone(q, 0, p);
      }
    }
  }

  /** An input on which the length is wrong: 999 - 10000 gets one place instead of four. */
  lemma LengthGoesWrong()
    ensures var c := [1, 0, 0, 9, 0];
            Val(c, 5) == 10000 - 999 && StripLength(c, 5, 3) == Length(1) && TopLength(c, 5) == 4
  {
    var c := [1, 0, 0, 9, 0];
    assert Pow10(3) == 1000 && Pow10(2) == 100 && Pow10(1) == 10;
    assert Val(c, 1) == 1 && Val(c, 2) == 1 && Val(c, 3) == 1 && Val(c, 4) == 9001;
    assert StripLoop(c, 3, 3, 1) == Length(1);
  }
}
