/** Facts about products and quotients of integers. */
module Integers {

  lemma MulMonotone(x: int, y: int, z: int)
    requires x <= y && 0 <= z
    ensures x * z <= y * z
  {
  }

  lemma Associate(x: int, y: int, z: int)
    ensures x * y * z == x * (y * z)
  {
  }

  lemma DivisionUnique(t: int, b: int, q: int, r: int)
    requires t == b * q + r && 0 <= r < b
    ensures q == t / b && r == t % b
  {
    var q', r' := t / b, t % b;
    assert b * (q - q') == r' - r;
    if q > q' {
      MulMonotone(1, q - q', b);
    } else if q < q' {
      MulMonotone(q - q', -1, b);
    }
  }

  function Sign(x: int): int {
    if x < 0 then -1 else if x > 0 then 1 else 0
  }

  lemma TimesDifference(x: int, y: int, z: int)
    ensures (x - y) * z == x * z - y * z
  {
  }

  /** A number as a multiple and a remainder. */
  lemma Divide(t: int, b: int)
    requires b > 0
    ensures t == b * (t / b) + t % b && 0 <= t % b < b
    ensures t >= 0 ==> t / b >= 0
  {
  }

  lemma ModPlusMultiple(x: int, n: int, k: int)
    requires n > 0
    ensures (x + n * k) % n == x % n
  {
    Divide(x, n);
    var q := x / n;
    assert n * (q + k) == n * q + n * k;
    DivisionUnique(x + n * k, n, q + k, x % n);
  }
}
