/** Java's integer remainder, which truncates toward zero. */
module JavaArith {

  /** `a % b` as Java evaluates it for a positive divisor: the result takes the
      sign of `a` (Dafny's own `%` is Euclidean and never negative), it
      differs from `a` by a multiple of `b`, and it agrees with Dafny's `%` on
      non-negative operands. */
  function Rem(a: int, b: int): (r: int)
    requires b > 0
    ensures a >= 0 ==> 0 <= r < b && r == a % b
    ensures a < 0 ==> -b < r <= 0
    ensures (a - r) % b == 0
  {
    RemainderDifference(a, b);
    if a >= 0 then a % b else -((-a) % b)
  }

  /** A non-zero multiple of `b` is at least `b` away from zero. */
  lemma {:induction false} MultipleBound(d: int, b: int)
    requires b > 0
    ensures d >= 1 ==> d * b >= b
    ensures d <= -1 ==> d * b <= -b
  {
    if d >= 1 {
      assert d * b == (d - 1) * b + b;
      assert (d - 1) * b >= 0;
    } else if d <= -1 {
      assert d * b == (d + 1) * b - b;
      assert (d + 1) * b <= 0;
    }
  }

  /** Dafny's `%` is the unique remainder in [0, b). */
  lemma {:induction false} ModUnique(x: int, k: int, b: int, m: int)
    requires b > 0 && 0 <= m < b && x == k * b + m
    ensures x % b == m
  {
    var q := x / b;
    assert x == q * b + x % b;
    assert (k - q) * b == k * b - q * b;
    MultipleBound(k - q, b);
  }

  /** Removing the remainder, Euclidean or truncated, leaves a multiple of `b`. */
  lemma {:induction false} RemainderDifference(a: int, b: int)
    requires b > 0
    ensures a >= 0 ==> (a - a % b) % b == 0
    ensures a < 0 ==> (a + (-a) % b) % b == 0
  {
    if a >= 0 {
      var q := a / b;
      assert a == q * b + a % b;
      ModUnique(a - a % b, q, b, 0);
    } else {
      var q := (-a) / b;
      assert -a == q * b + (-a) % b;
      assert a + (-a) % b == (-q) * b + 0;
      ModUnique(a + (-a) % b, -q, b, 0);
    }
  }
}
