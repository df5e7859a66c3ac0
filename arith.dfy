// Facts about Euclidean division used by the ring index and the tick counter.

module Arith {

  /** The remainder is determined by any quotient/remainder split. */
  lemma ModUnique(a: int, n: int, q: int, r: int)
    requires n > 0 && 0 <= r < n && a == n * q + r
    ensures a % n == r
  {
    var q', r' := a / n, a % n;
    assert a == n * q' + r';
    var d := q - q';
    assert n * q == n * q' + n * d;
    assert n * d == r' - r;
    if d > 0 {
      AtLeastOnce(n, d);
    } else if d < 0 {
      AtLeastOnce(n, -d);
    }
  }

  lemma AtLeastOnce(n: int, d: int)
    requires n > 0 && d > 0
    ensures n * d >= n
  {
    assert n * d == n * (d - 1) + n;
    assert n * (d - 1) >= 0;
  }

  lemma ModShift(a: int, n: int, q: int)
    requires n > 0
    ensures (a + n * q) % n == a % n
  {
    assert a == n * (a / n) + a % n;
    assert a + n * q == n * (a / n + q) + a % n;
    ModUnique(a + n * q, n, a / n + q, a % n);
  }
}
