/** Facts about `/` and `%` on non-negative divisors that the countdown and the
    lightbox's wrap-around both rest on. */
module Arith {

  /** Quotient and remainder are determined by the division equation and the remainder's range. */
  lemma DivModUnique(x: int, m: int, q: int, r: int)
    requires m > 0 && 0 <= r < m && x == q * m + r
    ensures x / m == q && x % m == r
  {
    var d := q - x / m;
    assert d * m == x % m - r;
    assert d >= 1 ==> d * m >= m;
    assert d <= -1 ==> d * m <= -m;
  }

  /** Taking the remainder modulo a multiple of `m` first does not change the remainder modulo `m`. */
  lemma ModOfMultiple(x: int, m: int, k: int)
    requires m > 0 && k > 0
    ensures (x % (m * k)) % m == x % m
  {
    var big := m * k;
    var q, r := x / big, x % big;
    assert x == q * big + r;
    assert q * big == (q * k) * m;
    var r1, r2 := r / m, r % m;
    assert r == r1 * m + r2;
    assert x == (q * k + r1) * m + r2;
    DivModUnique(x, m, q * k + r1, r2);
  }

  /** Adding after reducing modulo `m` is the same as adding first. */
  lemma ModAdd(x: int, y: int, m: int)
    requires m > 0
    ensures (x % m + y) % m == (x + y) % m
  {
    var q, r := x / m, x % m;
    var q', r' := (r + y) / m, (r + y) % m;
    assert x + y == (q + q') * m + r' by {
      assert r + y == q' * m + r';
      assert x == q * m + r;
    }
    DivModUnique(x + y, m, q + q', r');
  }
}
