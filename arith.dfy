/** Facts about Euclidean division that the solver does not find on its own. */
module Arith {
  lemma MulBound(m: int, d: int)
    requires m > 0
    ensures d >= 1 ==> m * d >= m
    ensures d <= -1 ==> m * d <= -m
  {
  }

  lemma MulLe(a: int, b: int, c: int)
    ensures 0 <= a <= b && 0 <= c ==> a * c <= b * c
  {
    assert b * c - a * c == (b - a) * c;
  }

  /** Euclidean remainder is determined by any quotient/remainder split. */
  lemma ModUnique(a: int, m: int, q: int, r: int)
    requires m > 0 && 0 <= r < m && a == m * q + r
    ensures a % m == r && a / m == q
  {
    var q', r' := a / m, a % m;
    assert a == m * q' + r' && 0 <= r' < m;
    MulBound(m, q' - q);
    assert m * (q' - q) == r - r';
  }

  lemma ModAddMultiple(a: int, k: int, m: int)
    requires m > 0
    ensures (a + k * m) % m == a % m
  {
    var q, r := a / m, a % m;
    assert a + k * m == m * (q + k) + r;
    ModUnique(a + k * m, m, q + k, r);
  }

  lemma ModDiff(a: int, b: int, m: int)
    requires m > 0
    ensures a % m == b % m ==> (a - b) % m == 0
  {
    if a % m == b % m {
      assert a - b == m * (a / m - b / m) + 0;
      ModUnique(a - b, m, a / m - b / m, 0);
    }
  }

  /** Divisibility is transitive. */
  lemma DividesTrans(n: int, d: int, q: int)
    requires d > 0 && q > 0 && n % d == 0 && d % q == 0
    ensures n % q == 0
  {
    var a, b := n / d, d / q;
    assert n == d * a && d == q * b;
    assert n == q * (b * a);
    ModUnique(n, q, b * a, 0);
  }
}
