/** The little modular arithmetic that wrap-around positions need. */
module Modular {

  /** A positive multiple of m is at least m. */
  lemma {:induction false} BigMultiple(k: int, m: int)
    requires 0 < m && 0 < k
    ensures m <= k * m
    decreases k
  {
    if k > 1 {
      BigMultiple(k - 1, m);
      assert k * m == (k - 1) * m + m;
    }
  }

  /** a is q full turns plus r, so r is its remainder. */
  lemma ModUnique(a: int, q: int, r: int, m: int)
    requires 0 < m && 0 <= r < m && a == q * m + r
    ensures a % m == r && a / m == q
  {
    var q' := a / m;
    assert (q - q') * m == q * m - q' * m;
    assert (q' - q) * m == -((q - q') * m);
    if q != q' {
      BigMultiple(if q > q' then q - q' else q' - q, m);
    }
  }

  /** Advancing a wrapped position wraps the advanced position. */
  lemma ModAdd(a: nat, n: nat, m: nat)
    requires 0 < m
    ensures (a % m + n) % m == (a + n) % m
  {
    var q := a / m;
    var b := a % m + n;
    assert a + n == q * m + b;
    assert b == (b / m) * m + b % m;
    assert a + n == (q + b / m) * m + b % m;
    ModUnique(a + n, q + b / m, b % m, m);
  }

  /** One turn at most: the wrapped sum by comparison instead of division. */
  lemma ModAddCases(a: nat, n: nat, m: nat)
    requires 0 < m && n <= m
    ensures (a + n) % m == if a % m + n < m then a % m + n else a % m + n - m
  {
    ModAdd(a, n, m);
    var b := a % m + n;
    if b < m {
      ModUnique(b, 0, b, m);
    } else {
      ModUnique(b, 1, b - m, m);
    }
  }

  /** Positions less than one turn apart occupy different slots. */
  lemma ModDistinct(a: nat, b: nat, m: nat)
    requires 0 < m && a < b < a + m
    ensures a % m != b % m
  {
    ModAddCases(a, b - a, m);
  }
}
