/** Quotients and remainders by a variable divisor. */
module Modulo {

  lemma MulAtLeast(a: nat, p: nat)
    requires a >= 1
    ensures a * p >= p
  {}

  lemma ModUnique(n: nat, q: nat, r: nat, p: nat)
    requires p > 0 && r < p && n == q * p + r
    ensures n % p == r && n / p == q
  {
    var q', r' := n / p, n % p;
    assert n == q' * p + r';
    if q' < q {
      assert (q - q') * p >= p by { MulAtLeast(q - q', p); }
    } else if q < q' {
      assert (q' - q) * p >= p by { MulAtLeast(q' - q, p); }
    }
  }

  lemma ModNext(n: nat, p: nat)
    requires p > 0
    ensures (n + 1) % p == if n % p == p - 1 then 0 else n % p + 1
  {
    var q, r := n / p, n % p;
    if r == p - 1 {
      assert n + 1 == (q + 1) * p;
      ModUnique(n + 1, q + 1, 0, p);
    } else {
      ModUnique(n + 1, q, r + 1, p);
    }
  }

  lemma DivNext(n: nat, p: nat)
    requires p > 0
    ensures (n + 1) / p == n / p + if (n + 1) % p == 0 then 1 else 0
  {
    var q, r := n / p, n % p;
    assert n == q * p + r;
    if r == p - 1 {
      assert n + 1 == (q + 1) * p;
      ModUnique(n + 1, q + 1, 0, p);
    } else {
      ModUnique(n + 1, q, r + 1, p);
    }
  }

  lemma ModBack(n: nat, p: nat)
    requires 0 < p <= n
    ensures (n - p) % p == n % p
  {
    var q, r := n / p, n % p;
    assert n == q * p + r;
    if q == 0 {
      assert false;
    }
    assert n - p == (q - 1) * p + r;
    ModUnique(n - p, q - 1, r, p);
  }

  /** Numbers less than `p` apart have different remainders. */
  lemma DistinctRemainders(a: nat, b: nat, p: nat)
    requires a < b < a + p
    ensures a % p != b % p
  {
    var qa, qb := a / p, b / p;
    assert a == qa * p + a % p && b == qb * p + b % p;
    if qa < qb {
      assert (qb - qa) * p >= p by { MulAtLeast(qb - qa, p); }
    } else if qb < qa {
      assert (qa - qb) * p >= p by { MulAtLeast(qa - qb, p); }
    }
  }

  lemma HalfThenDivide(n: nat, p: nat)
    requires p > 0
    ensures n / 2 / p == n / (2 * p)
  {
    var half := n / 2;
    var q, r := half / p, half % p;
    assert half == q * p + r;
    assert q * (2 * p) == 2 * (q * p);
    ModUnique(n, q, 2 * r + n % 2, 2 * p);
  }
}
