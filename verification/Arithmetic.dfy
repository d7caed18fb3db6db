/** Quotients and remainders. */
module Arithmetic {
  lemma MultipleBounds(n: int, t: int)
    requires 0 < n
    ensures t >= 1 ==> n * t >= n
    ensures t <= -1 ==> n * t <= -n
  {
  }

  /** Numbers less than n apart with the same residue are equal. */
  lemma ResidueUnique(j: int, k: int, n: int)
    requires 0 < n && j % n == k % n && -n < k - j < n
    ensures j == k
  {
    var t := k / n - j / n;
    assert k == n * (k / n) + k % n && j == n * (j / n) + j % n;
    assert k - j == n * t;
    MultipleBounds(n, t);
  }

  lemma ResiduePeriodic(k: int, n: int, q: int)
    requires 0 < n
    ensures (k + n * q) % n == k % n
  {
    var r, s := k % n, (k + n * q) % n;
    var t := (k + n * q) / n - k / n - q;
    assert k == n * (k / n) + r && k + n * q == n * ((k + n * q) / n) + s;
    assert n * t == r - s;
    MultipleBounds(n, t);
  }

  /** Quotients are unique. */
  lemma QuotientUnique(a: int, n: int, q: int, r: int)
    requires 0 <= r < n && a == n * q + r
    ensures a / n == q
  {
    var d := a / n - q;
    assert a == n * (a / n) + a % n;
    assert n * d == r - a % n;
    MultipleBounds(n, d);
  }

  /** One whole unit more. */
  lemma QuotientNext(a: int, n: int)
    requires 0 < n
    ensures (a + n) / n == a / n + 1
  {
    assert a == n * (a / n) + a % n;
    QuotientUnique(a + n, n, a / n + 1, a % n);
  }

  lemma OneMoreTime(k: int, n: int)
    ensures (k + 1) * n == k * n + n
  {
  }
}
