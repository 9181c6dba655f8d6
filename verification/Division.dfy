/** Quotient and remainder of naturals by a divisor that is not a literal. */
module Division {

  lemma ProductAtLeast(m: nat, k: nat)
    requires k > 0
    ensures m * k >= m
  {
  }

  lemma ProductNonNegative(m: nat, k: nat)
    ensures m * k >= 0
  {
  }

  /** Quotient and remainder are unique. */
  lemma Unique(x: nat, m: nat, q: nat, r: nat)
    requires r < m && x == m * q + r
    ensures x / m == q && x % m == r
  {
    var q', r' := x / m, x % m;
    assert x == m * q' + r';
    assert m * (q' - q) == m * q' - m * q;
    assert m * (q - q') == m * q - m * q';
    if q < q' {
      ProductAtLeast(m, q' - q);
    } else if q' < q {
      ProductAtLeast(m, q - q');
    }
  }

  lemma NonPositiveFactor(m: nat, d: int)
    requires d <= 0
    ensures m * d <= 0
  {
  }

  lemma PositiveFactor(m: nat, d: int)
    requires m * d > 0
    ensures d > 0
  {
    if d <= 0 {
      NonPositiveFactor(m, d);
    }
  }

  /** If the kth block starts below the end of n blocks, it ends there too. */
  lemma NextMultipleFits(m: nat, k: nat, n: nat)
    requires m * k < m * n
    ensures m * k + m <= m * n && m * (k + 1) == m * k + m
  {
    assert m * (n - k) == m * n - m * k;
    PositiveFactor(m, n - k);
    ProductAtLeast(m, n - k);
  }

  /** Adding a multiple of m changes the quotient only. */
  lemma AddMultiple(m: nat, k: nat, x: nat)
    requires m > 0
    ensures (m * k + x) % m == x % m && (m * k + x) / m == k + x / m
  {
    assert m * k + x == m * (k + x / m) + x % m;
    Unique(m * k + x, m, k + x / m, x % m);
  }

  /** The start of the block that holds x. */
  function BlockStart(x: nat, m: nat): (r: nat)
    requires m > 0
    ensures r <= x < r + m
  {
    x - x % m
  }

  /** Stepping inside a block leaves its start alone; the last element of a block is followed by the next start. */
  lemma NextInBlock(x: nat, m: nat)
    requires m > 0
    ensures (x + 1) % m != 0 ==> BlockStart(x + 1, m) == BlockStart(x, m)
    ensures (x + 1) % m == 0 <==> x % m == m - 1
    ensures (x + 1) % m == 0 ==> x + 1 == BlockStart(x, m) + m
  {
    var q, r := x / m, x % m;
    assert x == m * q + r;
    if r == m - 1 {
      assert x + 1 == m * (q + 1) + 0;
      Unique(x + 1, m, q + 1, 0);
    } else {
      Unique(x + 1, m, q, r + 1);
    }
  }
}
