/** PageMetaDto: the counts a paged listing reports beside its items. */
module PageMeta {

  datatype PageMeta = PageMeta(totalCount: nat, page: int, limit: nat, totalPages: nat)

  /** `Math.ceil(n / d)` for a non-negative count and a positive page size:
      the least number of pages of `d` rows that hold `n` rows. */
  function CeilDiv(n: nat, d: nat): (r: nat)
    requires d > 0
    ensures r * d >= n
    ensures n > 0 ==> (r - 1) * d < n
    ensures n == 0 ==> r == 0
  {
    var q, rem := n / d, n % d;
    assert n == q * d + rem;
    if rem == 0 then q
    else
      assert (q + 1) * d == q * d + d;
      q + 1
  }

  /** The same number as the real quotient rounded up. */
  lemma CeilDivIsCeiling(n: nat, d: nat)
    requires d > 0
    ensures (CeilDiv(n, d) - 1) as real < (n as real) / (d as real) <= CeilDiv(n, d) as real
  {
    var r := CeilDiv(n, d);
    var x := (n as real) / (d as real);
    assert x * (d as real) == n as real;
    assert (r as real) * (d as real) >= n as real;
    if n > 0 {
      assert ((r - 1) as real) * (d as real) < n as real;
    } else {
      assert r == 0;
    }
  }

  /** The same number in integer arithmetic: `(n + d - 1) / d`. */
  lemma CeilDivAsQuotient(n: nat, d: nat)
    requires d > 0
    ensures CeilDiv(n, d) == (n + d - 1) / d
  {
    var r := CeilDiv(n, d);
    var rem := n + d - 1 - r * d;
    if n == 0 {
      assert r == 0;
    } else {
      assert (r - 1) * d == r * d - d;
    }
    assert 0 <= rem < d;
    QuotientUnique(n + d - 1, d, r, rem);
  }

  /** Division by `d` has one quotient and remainder. */
  lemma QuotientUnique(a: int, d: int, q: int, rem: int)
    requires d > 0 && a == q * d + rem && 0 <= rem < d
    ensures a / d == q
  {
    var q', rem' := a / d, a % d;
    assert a == q' * d + rem';
    var k := q - q';
    assert k * d == q * d - q' * d;
    assert k * d == rem' - rem;
    if k > 0 {
      MultipleAtLeast(k, d);
    } else if k < 0 {
      assert (-k) * d == -(k * d);
      MultipleAtLeast(-k, d);
    }
  }

  lemma MultipleAtLeast(k: int, d: int)
    requires k >= 1 && d > 0
    ensures k * d >= d
  {
    assert k * d == (k - 1) * d + d;
    assert (k - 1) * d >= 0;
  }

  /** The constructor: the three inputs are kept as given and `totalPages`
      is their ceiling quotient. */
  function NewPageMeta(totalCount: nat, page: int, limit: nat): (m: PageMeta)
    requires limit > 0
    ensures m.totalCount == totalCount && m.page == page && m.limit == limit
    ensures m.totalPages * limit >= totalCount
    ensures totalCount > 0 ==> (m.totalPages - 1) * limit < totalCount
  {
    PageMeta(totalCount, page, limit, CeilDiv(totalCount, limit))
  }

  /** An empty listing has no pages; a non-empty one that fits on one page
      has exactly one. */
  lemma PageCountEdges(totalCount: nat, page: int, limit: nat)
    requires limit > 0
    ensures totalCount == 0 ==> NewPageMeta(totalCount, page, limit).totalPages == 0
    ensures 0 < totalCount <= limit ==> NewPageMeta(totalCount, page, limit).totalPages == 1
  {
    var p := NewPageMeta(totalCount, page, limit).totalPages;
    if 0 < totalCount <= limit {
      assert p >= 1;
      assert (p - 1) * limit < limit;
    }
  }
}
