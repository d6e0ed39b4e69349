/** The page-count arithmetic of util/pagination.go. */
module Pagination {

  /** Number of pages needed to show `totalData` rows, `pageSize` rows per page.
      A non-positive page size, or one that holds every row, gives one page;
      otherwise the result is the ceiling of totalData / pageSize. Both operands
      of `/` and `%` are positive there, so Dafny's division agrees with Go's. */
  function GetPageCount(pageSize: int, totalData: int): (r: int)
    ensures r >= 1
    ensures pageSize <= 0 ==> r == 1
    ensures 0 < pageSize && totalData <= pageSize ==> r == 1
    ensures 0 < pageSize < totalData ==> (r - 1) * pageSize < totalData <= r * pageSize
  {
    if pageSize > 0 then
      if pageSize >= totalData then 1
      else
        var q := totalData / pageSize;
        DivisionBounds(totalData, pageSize);
        if totalData % pageSize == 0 then q else q + 1
    else 1
  }

  /** The quotient and remainder of a positive division, spelled out. */
  lemma DivisionBounds(t: int, p: int)
    requires 0 < p < t
    ensures t / p >= 1
    ensures t % p == 0 ==> (t / p - 1) * p < t == (t / p) * p
    ensures t % p != 0 ==> (t / p) * p < t < (t / p + 1) * p
  {
    var q, m := t / p, t % p;
    assert t == q * p + m && 0 <= m < p;
    MultipliedLessThan(0, q, p);
    assert (q - 1) * p == q * p - p;
    assert (q + 1) * p == q * p + p;
  }

  /** The page count is the least number of pages that holds every row: it is
      the only k >= 1 with (k - 1) * pageSize < totalData <= k * pageSize. */
  lemma {:induction false} PageCountIsLeast(pageSize: int, totalData: int, k: int)
    requires 0 < pageSize < totalData
    requires k >= 1 && (k - 1) * pageSize < totalData <= k * pageSize
    ensures GetPageCount(pageSize, totalData) == k
  {
    var r := GetPageCount(pageSize, totalData);
    MultipliedLessThan(r - 1, k, pageSize);
    MultipliedLessThan(k - 1, r, pageSize);
  }

  /** Multiplying by a positive factor reflects strict order. */
  lemma MultipliedLessThan(a: int, b: int, p: int)
    requires p > 0 && a * p < b * p
    ensures a < b
  {
    assert (b - a) * p > 0;
  }

  /** The concrete cases of util/pagination_test.go. */
  lemma PageCountExamples()
    ensures GetPageCount(1, 1) == 1
    ensures GetPageCount(5, 10) == 2
    ensures GetPageCount(6, 5) == 1
  {
  }
}
