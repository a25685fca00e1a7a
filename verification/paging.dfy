/** The list query's search parameters and the offset they translate to. */
module Paging {
  import opened Numerics

  /** Largest page size the offset computation honours. */
  const MAX_SIZE: Int32 := 2000

  /** A search request: 1-based page number and page size, both Java `int`.
      The builder constructor always assigns both, so neither is null here. */
  datatype PostSearch = PostSearch(page: Int32, size: Int32)

  /** `(long) (Math.max(1, page) - 1) * Math.min(size, MAX_SIZE)` with the
      `int` subtraction and the `long` multiplication written out. */
  function Offset(search: PostSearch): (r: Int64)
    ensures search.page <= 1 ==> r == 0
    ensures 1 <= search.page && 0 <= search.size <= MAX_SIZE ==> r == (search.page - 1) * search.size
    ensures MAX_SIZE < search.size ==> r == (Max(1, search.page) - 1) * MAX_SIZE
    ensures 0 <= search.size ==> 0 <= r
  {
    OffsetNoOverflow(search);
    var pageIndex := WrapInt(Max(1, search.page) - 1);
    var capped := Min(search.size, MAX_SIZE);
    OffsetClosedForm(search, pageIndex, capped);
    WrapLong(pageIndex * capped)
  }

  /** The product behind the offset, case by case, before it is narrowed to a
      `long`. */
  lemma {:induction false} OffsetClosedForm(search: PostSearch, pageIndex: int, capped: int)
    requires pageIndex == Max(1, search.page) - 1 && capped == Min(search.size, MAX_SIZE)
    ensures search.page <= 1 ==> pageIndex * capped == 0
    ensures 1 <= search.page && 0 <= search.size <= MAX_SIZE ==> pageIndex * capped == (search.page - 1) * search.size
    ensures MAX_SIZE < search.size ==> pageIndex * capped == (Max(1, search.page) - 1) * MAX_SIZE
    ensures 0 <= search.size ==> 0 <= pageIndex * capped
  {
    if 0 <= search.size {
      MulNonNeg(pageIndex, capped);
    }
  }

  lemma MulNonNeg(a: int, b: int)
    requires 0 <= a && 0 <= b
    ensures 0 <= a * b
  {
  }

  lemma {:induction false} MulUpper(a: int, b: int, bound: int)
    requires 0 <= a <= bound && b <= 0x8000_0000
    requires 0 <= b
    ensures a * b <= bound * 0x8000_0000
  {
    MulNonNeg(bound - a, b);
    MulNonNeg(bound, 0x8000_0000 - b);
  }

  /** Neither the page index nor the product ever leaves its Java type. */
  lemma {:induction false} OffsetNoOverflow(search: PostSearch)
    ensures InInt(Max(1, search.page) - 1)
    ensures InLong((Max(1, search.page) - 1) * Min(search.size, MAX_SIZE))
  {
    var a := Max(1, search.page) - 1;
    var b := Min(search.size, MAX_SIZE);
    assert 0 <= a < 0x8000_0000;
    if b >= 0 {
      MulUpper(a, b, 0x8000_0000);
      MulNonNeg(a, b);
    } else {
      MulUpper(a, -b, 0x8000_0000);
      MulNonNeg(a, -b);
      assert a * b == -(a * -b);
    }
  }

  /** A size above the cap shifts the page exactly as the cap itself would. */
  lemma OffsetCapsSize(page: Int32, size: Int32)
    requires MAX_SIZE < size
    ensures Offset(PostSearch(page, size)) == Offset(PostSearch(page, MAX_SIZE))
  {
  }

  /** For a fixed non-negative size, later pages never start earlier. */
  lemma {:induction false} OffsetMonotonic(page1: Int32, page2: Int32, size: Int32)
    requires page1 <= page2 && 0 <= size
    ensures Offset(PostSearch(page1, size)) <= Offset(PostSearch(page2, size))
  {
    var a1 := Max(1, page1) - 1;
    var a2 := Max(1, page2) - 1;
    var b := Min(size, MAX_SIZE);
    MulNonNeg(a2 - a1, b);
    assert a2 * b - a1 * b == (a2 - a1) * b;
  }
}
