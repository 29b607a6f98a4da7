/** Pagination requests and responses (pkg/data/store.go and its duplicate in
    server/data/catalog.go): the offset arithmetic, the page count, and the
    window a page selects from an ordered result. */
module Pagination {

  /** Defaults applied by the HTTP layer when a listing request omits them. */
  const DefaultPage := 1
  const DefaultPageSize := 100

  datatype PaginationRequest = PaginationRequest(page: int, pageSize: int) {

    /** Pages are numbered from 1 and hold at least one item. */
    predicate Valid() {
      page >= 1 && pageSize > 0
    }

    /** The index of the first result on this page: `(page - 1) * pageSize`. */
    function Offset(): (r: int)
      ensures page >= 1 && pageSize >= 0 ==> r >= 0
      ensures page == 1 ==> r == 0
    {
      (page - 1) * pageSize
    }

    /** The request for the page after this one. */
    function Next(): (n: PaginationRequest)
      ensures n.pageSize == pageSize && n.page == page + 1
    {
      PaginationRequest(page + 1, pageSize)
    }
  }

  datatype PaginationResponse = PaginationResponse(totalElements: int, page: int, pages: int)

  /** The pagination a listing request gets when it names none. */
  function DefaultRequest(): (p: PaginationRequest)
    ensures p.Valid() && p.Offset() == 0 && p.pageSize == 100
  {
    PaginationRequest(DefaultPage, DefaultPageSize)
  }

  /** Consecutive pages are adjacent windows: the next page starts exactly
      `pageSize` after this one. */
  lemma OffsetNextPage(p: PaginationRequest)
    ensures p.Next().Offset() == p.Offset() + p.pageSize
  {
  }

  /** The two cases of the offset's unit test. */
  lemma OffsetExamples()
    ensures PaginationRequest(1, 100).Offset() == 0
    ensures PaginationRequest(2, 10).Offset() == 10
  {
  }

  /** The number of pages of `size` items needed for `total` items, the
      integer form of `ceil(total / size)`. */
  function PageCount(total: nat, size: int): (r: nat)
    requires size > 0
    ensures r * size >= total
    ensures r * size < total + size
    ensures r == 0 <==> total == 0
  {
    var q := (total + size - 1) / size;
    assert q * size == total + size - 1 - (total + size - 1) % size;
    q
  }

  function Min(a: int, b: int): int {
    if a <= b then a else b
  }

  /** The items of page `p` of the ordered result `s`: from the offset, at most
      `pageSize` of them; none when the offset is past the end. */
  function Window<T>(s: seq<T>, p: PaginationRequest): (r: seq<T>)
    requires p.Valid()
    ensures |r| == if p.Offset() < |s| then Min(p.pageSize, |s| - p.Offset()) else 0
    ensures forall k :: 0 <= k < |r| ==> r[k] == s[p.Offset() + k]
  {
    var off := p.Offset();
    if off >= |s| then [] else s[off..Min(off + p.pageSize, |s|)]
  }

  /** Pages 1 to `k` of `s`, one after another. */
  function PagesUpTo<T>(s: seq<T>, size: int, k: nat): seq<T>
    requires size > 0
  {
    if k == 0 then [] else PagesUpTo(s, size, k - 1) + Window(s, PaginationRequest(k, size))
  }

  /** Pages 1 to `k` together are exactly the first `k * size` items (or all
      of them): consecutive pages leave no gap and do not overlap. */
  lemma {:induction false} PagesUpToIsPrefix<T>(s: seq<T>, size: int, k: nat)
    requires size > 0
    ensures PagesUpTo(s, size, k) == s[..Min(k * size, |s|)]
  {
    if k > 0 {
      PagesUpToIsPrefix(s, size, k - 1);
      var p := PaginationRequest(k, size);
      var w := Window(s, p);
      assert p.Offset() == (k - 1) * size;
      var lo := Min((k - 1) * size, |s|);
      var hi := Min(k * size, |s|);
      assert k * size == (k - 1) * size + size;
      assert w == s[lo..hi];
      assert s[..lo] + s[lo..hi] == s[..hi];
    }
  }

  /** For `pageSize > 0`, pages 1 to `PageCount(|s|, size)` reproduce the whole
      result, each item once and in order. */
  lemma PagesTileResult<T>(s: seq<T>, size: int)
    requires size > 0
    ensures PagesUpTo(s, size, PageCount(|s|, size)) == s
  {
    PagesUpToIsPrefix(s, size, PageCount(|s|, size));
  }

  /** When there are results, the last page starts inside them; every page
      after it starts at or past the end and is empty. */
  lemma LastPageBounds<T>(s: seq<T>, p: PaginationRequest)
    requires p.Valid()
    ensures |s| > 0 && p.page == PageCount(|s|, p.pageSize) ==> p.Offset() < |s| && Window(s, p) != []
    ensures p.page > PageCount(|s|, p.pageSize) ==> p.Offset() >= |s| && Window(s, p) == []
  {
  }

  lemma MulMonotone(a: int, b: int, c: int)
    requires 0 <= a <= b && c >= 0
    ensures a * c <= b * c
  {
  }

  /** Every result index `i` lies on page `i / size + 1`, which is among
      pages 1 to `PageCount(n, size)`. */
  lemma IndexOnPage(n: nat, size: int, i: int)
    requires size > 0 && 0 <= i < n
    ensures var p := PaginationRequest(i / size + 1, size);
      p.page <= PageCount(n, size) && p.Offset() <= i < p.Offset() + size
  {
    var k := i / size;
    assert k * size <= i < k * size + size;
    var c := PageCount(n, size);
    if c < k + 1 {
      MulMonotone(c, k, size);
    }
  }

  /** No index lies on two pages: a page whose window holds index `i` is page
      `i / size + 1`. */
  lemma {:induction false} IndexOnOnePage(size: int, i: int, q: int)
    requires size > 0 && q >= 1
    requires PaginationRequest(q, size).Offset() <= i < PaginationRequest(q, size).Offset() + size
    ensures q == i / size + 1
  {
    var k := i / size;
    assert k * size <= i < k * size + size;
    assert (q - 1) * size <= i < (q - 1) * size + size;
    if q - 1 < k {
      MulMonotone(q, k, size);
    } else if q - 1 > k {
      MulMonotone(k + 1, q - 1, size);
    }
  }
}
