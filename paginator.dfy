/** Paginator: cuts a range of a container into consecutive pages of a
    fixed size, the last page holding the remainder. Iterators are
    modelled as positions into the container. */
module Pagination {

  /** IteratorRange: a half-open range [begin, end) and its length. */
  datatype IteratorRange = IteratorRange(begin: nat, end: nat, size: nat)

  /** The IteratorRange constructor: the size is the distance from begin to end. */
  function Range(begin: nat, end: nat): (r: IteratorRange)
    requires begin <= end
    ensures r.begin == begin && r.end == end
    ensures r.begin + r.size == r.end
  {
    IteratorRange(begin, end, end - begin)
  }

  /** Pages that tile [b, t) left to right, each non-empty and carrying
      its own length. */
  predicate Tiles(sheets: seq<IteratorRange>, b: nat, t: nat) {
    && (sheets == [] ==> b == t)
    && (sheets != [] ==> sheets[0].begin == b && sheets[|sheets| - 1].end == t)
    && (forall j :: 0 <= j < |sheets| ==> sheets[j].begin + sheets[j].size == sheets[j].end)
    && (forall j :: 0 <= j < |sheets| - 1 ==> sheets[j].end == sheets[j + 1].begin)
  }

  /** A pagination of [b, e) with pages of size k: the pages tile the
      range, all have k elements except the last, which has between 1 and k. */
  predicate IsPagination(sheets: seq<IteratorRange>, b: nat, e: nat, k: nat) {
    && Tiles(sheets, b, e)
    && (forall j :: 0 <= j < |sheets| ==> 1 <= sheets[j].size <= k)
    && (forall j :: 0 <= j < |sheets| - 1 ==> sheets[j].size == k)
  }

  /** Number of pages needed for n elements: n / k rounded up. */
  function CeilDiv(n: nat, k: nat): nat
    requires k > 0
  {
    (n + k - 1) / k
  }

  /** The elements of the container on a page. */
  function Items<T>(c: seq<T>, page: IteratorRange): seq<T>
    requires page.begin <= page.end <= |c|
  {
    c[page.begin..page.end]
  }

  /** The elements of all the pages, in page order. */
  function Flatten<T>(c: seq<T>, sheets: seq<IteratorRange>): seq<T>
    requires forall j :: 0 <= j < |sheets| ==> sheets[j].begin <= sheets[j].end <= |c|
  {
    if sheets == [] then []
    else Flatten(c, sheets[..|sheets| - 1]) + Items(c, sheets[|sheets| - 1])
  }

  /** Reading the pages in order gives back the paginated range. */
  lemma {:induction false} FlattenTiles<T>(c: seq<T>, sheets: seq<IteratorRange>, b: nat, t: nat)
    requires Tiles(sheets, b, t) && t <= |c|
    ensures forall j :: 0 <= j < |sheets| ==> b <= sheets[j].begin <= sheets[j].end <= t
    ensures b <= t
    ensures Flatten(c, sheets) == c[b..t]
  {
    PagesWithinRange(sheets, b, t);
    if sheets != [] {
      var n := |sheets| - 1;
      var init := sheets[..n];
      var m := sheets[n].begin;
      assert Tiles(init, b, m);
      FlattenTiles(c, init, b, m);
      assert c[b..t] == c[b..m] + c[m..t];
    }
  }

  /** The sizes of the pages, added up. */
  function TotalSize(sheets: seq<IteratorRange>): nat {
    if sheets == [] then 0 else TotalSize(sheets[..|sheets| - 1]) + sheets[|sheets| - 1].size
  }

  lemma {:induction false} TotalSizeTiles(sheets: seq<IteratorRange>, b: nat, t: nat)
    requires Tiles(sheets, b, t)
    ensures b + TotalSize(sheets) == t
  {
    if sheets != [] {
      var n := |sheets| - 1;
      assert Tiles(sheets[..n], b, sheets[n].begin);
      TotalSizeTiles(sheets[..n], b, sheets[n].begin);
    }
  }

  /** Pages of size k except a last one of size s add up to (m - 1) * k + s. */
  lemma {:induction false} TotalSizeOfFullPages(sheets: seq<IteratorRange>, k: nat)
    requires sheets != []
    requires forall j :: 0 <= j < |sheets| - 1 ==> sheets[j].size == k
    ensures TotalSize(sheets) == (|sheets| - 1) * k + sheets[|sheets| - 1].size
  {
    var n := |sheets| - 1;
    if n > 0 {
      TotalSizeOfFullPages(sheets[..n], k);
      assert (n - 1) * k + k == n * k;
    }
  }

  /** (m - 1) * k + s with 1 <= s <= k rounds up to m pages. */
  lemma CeilDivOfPages(m: nat, k: nat, s: nat)
    requires m > 0 && 1 <= s <= k
    ensures CeilDiv((m - 1) * k + s, k) == m
  {
    assert (m - 1) * k + k == m * k;
    DivOfQuotient(m, k, s - 1);
  }

  /** Integer division undoes q * k + r for a remainder r below k. */
  lemma DivOfQuotient(q: nat, k: nat, r: nat)
    requires r < k
    ensures (q * k + r) / k == q
  {
    var n := q * k + r;
    var d := n / k - q;
    assert d * k == r - n % k;
  }

  /** A pagination has CeilDiv(e - b, k) pages. */
  lemma PaginationCount(sheets: seq<IteratorRange>, b: nat, e: nat, k: nat)
    requires k > 0 && IsPagination(sheets, b, e, k)
    ensures b <= e
    ensures |sheets| == CeilDiv(e - b, k)
  {
    TotalSizeTiles(sheets, b, e);
    if sheets != [] {
      TotalSizeOfFullPages(sheets, k);
      CeilDivOfPages(|sheets|, k, sheets[|sheets| - 1].size);
    }
  }

  /** A pagination is determined by the range and the page size. */
  lemma {:induction false} PaginationUnique(s: seq<IteratorRange>, t: seq<IteratorRange>, b: nat, e: nat, k: nat)
    requires k > 0 && IsPagination(s, b, e, k) && IsPagination(t, b, e, k)
    ensures s == t
    decreases |s|
  {
    PaginationShape(s, b, e, k);
    PaginationShape(t, b, e, k);
    if |s| > 1 {
      PaginationFirstPage(s, b, e, k);
      PaginationFirstPage(t, b, e, k);
      PaginationUnique(s[1..], t[1..], b + k, e, k);
      SameHeadAndTail(s, t);
    } else if |s| == 1 {
      assert s[0] == IteratorRange(b, e, e - b) == t[0];
    }
  }

  lemma SameHeadAndTail<T>(s: seq<T>, t: seq<T>)
    requires s != [] && t != [] && s[0] == t[0] && s[1..] == t[1..]
    ensures s == t
  {
    assert s == [s[0]] + s[1..] && t == [t[0]] + t[1..];
  }

  /** No pages for an empty range, one page when it fits in one, more otherwise. */
  lemma PaginationShape(s: seq<IteratorRange>, b: nat, e: nat, k: nat)
    requires IsPagination(s, b, e, k)
    ensures |s| == 0 <==> e == b
    ensures |s| == 1 <==> b < e <= b + k
  {
    if |s| > 1 {
      PaginationFirstPage(s, b, e, k);
      var rest := s[1..];
      PagesWithinRange(rest, b + k, e);
      assert rest[|rest| - 1].size >= 1;
    }
  }

  /** When there is more than one page, the first is full and the rest
      paginate what follows it. */
  lemma PaginationFirstPage(s: seq<IteratorRange>, b: nat, e: nat, k: nat)
    requires IsPagination(s, b, e, k) && |s| > 1
    ensures s[0] == IteratorRange(b, b + k, k)
    ensures IsPagination(s[1..], b + k, e, k)
  {
    var rest := s[1..];
    assert forall j :: 0 <= j < |rest| ==> rest[j] == s[j + 1];
  }

  /** A full page appended to a tiling of [b, t) tiles [b, t + k). */
  lemma TilesStep(sheets: seq<IteratorRange>, b: nat, t: nat, k: nat)
    requires Tiles(sheets, b, t)
    ensures Tiles(sheets + [Range(t, t + k)], b, t + k)
  {
  }

  /** After i full pages the iterator has moved i * k; the next one still fits. */
  lemma NextPageFits(i: nat, k: nat, full: nat)
    requires k > 0 && i < full / k
    ensures i * k + k <= full
  {
    assert i + 1 <= full / k;
    assert (i + 1) * k <= (full / k) * k;
  }

  /** What is left after the full pages is fewer than k elements. */
  lemma RemainderBelowPage(k: nat, full: nat)
    requires k > 0
    ensures (full / k) * k <= full < (full / k) * k + k
  {
  }

  class Paginator {
    var sheets: seq<IteratorRange>
    /** The paginated range and the page size. */
    ghost var first: nat
    ghost var last: nat
    ghost var sheetSize: nat

    ghost predicate Valid()
      reads this
    {
      sheetSize > 0 && IsPagination(sheets, first, last, sheetSize)
    }

    /** The constructor: full pages of sizeOfSheet while they fit, then one
        page for the remainder, if any. A page size of zero divides by zero
        in the source. */
    constructor(resultBegin: nat, resultEnd: nat, sizeOfSheet: nat)
      requires resultBegin <= resultEnd && sizeOfSheet > 0
      ensures Valid()
      ensures first == resultBegin && last == resultEnd && sheetSize == sizeOfSheet
    {
      var fullSize := resultEnd - resultBegin;
      var tempIter := resultBegin;
      var pages: seq<IteratorRange> := [];
      for i := 0 to fullSize / sizeOfSheet
        invariant tempIter == resultBegin + i * sizeOfSheet
        invariant Tiles(pages, resultBegin, tempIter)
        invariant |pages| == i
        invariant forall j :: 0 <= j < |pages| ==> pages[j].size == sizeOfSheet
      {
        NextPageFits(i, sizeOfSheet, fullSize);
        TilesStep(pages, resultBegin, tempIter, sizeOfSheet);
        pages := pages + [Range(tempIter, tempIter + sizeOfSheet)];
        tempIter := tempIter + sizeOfSheet;
      }
      RemainderBelowPage(sizeOfSheet, fullSize);
      if tempIter != resultEnd {
        pages := pages + [Range(tempIter, resultEnd)];
      }
      sheets := pages;
      first, last, sheetSize := resultBegin, resultEnd, sizeOfSheet;
    }

    /** size(): the number of pages, the range length divided by the page
        size, rounded up. */
    method Size() returns (n: nat)
      requires Valid()
      ensures n == |sheets|
      ensures first <= last && n == CeilDiv(last - first, sheetSize)
    {
      PaginationCount(sheets, first, last, sheetSize);
      n := |sheets|;
    }
  }

  /** Paginate: a Paginator over the whole container. */
  method Paginate<T>(c: seq<T>, pageSize: nat) returns (p: Paginator)
    requires pageSize > 0
    ensures fresh(p) && p.Valid()
    ensures p.first == 0 && p.last == |c| && p.sheetSize == pageSize
  {
    p := new Paginator(0, |c|, pageSize);
  }

  /** The pages of a pagination of a container, read in order, are the container. */
  lemma PagesCoverContainer<T>(c: seq<T>, sheets: seq<IteratorRange>, k: nat)
    requires IsPagination(sheets, 0, |c|, k)
    ensures forall j :: 0 <= j < |sheets| ==> sheets[j].begin <= sheets[j].end <= |c|
    ensures Flatten(c, sheets) == c
  {
    FlattenTiles(c, sheets, 0, |c|);
  }

  /** Every page of a tiling of [b, t) lies within [b, t). */
  lemma {:induction false} PagesWithinRange(sheets: seq<IteratorRange>, b: nat, t: nat)
    requires Tiles(sheets, b, t)
    ensures forall j :: 0 <= j < |sheets| ==> b <= sheets[j].begin <= sheets[j].end <= t
  {
    if sheets != [] {
      var n := |sheets| - 1;
      assert Tiles(sheets[..n], b, sheets[n].begin);
      PagesWithinRange(sheets[..n], b, sheets[n].begin);
    }
  }
}
