/** Pages and offsets: the arithmetic between a page number, the search engine's result window, and the
    client that follows "next page" to the end. */
module Paging {
  import opened Integers

  const ES_MAX_RESULT_WINDOW: nat := 10_000
  const SEARCH_PER_PAGE: nat := 20
  const SEARCH_MAX_PAGE: nat := 500
  const POETS_LIST_MAX_RESULT_WINDOW: nat := 50_000
  const POEMS_PER_PAGE: nat := 30
  const LIST_POETS_MAX_PAGE: nat := 1666

  function SaturatingMul(a: nat, b: nat): nat {
    if a * b <= U32_MAX then a * b else U32_MAX
  }

  /** The `from` of a search body. */
  function Offset(page: U32, size: U32): nat {
    SaturatingMul(SaturatingSub(page, 1), size)
  }

  function DivCeil(n: nat, d: nat): nat
    requires d > 0
  {
    n / d + if n % d > 0 then 1 else 0
  }

  datatype Pagination = Pagination(page: nat, pageSize: nat, totalPages: nat, totalItems: nat)

  function BuildPagination(page: nat, pageSize: nat, totalItems: nat): Pagination {
    var pages := DivCeil(totalItems, if pageSize >= 1 then pageSize else 1);
    Pagination(page, pageSize, if pages >= 1 then pages else 1, totalItems)
  }

  /** A response says which page of which size it is, how many items there are in all, and a total of pages
      that is at least one; a size of zero counts as one. */
  lemma PaginationReports(page: nat, pageSize: nat, totalItems: nat)
    ensures
      var pagination := BuildPagination(page, pageSize, totalItems);
      && (pagination.page, pagination.pageSize, pagination.totalItems) == (page, pageSize, totalItems)
      && pagination.totalPages >= 1 && pagination.totalPages == BuildPagination(1, pageSize, totalItems).totalPages
      && (totalItems == 0 ==> pagination.totalPages == 1)
      && (pageSize == 0 && totalItems > 0 ==> pagination.totalPages == totalItems)
  {
  }

  // ---------------------------------------------------------------------------------------------
  // Offsets stay in the window

  lemma MulMono(a: nat, b: nat, k: nat)
    requires a <= b
    ensures a * k <= b * k
  {
  }

  /** a * b fits n exactly when a is at most the quotient. */
  lemma FitsQuotient(a: nat, b: nat, n: nat)
    requires b >= 1
    ensures a * b <= n <==> a <= n / b
  {
    var q := n / b;
    assert n == q * b + n % b && n % b < b;
    if a <= q {
      MulMono(a, q, b);
    } else {
      MulMono(q + 1, a, b);
      assert (q + 1) * b == q * b + b;
    }
  }

  /** A page's last item lies in the window exactly when the page is at most the quotient of the window
      by the page size, which is how the page ceilings are defined; then nothing saturates. */
  lemma OffsetInWindow(page: U32, size: U32, window: U32)
    requires page >= 1 && size >= 1
    ensures Offset(page, size) + size <= window <==> page <= window / size
    ensures page <= window / size ==> Offset(page, size) == (page - 1) * size
    ensures Offset(0, size) == 0 && Offset(page, size) <= U32_MAX
    ensures Offset(page, size) != (page - 1) * size ==> Offset(page, size) == U32_MAX < (page - 1) * size
  {
    FitsQuotient(page, size, window);
    assert page * size == (page - 1) * size + size;
  }

  lemma CeilingsAreQuotients()
    ensures SEARCH_MAX_PAGE == ES_MAX_RESULT_WINDOW / SEARCH_PER_PAGE
    ensures LIST_POETS_MAX_PAGE == POETS_LIST_MAX_RESULT_WINDOW / POEMS_PER_PAGE
  {
  }

  /** So every page that the routes accept stays inside its window, and the next one would not. */
  lemma AcceptedPagesFit(page: U32)
    requires page >= 1
    ensures page <= SEARCH_MAX_PAGE <==> Offset(page, SEARCH_PER_PAGE) + SEARCH_PER_PAGE <= ES_MAX_RESULT_WINDOW
    ensures page <= LIST_POETS_MAX_PAGE
       <==> Offset(page, POEMS_PER_PAGE) + POEMS_PER_PAGE <= POETS_LIST_MAX_RESULT_WINDOW
    ensures (SEARCH_MAX_PAGE, SEARCH_PER_PAGE, ES_MAX_RESULT_WINDOW) == (500, 20, 10_000)
    ensures (LIST_POETS_MAX_PAGE, POEMS_PER_PAGE, POETS_LIST_MAX_RESULT_WINDOW) == (1666, 30, 50_000)
  {
    CeilingsAreQuotients();
    OffsetInWindow(page, SEARCH_PER_PAGE, ES_MAX_RESULT_WINDOW);
    OffsetInWindow(page, POEMS_PER_PAGE, POETS_LIST_MAX_RESULT_WINDOW);
  }

  // ---------------------------------------------------------------------------------------------
  // Pages tile the items

  /** Item i is on this page. */
  predicate OnPage(page: nat, size: nat, i: nat)
    requires page >= 1
  {
    (page - 1) * size <= i < page * size
  }

  lemma DivUnique(i: nat, size: nat, q: nat)
    requires size >= 1
    ensures q * size <= i < (q + 1) * size <==> q == i / size
  {
    FitsQuotient(q, size, i);
    FitsQuotient(q + 1, size, i);
  }

  lemma CeilCovers(size: nat, total: nat)
    requires size >= 1
    ensures DivCeil(total, size) * size >= total
    ensures total >= 1 ==> (DivCeil(total, size) - 1) * size < total
  {
    var q := total / size;
    assert total == q * size + total % size && total % size < size;
    assert (q + 1) * size == q * size + size;
    if total >= 1 && total % size == 0 {
      assert q >= 1;
      assert (q - 1) * size == q * size - size;
    }
  }

  lemma PagesNeeded(size: nat, total: nat, i: nat)
    requires size >= 1 && i < total
    ensures i / size + 1 <= DivCeil(total, size)
  {
    FitsQuotient(i / size, size, i);
    CeilCovers(size, total);
    if i / size >= DivCeil(total, size) {
      MulMono(DivCeil(total, size), i / size, size);
    }
  }

  /** Every item is on exactly one of the pages 1 to totalPages. */
  lemma PagesTile(size: nat, total: nat, i: nat, page: nat)
    requires size >= 1 && i < total && page >= 1
    ensures OnPage(page, size, i) <==> page == i / size + 1
    ensures 1 <= i / size + 1 <= BuildPagination(page, size, total).totalPages
  {
    DivUnique(i, size, page - 1);
    PagesNeeded(size, total, i);
  }

  /** Whenever at least one item exists the last page is not empty. */
  lemma LastPageIsUsed(size: nat, total: nat)
    requires size >= 1 && total >= 1
    ensures
      var last := BuildPagination(1, size, total).totalPages;
      last >= 1 && (last - 1) * size < total <= last * size
  {
    CeilCovers(size, total);
  }

  // ---------------------------------------------------------------------------------------------
  // Following "next page"

  /** What the engine returns for a page of a fixed result list. */
  function Hits<T>(items: seq<T>, page: U32, size: U32): seq<T>
    requires page >= 1
  {
    var from := Offset(page, size);
    if from >= |items| then []
    else if from + size >= |items| then items[from..]
    else items[from..from + size]
  }

  lemma HitsExtend<T>(items: seq<T>, page: U32, size: U32)
    requires page >= 1 && size >= 1 && page * size <= U32_MAX
    ensures (page - 1) * size == Offset(page, size)
    ensures (if (page - 1) * size < |items| then items[..(page - 1) * size] else items) + Hits(items, page, size)
         == if page * size < |items| then items[..page * size] else items
  {
    var from := (page - 1) * size;
    assert page * size == from + size;
  }

  /** The total that the engine reports: it stops counting at the window. */
  function Reported(found: nat): nat {
    if found <= ES_MAX_RESULT_WINDOW then found else ES_MAX_RESULT_WINDOW
  }

  lemma TotalPagesFit(found: nat)
    ensures 1 <= BuildPagination(1, SEARCH_PER_PAGE, Reported(found)).totalPages <= SEARCH_MAX_PAGE
  {
  }

  /** The client's infinite scroll: start at page one and ask for the next page while the last response
      says that there is one. Every item that the engine counts comes once, in order, and no request
      leaves the window, however many items there are. */
  method FollowPages<T>(items: seq<T>) returns (visited: seq<T>, asked: seq<nat>)
    ensures visited == items[..Reported(|items|)]
    ensures forall k :: 0 <= k < |asked| ==> asked[k] == k + 1 && asked[k] <= SEARCH_MAX_PAGE
    ensures |asked| == BuildPagination(1, SEARCH_PER_PAGE, Reported(|items|)).totalPages
  {
    var page: nat := 1;
    visited, asked := [], [];
    ghost var last := BuildPagination(1, SEARCH_PER_PAGE, Reported(|items|)).totalPages;
    TotalPagesFit(|items|);
    while true
      invariant 1 <= page <= last && |asked| == page - 1
      invariant forall k :: 0 <= k < |asked| ==> asked[k] == k + 1 && asked[k] <= SEARCH_MAX_PAGE
      invariant visited
             == if (page - 1) * SEARCH_PER_PAGE < |items| then items[..(page - 1) * SEARCH_PER_PAGE] else items
      decreases last - page
    {
      asked := asked + [page];
      HitsExtend(items, page, SEARCH_PER_PAGE);
      visited := visited + Hits(items, page, SEARCH_PER_PAGE);
      var pagination := BuildPagination(page, SEARCH_PER_PAGE, Reported(|items|));
      if pagination.page < pagination.totalPages {
        page := page + 1;
      } else {
        break;
      }
    }
    CeilCovers(SEARCH_PER_PAGE, Reported(|items|));
    assert SEARCH_MAX_PAGE * SEARCH_PER_PAGE == ES_MAX_RESULT_WINDOW;
  }
}
