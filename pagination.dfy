/**
 * The pagination of `GET /users` in the enhanced Flask service: the parameter checks, the
 * window of a page (Flask-SQLAlchemy's `paginate` with `error_out=False`) and its metadata.
 */
module Pagination {
  import opened JsonValues

  const MaxPerPage := 100
  const PageMustBePositive := "Page must be greater than 0"
  const PerPageOutOfRange := "Per page must be between 1 and 100"

  /** The first failing parameter check, if any. */
  function PaginationError(page: int, perPage: int): (e: Option<string>)
    ensures e == None <==> page >= 1 && 1 <= perPage <= MaxPerPage
    ensures page < 1 ==> e == Some(PageMustBePositive)
    ensures page >= 1 && !(1 <= perPage <= MaxPerPage) ==> e == Some(PerPageOutOfRange)
  {
    if page < 1 then Some(PageMustBePositive)
    else if perPage < 1 || perPage > MaxPerPage then Some(PerPageOutOfRange)
    else None
  }

  function Min(a: int, b: int): int { if a <= b then a else b }

  lemma MulMonotone(a: int, b: int, c: int)
    requires a <= b && c >= 0
    ensures a * c <= b * c
  {
  }

  /** The position of the first item of page `page`. */
  function PageStart(page: int, perPage: int): (start: nat)
    requires page >= 1 && perPage >= 1
    ensures start == (page - 1) * perPage
  {
    MulMonotone(0, page - 1, perPage);
    (page - 1) * perPage
  }

  /** The items of page `page` (numbered from 1) when pages hold `perPage` items. */
  function PageWindow<T>(items: seq<T>, page: int, perPage: int): (w: seq<T>)
    requires page >= 1 && perPage >= 1
    ensures |w| <= perPage
    ensures |items| <= PageStart(page, perPage) ==> w == []
    ensures PageStart(page, perPage) < |items| ==> |w| == Min(perPage, |items| - PageStart(page, perPage))
    ensures w != [] ==> PageStart(page, perPage) + |w| <= |items|
    ensures forall k :: 0 <= k < |w| ==> w[k] == items[PageStart(page, perPage) + k]
  {
    var start := PageStart(page, perPage);
    if start >= |items| then [] else items[start..Min(start + perPage, |items|)]
  }

  /** `ceil(total / per_page)`, and 0 for an empty query. */
  function PageCount(total: nat, perPage: int): (pages: nat)
    requires perPage >= 1
    ensures total == 0 <==> pages == 0
    ensures total > 0 ==> (pages - 1) * perPage < total <= pages * perPage
  {
    if total == 0 then 0 else (total + perPage - 1) / perPage
  }

  datatype Meta = Meta(
    page: int,
    perPage: int,
    total: nat,
    pages: nat,
    hasNext: bool,
    hasPrev: bool,
    nextPage: Option<int>,
    prevPage: Option<int>,
    authenticated: bool)

  /** The `meta` object of the listing response. */
  function PageMeta(total: nat, page: int, perPage: int, authenticated: bool): (m: Meta)
    requires page >= 1 && perPage >= 1
    ensures m.page == page && m.perPage == perPage && m.total == total && m.authenticated == authenticated
    ensures m.pages == PageCount(total, perPage)
    ensures m.hasNext <==> page < m.pages
    ensures m.hasPrev <==> page > 1
    ensures m.nextPage == (if m.hasNext then Some(page + 1) else None)
    ensures m.prevPage == (if m.hasPrev then Some(page - 1) else None)
  {
    var pages := PageCount(total, perPage);
    var hasNext := page < pages;
    var hasPrev := page > 1;
    Meta(page, perPage, total, pages, hasNext, hasPrev,
         if hasNext then Some(page + 1) else None,
         if hasPrev then Some(page - 1) else None,
         authenticated)
  }

  /** `has_next` says exactly that the following page is not empty. */
  lemma HasNextIffNextPageNonEmpty<T>(items: seq<T>, page: int, perPage: int, authenticated: bool)
    requires page >= 1 && perPage >= 1
    ensures PageMeta(|items|, page, perPage, authenticated).hasNext <==> PageWindow(items, page + 1, perPage) != []
  {
    var pages := PageCount(|items|, perPage);
    if page < pages {
      MulMonotone(page, pages - 1, perPage);
    } else if |items| > 0 {
      MulMonotone(pages, page, perPage);
    }
  }

  /** The k-th item (from 0) appears on page `k / perPage + 1`, at position `k % perPage`. */
  lemma ItemOnItsPage<T>(items: seq<T>, perPage: int, k: int) returns (page: int, pos: int)
    requires perPage >= 1 && 0 <= k < |items|
    ensures page == k / perPage + 1 && pos == k % perPage && page >= 1
    ensures pos < |PageWindow(items, page, perPage)|
    ensures PageWindow(items, page, perPage)[pos] == items[k]
  {
    page := k / perPage + 1;
    pos := k % perPage;
    assert PageStart(page, perPage) + pos == k;
  }

  /** Twenty-five items at ten per page make three pages, the first one full. */
  lemma TwentyFiveAtTenPerPage<T>(items: seq<T>)
    requires |items| == 25
    ensures PageMeta(|items|, 1, 10, false).pages == 3
    ensures |PageWindow(items, 1, 10)| == 10
    ensures PageWindow(items, 4, 10) == []
  {
  }
}
