/**
 * The page-number controls the list pages share: a page count from the
 * number of listed records, and the "Previous" and "Next" buttons, each
 * disabled on the page it cannot leave.
 */
module Paging {
  import opened Lists

  /** `Math.ceil(total / pageSize)`: 0 for an empty listing. */
  function CeilDiv(total: nat, pageSize: nat): (r: nat)
    requires pageSize >= 1
    ensures total <= r * pageSize
    ensures r >= 1 ==> (r - 1) * pageSize < total
  {
    (total + pageSize - 1) / pageSize
  }

  /** `Math.ceil(total / pageSize) || 1`: at least one page. */
  function PageCount(total: nat, pageSize: nat): (r: nat)
    requires pageSize >= 1
    ensures r >= 1
    ensures total <= r * pageSize
    ensures r == 1 || (r - 1) * pageSize < total
  {
    var c := CeilDiv(total, pageSize);
    if c == 0 then 1 else c
  }

  /** "Previous": `Math.max(page - 1, 1)`, disabled on page 1. */
  function Prev(page: int): int
  {
    if page == 1 then page else Max(page - 1, 1)
  }

  /** "Next": `Math.min(page + 1, pages)`, disabled when the page is the
      page count. */
  function Next(page: int, pages: int): int
  {
    if page == pages then page else Min(page + 1, pages)
  }

  /** With at least one page, both buttons keep the page number from 1 up,
      and keep it within the page count when it was. */
  lemma PagingInRange(page: int, pages: int)
    requires page >= 1 && pages >= 1
    ensures Prev(page) >= 1 && Next(page, pages) >= 1
    ensures page <= pages ==> Prev(page) <= pages && Next(page, pages) <= pages
  {
  }

  /** "Next" then "Previous" comes back, and so does "Previous" then
      "Next", away from the ends. */
  lemma PagingRoundTrip(page: int, pages: int)
    ensures 1 <= page < pages ==> Prev(Next(page, pages)) == page
    ensures 1 < page <= pages ==> Next(Prev(page), pages) == page
  {
  }

  /** Paging through every page of a listing shows each listed record
      once, in order. */
  lemma ListingCovered<T>(v: seq<T>, pageSize: nat)
    requires pageSize >= 1
    ensures Pages(v, pageSize, PageCount(|v|, pageSize)) == v
  {
    var m := PageCount(|v|, pageSize);
    PagesCover(v, pageSize, m);
  }
}
