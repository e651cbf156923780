/**
 * The candidates page (src/pages/Candidates.jsx): the stored candidates
 * filtered by a search over name and email and by a stage, twelve to a
 * page; changing the search or the stage goes back to page 1.
 */
module CandidatesPage {
  import opened Text
  import opened Lists
  import opened Store
  import opened Database
  import opened Paging

  const PageSize: nat := 12

  /** The search of `fetchCandidates`: the lower-cased name or email
      contains the lower-cased search line. */
  function SearchHit(search: string): Row<Candidate> -> bool
  {
    (r: Row<Candidate>) => Contains(Lower(r.val.name), Lower(search)) || Contains(Lower(r.val.email), Lower(search))
  }

  /** The stage filter: exact, case-sensitive equality. */
  function StageIs(stage: string): Row<Candidate> -> bool
  {
    (r: Row<Candidate>) => r.val.stage == stage
  }

  /** The candidates `fetchCandidates` keeps, in key order; an empty search
      and the stage "All" filter nothing. */
  function Visible(rows: seq<Row<Candidate>>, search: string, stageFilter: string): seq<Row<Candidate>>
  {
    var bySearch := if search != "" then Filter(rows, SearchHit(search)) else rows;
    if stageFilter != "All" then Filter(bySearch, StageIs(stageFilter)) else bySearch
  }

  /** A candidate is listed exactly when stored, matching a non-empty
      search and, unless the filter is "All", in the chosen stage. */
  lemma VisibleIff(rows: seq<Row<Candidate>>, search: string, stageFilter: string)
    ensures forall r :: r in Visible(rows, search, stageFilter) <==>
              && r in rows
              && (search == "" || SearchHit(search)(r))
              && (stageFilter == "All" || r.val.stage == stageFilter)
  {
    var bySearch := if search != "" then Filter(rows, SearchHit(search)) else rows;
    FilterIn(rows, SearchHit(search));
    FilterIn(bySearch, StageIs(stageFilter));
  }

  /** Narrowing to one stage lists a part of what "All" lists, in the same
      order. */
  lemma StageNarrows(rows: seq<Row<Candidate>>, search: string, stage: string)
    ensures stage != "All" ==> Visible(rows, search, stage) == Filter(Visible(rows, search, "All"), StageIs(stage))
    ensures |Visible(rows, search, stage)| <= |Visible(rows, search, "All")|
  {
  }

  /** The page's state: the filters, the page number and what the last
      fetch showed. */
  class CandidatesList {
    var page: int
    var search: string
    var stageFilter: string
    var shown: seq<Row<Candidate>>
    var total: nat

    /** The page number is always a page from 1 up. */
    predicate Valid()
      reads this
    {
      page >= 1
    }

    constructor()
      ensures Valid()
      ensures page == 1 && search == "" && stageFilter == "All" && shown == [] && total == 0
    {
      page := 1;
      search := "";
      stageFilter := "All";
      shown := [];
      total := 0;
    }

    /** `fetchCandidates`: the count of listed candidates, and the current
        page of them. */
    method Fetch(db: Db)
      requires db.Valid() && Valid()
      modifies this`shown, this`total
      ensures total == |Visible(db.candidates.Rows(), search, stageFilter)|
      ensures shown == Page(Visible(db.candidates.Rows(), search, stageFilter), page, PageSize)
      ensures |shown| <= PageSize
      ensures forall r :: r in shown ==> r in db.candidates.Rows()
    {
      var v := Visible(db.candidates.Rows(), search, stageFilter);
      total := |v|;
      shown := Page(v, page, PageSize);
      PageWindow(v, page, PageSize);
      VisibleIff(db.candidates.Rows(), search, stageFilter);
      assert forall r :: r in shown ==> r in v;
    }

    /** Typing in the search box: back to page 1, whose listing starts with
        the first matching candidate. */
    method SetSearch(db: Db, value: string)
      requires db.Valid() && Valid()
      modifies this`search, this`page, this`shown, this`total
      ensures Valid() && search == value && page == 1 && stageFilter == old(stageFilter)
      ensures total == |Visible(db.candidates.Rows(), value, stageFilter)|
      ensures page <= PageCount(total, PageSize)
      ensures shown == Visible(db.candidates.Rows(), value, stageFilter)[..Min(PageSize, total)]
    {
      search := value;
      page := 1;
      Fetch(db);
      PageWindow(Visible(db.candidates.Rows(), search, stageFilter), page, PageSize);
    }

    /** Picking a stage: back to page 1. */
    method SetStageFilter(db: Db, value: string)
      requires db.Valid() && Valid()
      modifies this`stageFilter, this`page, this`shown, this`total
      ensures Valid() && stageFilter == value && page == 1 && search == old(search)
      ensures total == |Visible(db.candidates.Rows(), search, value)|
      ensures page <= PageCount(total, PageSize)
      ensures shown == Visible(db.candidates.Rows(), search, value)[..Min(PageSize, total)]
    {
      stageFilter := value;
      page := 1;
      Fetch(db);
      PageWindow(Visible(db.candidates.Rows(), search, stageFilter), page, PageSize);
    }

    /** "Previous": `Math.max(1, p - 1)`, disabled on page 1. */
    method PrevPage(db: Db)
      requires db.Valid() && Valid()
      modifies this`page, this`shown, this`total
      ensures Valid() && page == Prev(old(page))
      ensures old(page) <= PageCount(old(total), PageSize) ==> page <= PageCount(old(total), PageSize)
      ensures shown == Page(Visible(db.candidates.Rows(), search, stageFilter), page, PageSize)
    {
      PagingInRange(page, PageCount(total, PageSize));
      page := Prev(page);
      Fetch(db);
    }

    /** "Next": `Math.min(totalPages, p + 1)`, disabled on the last page. */
    method NextPage(db: Db)
      requires db.Valid() && Valid()
      modifies this`page, this`shown, this`total
      ensures Valid() && page == Next(old(page), PageCount(old(total), PageSize))
      ensures old(page) <= PageCount(old(total), PageSize) ==> page <= PageCount(old(total), PageSize)
      ensures shown == Page(Visible(db.candidates.Rows(), search, stageFilter), page, PageSize)
    {
      PagingInRange(page, PageCount(total, PageSize));
      page := Next(page, PageCount(total, PageSize));
      Fetch(db);
    }
  }
}
