/**
 * The jobs page (src/pages/Jobs.jsx): the stored jobs filtered by a search
 * line and a status, ten to a page, with per-page status counts, and the
 * save, archive and delete actions of the job modal and the job cards.
 */
module JobsPage {
  import opened Wrappers
  import opened Text
  import opened Slug
  import opened Lists
  import opened Store
  import opened Database
  import opened Js
  import opened Paging
  import JobModal

  const PageSize: nat := 10

  // ------------------------------------------------------------ listing

  /** The search of `fetchJobs`: the lower-cased title or status contains
      the lower-cased search line. */
  function SearchHit(search: string): Row<Job> -> bool
  {
    (r: Row<Job>) => Contains(Lower(r.val.title), Lower(search)) || Contains(Lower(r.val.status), Lower(search))
  }

  /** The status filter: exact, case-sensitive equality. */
  function StatusIs(status: string): Row<Job> -> bool
  {
    (r: Row<Job>) => r.val.status == status
  }

  /** The jobs `fetchJobs` keeps, in key order; an empty search and the
      status "All" filter nothing. */
  function Visible(rows: seq<Row<Job>>, search: string, statusFilter: string): seq<Row<Job>>
  {
    var bySearch := if search != "" then Filter(rows, SearchHit(search)) else rows;
    if statusFilter != "All" then Filter(bySearch, StatusIs(statusFilter)) else bySearch
  }

  /** A job is listed exactly when it is stored, matches a non-empty
      search and, unless the filter is "All", has the chosen status. */
  lemma VisibleIff(rows: seq<Row<Job>>, search: string, statusFilter: string)
    ensures forall r :: r in Visible(rows, search, statusFilter) <==>
              && r in rows
              && (search == "" || SearchHit(search)(r))
              && (statusFilter == "All" || r.val.status == statusFilter)
  {
    var bySearch := if search != "" then Filter(rows, SearchHit(search)) else rows;
    FilterIn(rows, SearchHit(search));
    FilterIn(bySearch, StatusIs(statusFilter));
  }

  /** The three status cards, counted over the page on show. */
  datatype Stats = Stats(total: nat, active: nat, archived: nat, inactive: nat)

  function PageStats(total: nat, shown: seq<Row<Job>>): (s: Stats)
    ensures s.total == total
    ensures s.active + s.archived + s.inactive <= |shown|
  {
    StatusCounts(shown);
    Stats(total, Count(shown, StatusIs("Active")), Count(shown, StatusIs("Archived")), Count(shown, StatusIs("Inactive")))
  }

  /** The three statuses are distinct, so no job is counted twice. */
  lemma {:induction false} StatusCounts(shown: seq<Row<Job>>)
    ensures Count(shown, StatusIs("Active")) + Count(shown, StatusIs("Archived")) + Count(shown, StatusIs("Inactive")) <= |shown|
  {
    if shown != [] {
      StatusCounts(shown[1..]);
      assert shown == [shown[0]] + shown[1..];
      FilterCons(shown[0], shown[1..], StatusIs("Active"));
      FilterCons(shown[0], shown[1..], StatusIs("Archived"));
      FilterCons(shown[0], shown[1..], StatusIs("Inactive"));
    }
  }

  // ------------------------------------------------------------- paging

  /** The page count as the jobs page computes it, `Math.ceil(total /
      pageSize)`, which is 0 for an empty listing. */
  function PageCountAsWritten(total: nat): nat
  {
    CeilDiv(total, PageSize)
  }

  /** "Next" as written, over that page count. */
  function NextAsWritten(page: int, total: nat): int
  {
    Next(page, PageCountAsWritten(total))
  }

  /** With no job listed there are no pages: the "Next" button stays
      enabled on every page from 1 up (`page !== 0`), and clicking it moves
      to page 0. With some job listed, "Next" as written is "Next" over the
      corrected count. */
  lemma NextAsWrittenLeavesFirstPage(page: int, total: nat)
    requires page >= 1
    ensures PageCountAsWritten(total) == 0 <==> total == 0
    ensures total == 0 ==> page != PageCountAsWritten(total) && NextAsWritten(page, total) == 0
    ensures total > 0 ==> NextAsWritten(page, total) == Next(page, PageCount(total, PageSize))
  {
    if total > 0 {
      assert PageCountAsWritten(total) >= 1;
    }
  }

  /** Over the page count with at least one page, as the candidates page
      has it, "Next" never leaves the pages from 1 up: on
      an empty listing it is disabled on page 1. */
  lemma NextStaysOnAPage(page: int, total: nat)
    requires page >= 1
    ensures Next(page, PageCount(total, PageSize)) >= 1
    ensures page <= PageCount(total, PageSize) ==> Next(page, PageCount(total, PageSize)) <= PageCount(total, PageSize)
    ensures total == 0 && page == 1 ==> Next(page, PageCount(total, PageSize)) == 1
  {
    PagingInRange(page, PageCount(total, PageSize));
  }

  // --------------------------------------------------------------- saving

  /** `jobData.slug || title.toLowerCase().replace(/\s+/g, "-")`. */
  function SlugFor(j: Job): (s: string)
    ensures s == "" <==> j.slug == "" && j.title == ""
    ensures j.slug == "" ==> forall i :: 0 <= i < |s| ==> !IsSpace(s[i])
  {
    if j.slug != "" then j.slug
    else
      DashSlugNoSpace(j.title);
      DashSlug(j.title)
  }

  /** A payload from the modal always carries a slug, so the page keeps
      the modal's slug of the trimmed title. */
  lemma ModalSlugKept(f: JobModal.Fields, job: Option<Row<Job>>)
    requires JobModal.Save(f, job).Some?
    ensures SlugFor(JobModal.Save(f, job).value.job) == DashSlug(Trim(f.title))
  {
    TrimEmptyIff(f.title);
  }

  /** `db.jobs.where("slug").equals(slug).first()`: the job with the
      smallest key among those with the slug. */
  function FirstWithSlug(rows: seq<Row<Job>>, slug: string): (r: Option<Row<Job>>)
    ensures r.Some? ==> r.value in rows && r.value.val.slug == slug
    ensures r.None? <==> forall i :: 0 <= i < |rows| ==> rows[i].val.slug != slug
  {
    if rows == [] then None
    else if rows[0].val.slug == slug then Some(rows[0])
    else FirstWithSlug(rows[1..], slug)
  }

  datatype SaveJobResult = Duplicate | Stored(id: int)

  /** A payload's key, when it has one, is a stored job's key: the modal is
      opened on a job of the listing. */
  predicate KeyOk(p: JobModal.JobPayload)
  {
    p.id.Some? ==> p.id.value >= 1
  }

  /** `handleSaveJob`: a job with the slug under another key (or any job
      with the slug, for a payload without a key) refuses the save; a
      payload with a truthy key is put under it, any other is added. */
  function SavedJob(t: Table<Job>, p: JobModal.JobPayload): (Table<Job>, SaveJobResult)
    requires t.Valid() && KeyOk(p)
  {
    var slug := SlugFor(p.job);
    var existing := FirstWithSlug(t.Rows(), slug);
    if existing.Some? && Some(existing.value.id) != p.id then (t, Duplicate)
    else if TruthyNumber(p.id) then (t.Put(p.id.value, p.job.(slug := slug)), Stored(p.id.value))
    else (t.Add(p.job.(slug := slug)), Stored(t.next))
  }

  /** The database half of `handleSaveJob`. */
  method StoreJob(db: Db, p: JobModal.JobPayload) returns (r: SaveJobResult)
    requires db.Valid() && KeyOk(p)
    modifies db`jobs
    ensures db.Valid()
    ensures (db.jobs, r) == SavedJob(old(db.jobs), p)
  {
    SavedJobSpec(db.jobs, p);
    var (u, res) := SavedJob(db.jobs, p);
    db.jobs := u;
    r := res;
  }

  /** No two stored jobs share a slug. */
  ghost predicate SlugsUnique(t: Table<Job>)
  {
    forall a, b :: a in t.vals && b in t.vals && t.vals[a].slug == t.vals[b].slug ==> a == b
  }

  /** What a save does: it is refused exactly when another job holds the
      slug; otherwise it stores the payload with its slug under the
      payload's key or the next key, leaves every other job alone, and
      keeps slugs unique. */
  lemma SavedJobSpec(t: Table<Job>, p: JobModal.JobPayload)
    requires t.Valid() && KeyOk(p)
    ensures var (u, r) := SavedJob(t, p);
            var existing := FirstWithSlug(t.Rows(), SlugFor(p.job));
            && u.Valid()
            && (r.Duplicate? <==> existing.Some? && Some(existing.value.id) != p.id)
            && (r.Duplicate? ==> u == t)
            && (r.Stored? ==> r.id == if p.id.Some? then p.id.value else t.next)
            && (r.Stored? ==> u.Get(r.id) == Some(p.job.(slug := SlugFor(p.job))))
            && (r.Stored? ==> forall k :: k != r.id ==> u.Get(k) == t.Get(k))
            && (SlugsUnique(t) ==> SlugsUnique(u))
  {
    var (u, r) := SavedJob(t, p);
    if r.Stored? && SlugsUnique(t) {
      OthersWithoutSlug(t, p);
      UniqueAfterStore(t, u, r.id, p.job.(slug := SlugFor(p.job)));
    }
  }

  /** When a save goes through on a table with unique slugs, no job under
      another key holds the slug. */
  lemma OthersWithoutSlug(t: Table<Job>, p: JobModal.JobPayload)
    requires t.Valid() && KeyOk(p) && SlugsUnique(t) && SavedJob(t, p).1.Stored?
    ensures forall k :: k in t.vals && k != SavedJob(t, p).1.id ==> t.vals[k].slug != SlugFor(p.job)
  {
    var slug := SlugFor(p.job);
    var rows := t.Rows();
    var existing := FirstWithSlug(rows, slug);
    forall k | k in t.vals && t.vals[k].slug == slug ensures k == SavedJob(t, p).1.id {
      var i :| 0 <= i < |t.ids| && t.ids[i] == k;
      assert rows[i].id == k && rows[i].val.slug == slug;
      assert existing.value.id in t.vals;
    }
  }

  /** Storing a job under `id` when no other key holds its slug keeps
      slugs unique. */
  lemma UniqueAfterStore(t: Table<Job>, u: Table<Job>, id: int, j: Job)
    requires SlugsUnique(t)
    requires forall k :: k in t.vals && k != id ==> t.vals[k].slug != j.slug
    requires u.Get(id) == Some(j) && forall k :: k != id ==> u.Get(k) == t.Get(k)
    ensures SlugsUnique(u)
  {
    forall a, b | a in u.vals && b in u.vals && u.vals[a].slug == u.vals[b].slug ensures a == b {
      assert u.Get(a) == Some(u.vals[a]) && u.Get(b) == Some(u.vals[b]);
      if a != id {
        assert t.Get(a) == Some(u.vals[a]);
      }
      if b != id {
        assert t.Get(b) == Some(u.vals[b]);
      }
    }
  }

  // ---------------------------------------------------- archive, delete

  /** The archive button: "Archived" becomes "Active", anything else
      "Archived". */
  function Toggled(status: string): (s: string)
    ensures s == "Active" || s == "Archived"
    ensures s == "Active" <==> status == "Archived"
  {
    if status == "Archived" then "Active" else "Archived"
  }

  /** Archiving twice restores an active or archived job's status. */
  lemma ToggledTwice(status: string)
    requires status == "Active" || status == "Archived"
    ensures Toggled(Toggled(status)) == status
  {
  }

  // ---------------------------------------------------------------- page

  /** The page's state: the filters, the page number, what the last fetch
      showed, and the modal. */
  class JobsList {
    var page: int
    var search: string
    var statusFilter: string
    var shown: seq<Row<Job>>
    var total: nat
    var modalOpen: bool
    var modalJob: Option<Row<Job>>

    /** Page 0 is reachable: "Next" on an empty listing moves there. */
    predicate Valid()
      reads this
    {
      page >= 0
    }

    constructor()
      ensures Valid()
      ensures page == 1 && search == "" && statusFilter == "All" && shown == [] && total == 0
      ensures !modalOpen && modalJob.None?
    {
      page := 1;
      search := "";
      statusFilter := "All";
      shown := [];
      total := 0;
      modalOpen := false;
      modalJob := None;
    }

    /** `fetchJobs`: the count of listed jobs, and the current page of them. */
    method Fetch(db: Db)
      requires db.Valid() && Valid()
      modifies this`shown, this`total
      ensures total == |Visible(db.jobs.Rows(), search, statusFilter)|
      ensures shown == Page(Visible(db.jobs.Rows(), search, statusFilter), page, PageSize)
      ensures |shown| <= PageSize
      ensures page == 0 ==> shown == []
      ensures forall r :: r in shown ==> r in db.jobs.Rows()
    {
      var v := Visible(db.jobs.Rows(), search, statusFilter);
      total := |v|;
      shown := Page(v, page, PageSize);
      if page >= 1 {
        PageWindow(v, page, PageSize);
      } else {
        assert SliceIndex(0, |v|) == 0;
      }
      VisibleIff(db.jobs.Rows(), search, statusFilter);
      assert forall r :: r in shown ==> r in v;
    }

    /** Typing in the search box refetches; the page number stays. */
    method SetSearch(db: Db, value: string)
      requires db.Valid() && Valid()
      modifies this`search, this`shown, this`total
      ensures Valid() && search == value && page == old(page)
      ensures shown == Page(Visible(db.jobs.Rows(), value, statusFilter), page, PageSize)
    {
      search := value;
      Fetch(db);
    }

    /** Picking a status refetches; the page number stays. */
    method SetStatusFilter(db: Db, value: string)
      requires db.Valid() && Valid()
      modifies this`statusFilter, this`shown, this`total
      ensures Valid() && statusFilter == value && page == old(page)
      ensures shown == Page(Visible(db.jobs.Rows(), search, value), page, PageSize)
    {
      statusFilter := value;
      Fetch(db);
    }

    method PrevPage(db: Db)
      requires db.Valid() && Valid()
      modifies this`page, this`shown, this`total
      ensures Valid() && page == Prev(old(page)) && page >= 1
      ensures old(page) == 0 ==> page == 1
      ensures 1 <= old(page) <= PageCountAsWritten(old(total)) ==> page <= PageCountAsWritten(old(total))
      ensures shown == Page(Visible(db.jobs.Rows(), search, statusFilter), page, PageSize)
    {
      page := Prev(page);
      Fetch(db);
    }

    /** "Next", over the page count of the last fetch as the page computes
      it: on an empty listing it moves from any page to page 0, which shows
      nothing. */
    method NextPage(db: Db)
      requires db.Valid() && Valid()
      modifies this`page, this`shown, this`total
      ensures Valid() && page == NextAsWritten(old(page), old(total))
      ensures 1 <= old(page) <= PageCountAsWritten(old(total)) ==> 1 <= page <= PageCountAsWritten(old(total))
      ensures old(total) == 0 && old(page) >= 1 ==> page == 0 && shown == []
      ensures shown == Page(Visible(db.jobs.Rows(), search, statusFilter), page, PageSize)
    {
      if page >= 1 && total > 0 {
        NextAsWrittenLeavesFirstPage(page, total);
        NextStaysOnAPage(page, total);
      }
      page := NextAsWritten(page, total);
      Fetch(db);
    }

    /** `openModal`, wired to the "Edit" button of a card only: records the
        job and the open flag. The page renders no modal, so nothing reads
        them. */
    method OpenModal(job: Option<Row<Job>>)
      modifies this`modalOpen, this`modalJob
      ensures modalOpen && modalJob == job
    {
      modalOpen := true;
      modalJob := job;
    }

    /** `handleSaveJob`, which the page defines but never passes to a
        rendered modal: a refused save leaves everything as it was;
        otherwise the listing is fetched again and the modal state is
        cleared. */
    method SaveJob(db: Db, p: JobModal.JobPayload) returns (r: SaveJobResult)
      requires db.Valid() && Valid() && KeyOk(p)
      modifies db`jobs, this`shown, this`total, this`modalOpen, this`modalJob
      ensures db.Valid() && Valid()
      ensures (db.jobs, r) == SavedJob(old(db.jobs), p)
      ensures r.Duplicate? ==> shown == old(shown) && modalOpen == old(modalOpen) && modalJob == old(modalJob)
      ensures r.Stored? ==> !modalOpen && modalJob.None?
      ensures r.Stored? ==> shown == Page(Visible(db.jobs.Rows(), search, statusFilter), page, PageSize)
    {
      r := StoreJob(db, p);
      if r.Stored? {
        AfterSave(db);
      }
    }

    /** After a stored save: the list is fetched again and the modal closes. */
    method AfterSave(db: Db)
      requires db.Valid() && Valid()
      modifies this`shown, this`total, this`modalOpen, this`modalJob
      ensures !modalOpen && modalJob.None?
      ensures shown == Page(Visible(db.jobs.Rows(), search, statusFilter), page, PageSize)
    {
      Fetch(db);
      modalOpen := false;
      modalJob := None;
    }

    /** The archive button of a card: the card's job is put back with its
        status toggled. */
    method Archive(db: Db, row: Row<Job>)
      requires db.Valid() && Valid() && row.id >= 1
      modifies db`jobs, this`shown, this`total
      ensures db.Valid()
      ensures db.jobs == old(db.jobs).Put(row.id, row.val.(status := Toggled(row.val.status)))
      ensures db.jobs.Get(row.id) == Some(row.val.(status := Toggled(row.val.status)))
      ensures shown == Page(Visible(db.jobs.Rows(), search, statusFilter), page, PageSize)
    {
      db.jobs := db.jobs.Put(row.id, row.val.(status := Toggled(row.val.status)));
      Fetch(db);
    }

    /** The delete button of a card, after the confirmation dialog; the
        answer is the parameter `confirmed`. */
    method Delete(db: Db, row: Row<Job>, confirmed: bool)
      requires db.Valid() && Valid()
      modifies db`jobs, this`shown, this`total
      ensures db.Valid()
      ensures confirmed ==> db.jobs == old(db.jobs).Delete(row.id) && db.jobs.Get(row.id).None?
      ensures confirmed ==> shown == Page(Visible(db.jobs.Rows(), search, statusFilter), page, PageSize)
      ensures !confirmed ==> db.jobs == old(db.jobs) && shown == old(shown) && total == old(total)
    {
      if confirmed {
        db.jobs := db.jobs.Delete(row.id);
        Fetch(db);
      }
    }
  }
}
