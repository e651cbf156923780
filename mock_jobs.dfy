/**
 * The job routes of the mock backend (src/mock/handlers.js): list with
 * search, status filter, sort and paging; create with slug suffixing and
 * the next display order; patch with the slug uniqueness check; reorder
 * with full renumbering. The injected failure (`shouldFail`) is the
 * parameter `fail`.
 */
module MockJobs {
  import opened Wrappers
  import opened Text
  import opened Slug
  import opened Lists
  import opened Store
  import opened Database
  import opened Http
  import opened Js

  // ------------------------------------------------------------ listing

  /** The search of `GET /jobs`, already lower-cased: the lower-cased title, or
      the tags joined by spaces and lower-cased, contain it. */
  predicate MatchesSearch(j: Job, search: string)
  {
    Contains(Lower(j.title), search) || Contains(Lower(Join(j.tags, " ")), search)
  }

  /** The status filter, already lower-cased: case-insensitive equality. */
  predicate HasStatus(j: Job, status: string)
  {
    Lower(j.status) == status
  }

  /** `a.order || 0`. */
  function OrderKey(j: Job): int
  {
    j.order.GetOr(0)
  }

  /** The listing's comparator as "may come first": by title or by status
      when asked, otherwise by order. */
  function JobLe(sort: string): (Row<Job>, Row<Job>) -> bool
  {
    if sort == "title" then (a: Row<Job>, b: Row<Job>) => LexLe(a.val.title, b.val.title)
    else if sort == "status" then (a: Row<Job>, b: Row<Job>) => LexLe(a.val.status, b.val.status)
    else (a: Row<Job>, b: Row<Job>) => OrderKey(a.val) <= OrderKey(b.val)
  }

  /** Every comparator of the listing orders all jobs consistently. */
  lemma JobLeTotal(sort: string)
    ensures TotalPreorder(JobLe(sort))
  {
    var le := JobLe(sort);
    forall a: Row<Job>, b: Row<Job> ensures le(a, b) || le(b, a) {
      if sort == "title" {
        LexLeTotal(a.val.title, b.val.title);
      } else if sort == "status" {
        LexLeTotal(a.val.status, b.val.status);
      }
    }
    forall a: Row<Job>, b: Row<Job>, c: Row<Job> | le(a, b) && le(b, c) ensures le(a, c) {
      if sort == "title" {
        LexLeTransitive(a.val.title, b.val.title, c.val.title);
      } else if sort == "status" {
        LexLeTransitive(a.val.status, b.val.status, c.val.status);
      }
    }
  }

  /** The jobs a listing keeps, in store order; an empty search or status
      applies no filter. */
  function MatchingJobs(rows: seq<Row<Job>>, search: string, status: string): seq<Row<Job>>
  {
    var bySearch := if search != "" then Filter(rows, (r: Row<Job>) => MatchesSearch(r.val, search)) else rows;
    if status != "" then Filter(bySearch, (r: Row<Job>) => HasStatus(r.val, status)) else bySearch
  }

  /** A job is listed exactly when it matches the search and, if one is
      given, the status. */
  lemma MatchingJobsIff(rows: seq<Row<Job>>, search: string, status: string)
    ensures forall r :: r in MatchingJobs(rows, search, status) <==>
              r in rows && MatchesSearch(r.val, search) && (status == "" || HasStatus(r.val, status))
  {
    var bySearch := if search != "" then Filter(rows, (r: Row<Job>) => MatchesSearch(r.val, search)) else rows;
    FilterIn(rows, (r: Row<Job>) => MatchesSearch(r.val, search));
    FilterIn(bySearch, (r: Row<Job>) => HasStatus(r.val, status));
    forall r: Row<Job> ensures MatchesSearch(r.val, "") {
      assert IsPrefix("", Lower(r.val.title));
    }
  }

  /** `GET /jobs`: filter, sort, then cut out the page; `total` is the
      number of matching jobs, whatever the page. */
  method ListJobs(db: Db, search: string, status: string, page: Option<int>, pageSize: Option<int>, sort: string)
    returns (r: Listing<Row<Job>>)
    requires db.Valid()
    ensures r.page == page.GetOr(1) && r.pageSize == pageSize.GetOr(10)
    ensures r.total == |MatchingJobs(db.jobs.Rows(), Lower(search), Lower(status))|
    ensures r.items == Page(SortBy(MatchingJobs(db.jobs.Rows(), Lower(search), Lower(status)), JobLe(sort)), r.page, r.pageSize)
    ensures forall x :: x in r.items ==> x in db.jobs.Rows() && MatchesSearch(x.val, Lower(search))
    ensures forall x :: x in r.items && status != "" ==> HasStatus(x.val, Lower(status))
    ensures SortedBy(r.items, JobLe(sort))
  {
    var s, st := Lower(search), Lower(status);
    var collection := db.jobs.Rows();
    if s != "" {
      collection := Filter(collection, (r: Row<Job>) => MatchesSearch(r.val, s));
    }
    if st != "" {
      collection := Filter(collection, (r: Row<Job>) => HasStatus(r.val, st));
    }
    assert collection == MatchingJobs(db.jobs.Rows(), s, st);
    collection := SortBy(collection, JobLe(sort));
    var total := |collection|;
    var p, k := page.GetOr(1), pageSize.GetOr(10);
    r := Listing(total, p, k, Page(collection, p, k));
    ListedJobs(db.jobs.Rows(), s, st, sort, p, k);
    assert status != "" ==> st != "" by {
      if status != "" {
        assert |st| == |status|;
      }
    }
  }

  /** Every job on a page of the listing is stored and matches the
      filters, and the page is in the listing's order. */
  lemma ListedJobs(rows: seq<Row<Job>>, s: string, st: string, sort: string, p: int, k: int)
    ensures var items := Page(SortBy(MatchingJobs(rows, s, st), JobLe(sort)), p, k);
            && (forall x :: x in items ==> x in rows && MatchesSearch(x.val, s))
            && (forall x :: x in items && st != "" ==> HasStatus(x.val, st))
            && SortedBy(items, JobLe(sort))
  {
    var matched := MatchingJobs(rows, s, st);
    var sorted := SortBy(matched, JobLe(sort));
    var items := Page(sorted, p, k);
    MatchingJobsIff(rows, s, st);
    JobLeTotal(sort);
    SortBySorted(matched, JobLe(sort));
    SliceIn(sorted, (p - 1) * k, (p - 1) * k + k);
    forall x | x in items ensures x in matched {
      assert x in multiset(sorted);
    }
    PageSorted(sorted, p, k, JobLe(sort));
  }

  /** A page of a sorted listing is sorted. */
  lemma PageSorted<T>(s: seq<T>, page: int, pageSize: int, le: (T, T) -> bool)
    requires SortedBy(s, le)
    ensures SortedBy(Page(s, page, pageSize), le)
  {
    var start := (page - 1) * pageSize;
    var a, b := SliceIndex(start, |s|), SliceIndex(start + pageSize, |s|);
    if a < b {
      var r := s[a..b];
      forall i, j | 0 <= i < j < |r| ensures le(r[i], r[j]) {
        assert r[i] == s[a + i] && r[j] == s[a + j];
      }
    }
  }

  // ------------------------------------------------------------ create

  datatype JobBody = JobBody(title: Option<string>, slug: Option<string>, status: Option<string>, tags: Option<seq<string>>)

  /** The slugs held by the jobs of a table. */
  function Slugs(t: Table<Job>): set<string>
  {
    set k | k in t.vals :: t.vals[k].slug
  }

  /** `base` followed by `k` copies of `-1`. */
  function Suffixed(base: string, k: nat): (r: string)
    ensures |r| == |base| + 2 * k
  {
    if k == 0 then base else Suffixed(base, k - 1) + "-1"
  }

  /** `k` suffixes give the first slug of the form `base-1-1…` that is not
      taken: it is free, and every shorter one is taken. */
  predicate FirstFree(taken: set<string>, base: string, k: nat)
  {
    Suffixed(base, k) !in taken && forall j :: 0 <= j < k ==> Suffixed(base, j) in taken
  }

  /** At most one suffix count is the first free one, so the slug the loop
      picks is determined by the taken slugs and the base. */
  lemma FirstFreeUnique(taken: set<string>, base: string, k1: nat, k2: nat)
    requires FirstFree(taken, base, k1) && FirstFree(taken, base, k2)
    ensures k1 == k2
  {
  }

  /** A second "Senior Engineer" job, created while "senior-engineer" is
      taken and "senior-engineer-1" is not, gets "senior-engineer-1". */
  lemma SecondSeniorEngineer(taken: set<string>, k: nat)
    requires "senior-engineer" in taken && "senior-engineer-1" !in taken
    requires FirstFree(taken, "senior-engineer", k)
    ensures Suffixed("senior-engineer", k) == "senior-engineer-1"
  {
    assert Suffixed("senior-engineer", 0) == "senior-engineer";
    assert Suffixed("senior-engineer", 1) == "senior-engineer-1";
    FirstFreeUnique(taken, "senior-engineer", k, 1);
  }

  /** The loop of `POST /jobs` that appends `-1` while the slug is taken: it
      stops at the first free slug of the form `base-1-1…`. */
  method FreeSlug(taken: set<string>, base: string) returns (slug: string, ghost k: nat)
    ensures slug == Suffixed(base, k)
    ensures FirstFree(taken, base, k)
  {
    slug, k := base, 0;
    while slug in taken
      invariant slug == Suffixed(base, k)
      invariant forall j :: 0 <= j < k ==> Suffixed(base, j) in taken
      decreases set x | x in taken && |x| >= |slug|
    {
      ghost var longer := set x | x in taken && |x| >= |slug|;
      slug := slug + "-1";
      k := k + 1;
      assert (set x | x in taken && |x| >= |slug|) <= longer;
      assert Suffixed(base, k - 1) in longer;
    }
  }

  /** `orderBy("order").last().order`: the largest order among the jobs that
      have one. */
  function MaxOrder(rows: seq<Row<Job>>): (m: Option<int>)
    ensures m.None? <==> forall i :: 0 <= i < |rows| ==> rows[i].val.order.None?
    ensures m.Some? ==> forall i :: 0 <= i < |rows| && rows[i].val.order.Some? ==> rows[i].val.order.value <= m.value
    ensures m.Some? ==> exists i :: 0 <= i < |rows| && rows[i].val.order == m
  {
    if rows == [] then None
    else
      var rest := MaxOrder(rows[1..]);
      assert forall i :: 1 <= i < |rows| ==> rows[i] == rows[1..][i - 1];
      match rows[0].val.order
      case None => rest
      case Some(o) =>
        if rest.Some? && rest.value > o then rest else Some(o)
  }

  /** The order a created job gets: one past the largest, so above every
      existing order, or 1 when no job has an order. */
  function NextOrder(rows: seq<Row<Job>>): (n: int)
    ensures forall i :: 0 <= i < |rows| && rows[i].val.order.Some? ==> rows[i].val.order.value < n
    ensures (forall i :: 0 <= i < |rows| ==> rows[i].val.order.None?) ==> n == 1
    ensures n == 1 || exists i :: 0 <= i < |rows| && rows[i].val.order == Some(n - 1)
  {
    match MaxOrder(rows)
    case None => 1
    case Some(m) => m + 1
  }

  /** `body.slug || makeSlug(body.title)`. */
  function BaseSlug(body: JobBody): string
    requires body.title.Some?
  {
    Or(body.slug, MakeSlug(body.title.value))
  }

  /** `POST /jobs`. */
  method CreateJob(db: Db, fail: bool, body: JobBody) returns (r: Response<Row<Job>>)
    requires db.Valid()
    modifies db`jobs
    ensures db.Valid()
    ensures fail ==> r == Error(500, "Simulated server error (create job)")
    ensures !fail && !Truthy(body.title) ==> r == Error(400, "Title is required")
    ensures r.Created? <==> !fail && Truthy(body.title)
    ensures !r.Created? ==> db.jobs == old(db.jobs)
    ensures r.Created? ==>
      && r.body.id == old(db.jobs.next)
      && db.jobs == old(db.jobs).Add(r.body.val)
      && r.body.val.title == body.title.value
      && r.body.val.slug !in old(Slugs(db.jobs))
      && (exists k :: r.body.val.slug == Suffixed(BaseSlug(body), k) && FirstFree(old(Slugs(db.jobs)), BaseSlug(body), k))
      && r.body.val.status == Lower(Or(body.status, "active"))
      && r.body.val.tags == body.tags.GetOr([])
      && r.body.val.order == Some(NextOrder(old(db.jobs.Rows())))
      && r.body.val.description == ""
      && r.body.val.requirements == []
  {
    if fail {
      return Error(500, "Simulated server error (create job)");
    }
    if !Truthy(body.title) {
      return Error(400, "Title is required");
    }
    var slug, k := FreeSlug(Slugs(db.jobs), BaseSlug(body));
    var order := NextOrder(db.jobs.Rows());
    var job := Job(body.title.value, slug, Lower(Or(body.status, "active")), body.tags.GetOr([]), Some(order), "", []);
    var id := db.jobs.next;
    db.jobs := db.jobs.Add(job);
    r := Created(Row(id, db.jobs.Get(id).value));
  }

  // ------------------------------------------------------------- patch

  /** The fields a `PATCH /jobs/:id` body may carry. */
  datatype JobPatch = JobPatch(
    title: Option<string>,
    slug: Option<string>,
    status: Option<string>,
    tags: Option<seq<string>>,
    order: Option<int>,
    description: Option<string>,
    requirements: Option<seq<string>>)

  /** `db.jobs.update(id, body)` after the status was lower-cased: each field
      the body carries replaces the job's, the others stay. */
  function Patched(j: Job, p: JobPatch): (r: Job)
    ensures r.title == p.title.GetOr(j.title) && r.slug == p.slug.GetOr(j.slug)
    ensures r.status == if p.status.Some? then Lower(p.status.value) else j.status
    ensures r.tags == p.tags.GetOr(j.tags)
    ensures r.order == if p.order.Some? then p.order else j.order
    ensures r.description == p.description.GetOr(j.description)
    ensures r.requirements == p.requirements.GetOr(j.requirements)
  {
    j.(title := p.title.GetOr(j.title),
       slug := p.slug.GetOr(j.slug),
       status := if p.status.Some? then Lower(p.status.value) else j.status,
       tags := p.tags.GetOr(j.tags),
       order := if p.order.Some? then p.order else j.order,
       description := p.description.GetOr(j.description),
       requirements := p.requirements.GetOr(j.requirements))
  }

  /** Sending the same patch twice stores what sending it once does. */
  lemma PatchedTwice(j: Job, p: JobPatch)
    ensures Patched(Patched(j, p), p) == Patched(j, p)
  {
    if p.status.Some? {
      LowerIdempotent(p.status.value);
    }
  }

  /** A supplied, non-empty slug that differs from the job's own and is held
      by some job. */
  predicate SlugClash(t: Table<Job>, id: int, body: JobPatch)
    requires id in t.vals
  {
    Truthy(body.slug) && body.slug.value != t.vals[id].slug && body.slug.value in Slugs(t)
  }

  /** `PATCH /jobs/:id`. */
  method PatchJob(db: Db, fail: bool, id: int, body: JobPatch) returns (r: Response<Row<Job>>)
    requires db.Valid()
    modifies db`jobs
    ensures db.Valid()
    ensures !r.Ok? ==> db.jobs == old(db.jobs)
    ensures fail ==> r == Error(500, "Simulated error (patch job)")
    ensures !fail && id !in old(db.jobs.vals) ==> r == Error(404, "Job not found")
    ensures !fail && id in old(db.jobs.vals) && SlugClash(old(db.jobs), id, body) ==>
              r == Error(400, "Slug must be unique")
    ensures r.Ok? <==> !fail && id in old(db.jobs.vals) && !SlugClash(old(db.jobs), id, body)
    ensures r.Ok? ==>
      && r.body == Row(id, Patched(old(db.jobs.vals[id]), body))
      && db.jobs == old(db.jobs).Update(id, r.body.val)
  {
    if fail {
      return Error(500, "Simulated error (patch job)");
    }
    var job := db.jobs.Get(id);
    if job.None? {
      return Error(404, "Job not found");
    }
    if Truthy(body.slug) && body.slug.value != job.value.slug {
      var taken := body.slug.value in Slugs(db.jobs);
      if taken {
        return Error(400, "Slug must be unique");
      }
    }
    var patch := body;
    if Truthy(body.status) {
      patch := patch.(status := Some(Lower(body.status.value)));
    }
    var updated := job.value.(title := patch.title.GetOr(job.value.title),
                              slug := patch.slug.GetOr(job.value.slug),
                              status := patch.status.GetOr(job.value.status),
                              tags := patch.tags.GetOr(job.value.tags),
                              order := if patch.order.Some? then patch.order else job.value.order,
                              description := patch.description.GetOr(job.value.description),
                              requirements := patch.requirements.GetOr(job.value.requirements));
    assert body.status == Some("") ==> Lower("") == "";
    db.jobs := db.jobs.Update(id, updated);
    r := Ok(Row(id, db.jobs.Get(id).value));
  }

  // ----------------------------------------------------------- reorder

  function RowId(r: Row<Job>): int
  {
    r.id
  }

  /** Ascending by order; the jobs with no order are not in the index. */
  function ByOrder(): (Row<Job>, Row<Job>) -> bool
  {
    (a: Row<Job>, b: Row<Job>) => OrderKey(a.val) <= OrderKey(b.val)
  }

  /** `orderBy("order").toArray()`: the jobs that have an order, ascending by
      it, ties in key order. */
  function OrderedJobs(t: Table<Job>): seq<Row<Job>>
    requires t.Valid()
  {
    SortBy(Filter(t.Rows(), (r: Row<Job>) => r.val.order.Some?), ByOrder())
  }

  /** `Math.max(0, Math.min(others.length, toOrder - 1))`. */
  function TargetIndex(others: nat, toOrder: int): (i: nat)
    ensures i <= others
  {
    Max(0, Min(others, toOrder - 1))
  }

  /** The new sequence of jobs: the moving job taken out and put back at the
      clamped target index. */
  function Reordered(ordered: seq<Row<Job>>, at: nat, toOrder: int): seq<Row<Job>>
    requires at < |ordered|
  {
    var others := WithoutKey(ordered, RowId, ordered[at].id);
    InsertAt(others, TargetIndex(|others|, toOrder), ordered[at])
  }

  /** The rows of the order index have distinct keys and are rows of the
      table. */
  lemma OrderedJobsRows(t: Table<Job>)
    requires t.Valid()
    ensures DistinctKeys(OrderedJobs(t), RowId)
    ensures forall x :: x in OrderedJobs(t) ==> x.id in t.vals && t.vals[x.id] == x.val && x.val.order.Some?
    ensures forall k :: k in t.vals && t.vals[k].order.Some? ==> Row(k, t.vals[k]) in OrderedJobs(t)
  {
    var rows := t.Rows();
    var p := (r: Row<Job>) => r.val.order.Some?;
    var f := Filter(rows, p);
    assert DistinctKeys(rows, RowId);
    DistinctKeysFilter(rows, p, RowId);
    DistinctKeysPermutation(f, OrderedJobs(t), RowId);
    FilterIn(rows, p);
    forall x | x in OrderedJobs(t) ensures x in f {
      assert x in multiset(OrderedJobs(t));
    }
    forall k | k in t.vals && t.vals[k].order.Some? ensures Row(k, t.vals[k]) in OrderedJobs(t) {
      var i :| 0 <= i < |t.ids| && t.ids[i] == k;
      assert rows[i] == Row(k, t.vals[k]);
      assert Row(k, t.vals[k]) in rows;
      assert Row(k, t.vals[k]) in f;
      assert Row(k, t.vals[k]) in multiset(OrderedJobs(t));
    }
  }

  /** The reorder puts the moving job at the clamped index, keeps the other
      jobs in their relative order, and is a permutation of the index. */
  lemma ReorderedShape(ordered: seq<Row<Job>>, at: nat, toOrder: int)
    requires at < |ordered|
    requires DistinctKeys(ordered, RowId)
    ensures var list := Reordered(ordered, at, toOrder);
            var t := TargetIndex(|ordered| - 1, toOrder);
            && |list| == |ordered|
            && list[t] == ordered[at]
            && RemoveAt(list, t) == RemoveAt(ordered, at)
            && multiset(list) == multiset(ordered)
            && (forall x :: x in list <==> x in ordered)
            && DistinctKeys(list, RowId)
  {
    var others := WithoutKey(ordered, RowId, ordered[at].id);
    FilterOutUnique(ordered, RowId, ordered[at].id, at);
    var t := TargetIndex(|others|, toOrder);
    var list := InsertAt(others, t, ordered[at]);
    assert RemoveAt(list, t) == others;
    RemoveInsertMultiset(ordered, at, t);
    DistinctKeysPermutation(ordered, list, RowId);
    forall x ensures x in list <==> x in ordered {
      assert x in list <==> x in multiset(list);
    }
  }

  /** The table `after` is `before` with each job of `list` given its
      position plus one as order, and every other job left as it was. */
  ghost predicate Renumbered(before: Table<Job>, after: Table<Job>, list: seq<Row<Job>>)
  {
    && after.ids == before.ids && after.next == before.next
    && (forall k :: k in after.vals <==> k in before.vals)
    && (forall i :: 0 <= i < |list| ==>
          && list[i].id in before.vals && list[i].id in after.vals
          && after.vals[list[i].id] == before.vals[list[i].id].(order := Some(i + 1)))
    && (forall k :: k in before.vals && (forall i :: 0 <= i < |list| ==> list[i].id != k) ==>
          k in after.vals && after.vals[k] == before.vals[k])
  }

  /** One step of the renumbering loop extends the renumbered prefix by one
      job. */
  lemma RenumberStep(before: Table<Job>, cur: Table<Job>, list: seq<Row<Job>>, i: nat)
    requires cur.Valid() && i < |list| && DistinctKeys(list, RowId)
    requires list[i].id in before.vals
    requires Renumbered(before, cur, list[..i])
    ensures Renumbered(before, cur.Update(list[i].id, cur.vals[list[i].id].(order := Some(i + 1))), list[..i + 1])
  {
    var id := list[i].id;
    var after := cur.Update(id, cur.vals[id].(order := Some(i + 1)));
    assert after.vals == cur.vals[id := cur.vals[id].(order := Some(i + 1))];
    var p, q := list[..i], list[..i + 1];
    forall j | 0 <= j < i ensures p[j].id != id {
      assert p[j] == list[j];
      assert RowId(list[j]) != RowId(list[i]);
    }
    assert cur.vals[id] == before.vals[id];
    forall j | 0 <= j < |q|
      ensures q[j].id in before.vals && q[j].id in after.vals
      ensures after.vals[q[j].id] == before.vals[q[j].id].(order := Some(j + 1))
    {
      if j < i {
        assert q[j] == p[j];
      }
    }
  }

  /** The loop `others.forEach((j, idx) => db.jobs.update(j.id, { order: idx + 1 }))`. */
  method Renumber(db: Db, list: seq<Row<Job>>)
    requires db.Valid()
    requires forall i :: 0 <= i < |list| ==> list[i].id in db.jobs.vals
    requires DistinctKeys(list, RowId)
    modifies db`jobs
    ensures db.Valid()
    ensures Renumbered(old(db.jobs), db.jobs, list)
  {
    ghost var before := db.jobs;
    var t := db.jobs;
    var i := 0;
    RenumberedNothing(t, list);
    while i < |list|
      invariant 0 <= i <= |list|
      invariant t.Valid()
      invariant Renumbered(before, t, list[..i])
    {
      var id := list[i].id;
      RenumberStep(before, t, list, i);
      t := t.Update(id, t.vals[id].(order := Some(i + 1)));
      i := i + 1;
    }
    assert list[..i] == list;
    db.jobs := t;
  }

  lemma RenumberedNothing(t: Table<Job>, list: seq<Row<Job>>)
    ensures Renumbered(t, t, list[..0])
  {
    assert list[..0] == [];
  }

  /** `PATCH /jobs/:id/reorder`: `fromOrder` is echoed back and plays no part. */
  method ReorderJob(db: Db, fail: bool, id: int, fromOrder: int, toOrder: int) returns (r: Response<(int, int)>)
    requires db.Valid()
    modifies db`jobs
    ensures db.Valid()
    ensures fail ==> r == Error(500, "Simulated reorder error")
    ensures !fail && Find(OrderedJobs(old(db.jobs)), RowId, id).None? ==> r == Error(404, "Job not found")
    ensures !r.Ok? ==> db.jobs == old(db.jobs)
    ensures r.Ok? <==> !fail && Find(OrderedJobs(old(db.jobs)), RowId, id).Some?
    ensures r.Ok? ==> r.body == (fromOrder, toOrder)
    ensures r.Ok? ==> Renumbered(old(db.jobs), db.jobs,
                        Reordered(OrderedJobs(old(db.jobs)), Find(OrderedJobs(old(db.jobs)), RowId, id).value, toOrder))
  {
    if fail {
      return Error(500, "Simulated reorder error");
    }
    var jobs := OrderedJobs(db.jobs);
    var found := Find(jobs, RowId, id);
    if found.None? {
      return Error(404, "Job not found");
    }
    var moving := jobs[found.value];
    var others := WithoutKey(jobs, RowId, moving.id);
    var targetIndex := TargetIndex(|others|, toOrder);
    others := InsertAt(others, targetIndex, moving);
    OrderedJobsRows(db.jobs);
    ReorderedShape(jobs, found.value, toOrder);
    forall i | 0 <= i < |others| ensures others[i].id in db.jobs.vals {
      assert others[i] in multiset(jobs);
    }
    Renumber(db, others);
    r := Ok((fromOrder, toOrder));
  }

  /** A job without an order is not in the order index, so a reorder leaves
      it as it was. */
  lemma ReorderKeepsUnordered(t: Table<Job>, at: nat, toOrder: int, k: int)
    requires t.Valid() && at < |OrderedJobs(t)|
    requires k in t.vals && t.vals[k].order.None?
    ensures forall i :: 0 <= i < |Reordered(OrderedJobs(t), at, toOrder)| ==>
              Reordered(OrderedJobs(t), at, toOrder)[i].id != k
  {
    var ordered := OrderedJobs(t);
    OrderedJobsRows(t);
    ReorderedShape(ordered, at, toOrder);
    var list := Reordered(ordered, at, toOrder);
    forall i | 0 <= i < |list| ensures list[i].id != k {
      assert list[i] in list;
    }
  }

  /** After a reorder the jobs of the order index carry the orders 1 to N,
      one each: the N positions of the new sequence are distinct jobs, and
      every job of the index holds one of them. */
  lemma ReorderNumbersJobs(t: Table<Job>, at: nat, toOrder: int)
    requires t.Valid() && at < |OrderedJobs(t)|
    ensures var list := Reordered(OrderedJobs(t), at, toOrder);
            && |list| == |OrderedJobs(t)|
            && DistinctKeys(list, RowId)
            && forall k :: k in t.vals && t.vals[k].order.Some? ==>
                 exists i :: 0 <= i < |list| && list[i].id == k
  {
    var ordered := OrderedJobs(t);
    OrderedJobsRows(t);
    ReorderedShape(ordered, at, toOrder);
    var list := Reordered(ordered, at, toOrder);
    forall k | k in t.vals && t.vals[k].order.Some? ensures exists i :: 0 <= i < |list| && list[i].id == k {
      KeyPosition(list, Row(k, t.vals[k]));
    }
  }

  /** The jobs of the order index, by key. */
  ghost predicate InIndex(t: Table<Job>, k: int)
  {
    k in t.vals && t.vals[k].order.Some?
  }

  /** Where a reorder puts each job: position `i` of the new sequence is a
      job of the order index renumbered to `i + 1`, every job of the index
      has a position, and the jobs outside the index stay. */
  lemma ReorderSlots(t: Table<Job>, u: Table<Job>, at: nat, toOrder: int)
    requires t.Valid() && at < |OrderedJobs(t)|
    requires Renumbered(t, u, Reordered(OrderedJobs(t), at, toOrder))
    ensures var list := Reordered(OrderedJobs(t), at, toOrder);
      && |list| == |OrderedJobs(t)|
      && list[TargetIndex(|list| - 1, toOrder)] == OrderedJobs(t)[at]
      && (forall i :: 0 <= i < |list| ==>
            InIndex(t, list[i].id) && list[i].id in u.vals &&
            u.vals[list[i].id] == t.vals[list[i].id].(order := Some(i + 1)))
      && (forall k :: InIndex(t, k) ==> exists i :: 0 <= i < |list| && list[i].id == k)
      && (forall k :: k in t.vals && !InIndex(t, k) ==> k in u.vals && u.vals[k] == t.vals[k])
  {
    var ordered := OrderedJobs(t);
    var list := Reordered(ordered, at, toOrder);
    OrderedJobsRows(t);
    ReorderedShape(ordered, at, toOrder);
    ReorderNumbersJobs(t, at, toOrder);
    forall i | 0 <= i < |list| ensures InIndex(t, list[i].id) {
      assert list[i] in list;
    }
    forall k | k in t.vals && !InIndex(t, k) ensures k in u.vals && u.vals[k] == t.vals[k] {
      ReorderKeepsUnordered(t, at, toOrder, k);
    }
  }

  /** The table a reorder leaves: each job of the order index holds one of
      the orders 1 to N, and the moving job holds its clamped target
      position plus one; the jobs outside the index, and every field but
      `order`, stay as they were. */
  lemma ReorderedOrders(t: Table<Job>, u: Table<Job>, at: nat, toOrder: int)
    requires t.Valid() && at < |OrderedJobs(t)|
    requires Renumbered(t, u, Reordered(OrderedJobs(t), at, toOrder))
    ensures forall k :: k in u.vals <==> k in t.vals
    ensures forall k :: k in t.vals ==> u.vals[k] == t.vals[k].(order := u.vals[k].order)
    ensures forall k :: InIndex(t, k) ==>
              u.vals[k].order.Some? && 1 <= u.vals[k].order.value <= |OrderedJobs(t)|
    ensures u.vals[OrderedJobs(t)[at].id].order == Some(TargetIndex(|OrderedJobs(t)| - 1, toOrder) + 1)
    ensures forall k :: k in t.vals && t.vals[k].order.None? ==> u.vals[k] == t.vals[k]
  {
    var list := Reordered(OrderedJobs(t), at, toOrder);
    ReorderSlots(t, u, at, toOrder);
    forall k | InIndex(t, k)
      ensures u.vals[k] == t.vals[k].(order := u.vals[k].order)
      ensures u.vals[k].order.Some? && 1 <= u.vals[k].order.value <= |list|
    {
      var i :| 0 <= i < |list| && list[i].id == k;
    }
  }

  /** After a reorder the orders 1 to N are held one each by the jobs of the
      order index: no two hold the same order, and every order is held. */
  lemma ReorderedOrdersOneEach(t: Table<Job>, u: Table<Job>, at: nat, toOrder: int)
    requires t.Valid() && at < |OrderedJobs(t)|
    requires Renumbered(t, u, Reordered(OrderedJobs(t), at, toOrder))
    ensures forall k1, k2 :: InIndex(t, k1) && InIndex(t, k2) && k1 != k2 ==>
              u.vals[k1].order != u.vals[k2].order
    ensures forall n :: 1 <= n <= |OrderedJobs(t)| ==> exists k :: InIndex(t, k) && u.vals[k].order == Some(n)
  {
    var list := Reordered(OrderedJobs(t), at, toOrder);
    ReorderSlots(t, u, at, toOrder);
    forall k1, k2 | InIndex(t, k1) && InIndex(t, k2) && k1 != k2
      ensures u.vals[k1].order != u.vals[k2].order
    {
      var i1 :| 0 <= i1 < |list| && list[i1].id == k1;
      var i2 :| 0 <= i2 < |list| && list[i2].id == k2;
    }
    forall n | 1 <= n <= |list| ensures exists k :: InIndex(t, k) && u.vals[k].order == Some(n) {
      assert InIndex(t, list[n - 1].id);
    }
  }

  /** A row of a sequence sits at some position. */
  lemma KeyPosition(list: seq<Row<Job>>, x: Row<Job>)
    requires x in list
    ensures exists i :: 0 <= i < |list| && list[i].id == x.id
  {
    var i :| 0 <= i < |list| && list[i] == x;
  }
}
