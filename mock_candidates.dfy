/**
 * The candidate, timeline and note routes of the mock backend
 * (src/mock/handlers.js). `Date.now()` is the parameter `now` and the
 * injected failure is the parameter `fail`.
 */
module MockCandidates {
  import opened Wrappers
  import opened Text
  import opened Lists
  import opened Store
  import opened Database
  import opened Http
  import opened Js

  // ------------------------------------------------------------ listing

  /** The search of `GET /candidates`, already lower-cased. */
  predicate CandidateMatches(c: Candidate, search: string)
  {
    Contains(Lower(c.name), search) || Contains(Lower(c.email), search)
  }

  /** The stage filter is off for an empty stage and for `all`. */
  predicate StageFilterOn(stage: string)
  {
    stage != "" && stage != "all"
  }

  function MatchingCandidates(rows: seq<Row<Candidate>>, search: string, stage: string): seq<Row<Candidate>>
  {
    var bySearch := if search != "" then Filter(rows, (r: Row<Candidate>) => CandidateMatches(r.val, search)) else rows;
    if StageFilterOn(stage) then Filter(bySearch, (r: Row<Candidate>) => Lower(r.val.stage) == stage) else bySearch
  }

  /** A candidate is listed exactly when it matches the search and, when the
      filter is on, its stage equals the requested one whatever the case. */
  lemma MatchingCandidatesIff(rows: seq<Row<Candidate>>, search: string, stage: string)
    ensures forall r :: r in MatchingCandidates(rows, search, stage) <==>
              && r in rows
              && CandidateMatches(r.val, search)
              && (StageFilterOn(stage) ==> Lower(r.val.stage) == stage)
  {
    var bySearch := if search != "" then Filter(rows, (r: Row<Candidate>) => CandidateMatches(r.val, search)) else rows;
    FilterIn(rows, (r: Row<Candidate>) => CandidateMatches(r.val, search));
    FilterIn(bySearch, (r: Row<Candidate>) => Lower(r.val.stage) == stage);
    forall r: Row<Candidate> ensures CandidateMatches(r.val, "") {
      assert IsPrefix("", Lower(r.val.name));
    }
  }

  /** `GET /candidates`: filter, keep store order, cut out the page. */
  method ListCandidates(db: Db, search: string, stage: string, page: Option<int>, pageSize: Option<int>)
    returns (r: Listing<Row<Candidate>>)
    requires db.Valid()
    ensures r.page == page.GetOr(1) && r.pageSize == pageSize.GetOr(25)
    ensures r.total == |MatchingCandidates(db.candidates.Rows(), Lower(search), Lower(stage))|
    ensures r.items == Page(MatchingCandidates(db.candidates.Rows(), Lower(search), Lower(stage)), r.page, r.pageSize)
    ensures forall x :: x in r.items ==> x in db.candidates.Rows() && CandidateMatches(x.val, Lower(search))
    ensures forall x :: x in r.items && StageFilterOn(Lower(stage)) ==> Lower(x.val.stage) == Lower(stage)
  {
    var s, st := Lower(search), Lower(stage);
    var collection := db.candidates.Rows();
    if s != "" {
      collection := Filter(collection, (r: Row<Candidate>) => CandidateMatches(r.val, s));
    }
    if st != "" && st != "all" {
      collection := Filter(collection, (r: Row<Candidate>) => Lower(r.val.stage) == st);
    }
    var total := |collection|;
    var p, k := page.GetOr(1), pageSize.GetOr(25);
    r := Listing(total, p, k, Page(collection, p, k));
    MatchingCandidatesIff(db.candidates.Rows(), s, st);
    SliceIn(collection, (p - 1) * k, (p - 1) * k + k);
  }

  // ------------------------------------------------------------- create

  datatype CandidateBody = CandidateBody(name: Option<string>, email: Option<string>, jobId: Option<int>, stage: Option<string>)

  /** `body.jobId || null`: a missing or zero job id is stored as `null`. */
  function JobIdOrNull(jobId: Option<int>): (r: Option<int>)
    ensures r.Some? <==> TruthyNumber(jobId)
    ensures r.Some? ==> r == jobId
  {
    if TruthyNumber(jobId) then jobId else None
  }

  /** `POST /candidates`: stores the candidate and a first timeline entry. */
  method CreateCandidate(db: Db, fail: bool, now: int, body: CandidateBody) returns (r: Response<Row<Candidate>>)
    requires db.Valid()
    modifies db`candidates, db`timelines
    ensures db.Valid()
    ensures fail ==> r == Error(500, "Simulated create candidate error")
    ensures !fail && (!Truthy(body.name) || !Truthy(body.email)) ==> r == Error(400, "Name and email required")
    ensures r.Created? <==> !fail && Truthy(body.name) && Truthy(body.email)
    ensures !r.Created? ==> db.candidates == old(db.candidates) && db.timelines == old(db.timelines)
    ensures r.Created? ==>
      && r.body.id == old(db.candidates.next)
      && r.body.val == Candidate(body.name.value, body.email.value, JobIdOrNull(body.jobId),
                                 Lower(Or(body.stage, "applied")), "", None)
      && db.candidates == old(db.candidates).Add(r.body.val)
      && db.timelines == old(db.timelines).Add(TimelineEntry(r.body.id, now, None, r.body.val.stage, "Candidate created"))
  {
    if fail {
      return Error(500, "Simulated create candidate error");
    }
    if !Truthy(body.name) || !Truthy(body.email) {
      return Error(400, "Name and email required");
    }
    var candidate := Candidate(body.name.value, body.email.value, JobIdOrNull(body.jobId),
                               Lower(Or(body.stage, "applied")), "", None);
    var id := db.candidates.next;
    db.candidates := db.candidates.Add(candidate);
    var created := db.candidates.Get(id).value;
    db.timelines := db.timelines.Add(TimelineEntry(id, now, None, created.stage, "Candidate created"));
    r := Created(Row(id, created));
  }

  // -------------------------------------------------------------- patch

  /** The fields of a `PATCH /candidates/:id` body; `jobId` is `None` when
      the field is missing and `Some(None)` when it is `null`. */
  datatype CandidatePatch = CandidatePatch(stage: Option<string>, note: Option<string>, jobId: Option<Option<int>>)

  /** A stage change is logged when the body carries a non-empty stage that
      differs, character for character, from the stored one. */
  predicate StageChanges(c: Candidate, body: CandidatePatch)
  {
    Truthy(body.stage) && body.stage.value != c.stage
  }

  /** The candidate after the patch: the stage lower-cased when it changes,
      the job id when one is supplied, the rest as it was. */
  function PatchedCandidate(c: Candidate, body: CandidatePatch): (r: Candidate)
    ensures r.stage == if StageChanges(c, body) then Lower(body.stage.value) else c.stage
    ensures r.jobId == if body.jobId.Some? then body.jobId.value else c.jobId
    ensures r.name == c.name && r.email == c.email && r.phone == c.phone && r.resume == c.resume
  {
    var staged := if StageChanges(c, body) then c.(stage := Lower(body.stage.value)) else c;
    if body.jobId.Some? then staged.(jobId := body.jobId.value) else staged
  }

  /** The timeline entry a stage change writes: from the stored stage to the
      stage exactly as the body spelled it. */
  function StageEntry(id: int, now: int, c: Candidate, body: CandidatePatch): TimelineEntry
    requires Truthy(body.stage)
  {
    TimelineEntry(id, now, Some(c.stage), body.stage.value, Or(body.note, "Stage changed"))
  }

  /** The entries that belong to candidate `id`. */
  function EntryOf(id: int): Row<TimelineEntry> -> bool
  {
    (e: Row<TimelineEntry>) => e.val.candidateId == id
  }

  /** `PATCH /candidates/:id`. */
  method PatchCandidate(db: Db, fail: bool, now: int, id: int, body: CandidatePatch) returns (r: Response<Row<Candidate>>)
    requires db.Valid()
    modifies db`candidates, db`timelines
    ensures db.Valid()
    ensures fail ==> r == Error(500, "Simulated patch candidate error")
    ensures !fail && id !in old(db.candidates.vals) ==> r == Error(404, "Candidate not found")
    ensures r.Ok? <==> !fail && id in old(db.candidates.vals)
    ensures !r.Ok? ==> db.candidates == old(db.candidates) && db.timelines == old(db.timelines)
    ensures r.Ok? ==>
      var c := old(db.candidates.vals[id]);
      && r.body == Row(id, PatchedCandidate(c, body))
      && db.candidates == old(db.candidates).Update(id, PatchedCandidate(c, body))
      && db.candidates.Get(id) == Some(PatchedCandidate(c, body))
      && (forall k :: k != id ==> db.candidates.Get(k) == old(db.candidates.Get(k)))
      && db.timelines == if StageChanges(c, body) then old(db.timelines).Add(StageEntry(id, now, c, body))
                         else old(db.timelines)
  {
    if fail {
      return Error(500, "Simulated patch candidate error");
    }
    var found := db.candidates.Get(id);
    if found.None? {
      return Error(404, "Candidate not found");
    }
    var candidate := found.value;
    var updates := candidate;
    var changed := false;
    if Truthy(body.stage) && body.stage.value != candidate.stage {
      updates := updates.(stage := Lower(body.stage.value));
      changed := true;
      db.timelines := db.timelines.Add(TimelineEntry(id, now, Some(candidate.stage), body.stage.value,
                                                     Or(body.note, "Stage changed")));
    }
    if body.jobId.Some? {
      updates := updates.(jobId := body.jobId.value);
      changed := true;
    }
    if changed {
      db.candidates := db.candidates.Update(id, updates);
    } else {
      // the record is as stored, so writing it back would change nothing
      assert db.candidates.vals[id := updates] == db.candidates.vals;
    }
    r := Ok(Row(id, db.candidates.Get(id).value));
  }

  /** Sending the same stage patch again logs a second change exactly when
      the first one changed the stage and the stage had a capital letter: the
      stored stage is lower-cased, the comparison is not. */
  lemma RepeatedStagePatch(c: Candidate, body: CandidatePatch)
    requires Truthy(body.stage)
    ensures StageChanges(PatchedCandidate(c, body), body) <==>
              StageChanges(c, body) && exists i :: 0 <= i < |body.stage.value| && IsUpper(body.stage.value[i])
  {
    var s := body.stage.value;
    if exists i :: 0 <= i < |s| && IsUpper(s[i]) {
      var i :| 0 <= i < |s| && IsUpper(s[i]);
      assert Lower(s)[i] != s[i];
    } else {
      assert Lower(s) == s;
    }
  }

  /** A patch writes one timeline entry, for the patched candidate, when
      the stage changes, and none otherwise. */
  lemma PatchTimelineCount(t: Table<TimelineEntry>, id: int, now: int, c: Candidate, body: CandidatePatch)
    requires t.Valid()
    ensures var after := if StageChanges(c, body) then t.Add(StageEntry(id, now, c, body)) else t;
            forall k :: Count(after.Rows(), EntryOf(k))
                        == Count(t.Rows(), EntryOf(k)) + (if StageChanges(c, body) && k == id then 1 else 0)
  {
    if StageChanges(c, body) {
      var row := Row(t.next, StageEntry(id, now, c, body));
      forall k
        ensures Count(t.Add(row.val).Rows(), EntryOf(k)) == Count(t.Rows(), EntryOf(k)) + (if k == id then 1 else 0)
      {
        FilterAppend(t.Rows(), [row], EntryOf(k));
        FilterCons(row, [], EntryOf(k));
      }
    }
  }

  // ----------------------------------------------------- timeline, notes

  /** The timeline's comparator: earlier first. */
  function EarlierFirst(): (Row<TimelineEntry>, Row<TimelineEntry>) -> bool
  {
    (a: Row<TimelineEntry>, b: Row<TimelineEntry>) => a.val.timestamp <= b.val.timestamp
  }

  /** `GET /candidates/:id/timeline`: the candidate's entries, oldest first.
      A second route with the same path later in the list is never reached. */
  function Timeline(t: Table<TimelineEntry>, id: int): seq<Row<TimelineEntry>>
    requires t.Valid()
  {
    SortBy(Filter(t.Rows(), EntryOf(id)), EarlierFirst())
  }

  /** The timeline holds exactly the candidate's entries, each as often as
      stored, in ascending time. */
  lemma TimelineSpec(t: Table<TimelineEntry>, id: int)
    requires t.Valid()
    ensures SortedBy(Timeline(t, id), EarlierFirst())
    ensures multiset(Timeline(t, id)) == multiset(Filter(t.Rows(), EntryOf(id)))
    ensures forall e :: e in Timeline(t, id) <==> e in t.Rows() && e.val.candidateId == id
  {
    SortBySorted(Filter(t.Rows(), EntryOf(id)), EarlierFirst());
    FilterIn(t.Rows(), EntryOf(id));
    forall e ensures e in Timeline(t, id) <==> e in Filter(t.Rows(), EntryOf(id)) {
      assert e in Timeline(t, id) <==> e in multiset(Timeline(t, id));
    }
  }

  function NoteOf(id: int): Row<Note> -> bool
  {
    (n: Row<Note>) => n.val.candidateId == id
  }

  /** The notes' comparator: newer first. */
  function NewerFirst(): (Row<Note>, Row<Note>) -> bool
  {
    (a: Row<Note>, b: Row<Note>) => a.val.timestamp >= b.val.timestamp
  }

  /** `GET /candidates/:id/notes`: the candidate's notes, newest first. */
  function Notes(t: Table<Note>, id: int): seq<Row<Note>>
    requires t.Valid()
  {
    SortBy(Filter(t.Rows(), NoteOf(id)), NewerFirst())
  }

  lemma NotesSpec(t: Table<Note>, id: int)
    requires t.Valid()
    ensures SortedBy(Notes(t, id), NewerFirst())
    ensures forall i, j :: 0 <= i < j < |Notes(t, id)| ==> Notes(t, id)[i].val.timestamp >= Notes(t, id)[j].val.timestamp
    ensures forall n :: n in Notes(t, id) <==> n in t.Rows() && n.val.candidateId == id
  {
    SortBySorted(Filter(t.Rows(), NoteOf(id)), NewerFirst());
    FilterIn(t.Rows(), NoteOf(id));
    forall n ensures n in Notes(t, id) <==> n in Filter(t.Rows(), NoteOf(id)) {
      assert n in Notes(t, id) <==> n in multiset(Notes(t, id));
    }
  }

  datatype NoteBody = NoteBody(text: Option<string>, mentions: Option<seq<string>>)

  /** `POST /candidates/:id/notes`. */
  method AddNote(db: Db, fail: bool, now: int, candidateId: int, body: NoteBody) returns (r: Response<Row<Note>>)
    requires db.Valid()
    modifies db`notes
    ensures db.Valid()
    ensures fail ==> r == Error(500, "Simulated add note error")
    ensures !fail && !Truthy(body.text) ==> r == Error(400, "Note text required")
    ensures r.Created? <==> !fail && Truthy(body.text)
    ensures !r.Created? ==> db.notes == old(db.notes)
    ensures r.Created? ==>
      && r.body == Row(old(db.notes.next), Note(candidateId, body.text.value, body.mentions.GetOr([]), now))
      && db.notes == old(db.notes).Add(r.body.val)
  {
    if fail {
      return Error(500, "Simulated add note error");
    }
    if !Truthy(body.text) {
      return Error(400, "Note text required");
    }
    var note := Note(candidateId, body.text.value, body.mentions.GetOr([]), now);
    var id := db.notes.next;
    db.notes := db.notes.Add(note);
    r := Created(Row(id, db.notes.Get(id).value));
  }

  /** A new note is listed among its candidate's notes. */
  lemma AddedNoteListed(t: Table<Note>, n: Note)
    requires t.Valid()
    ensures Row(t.next, n) in Notes(t.Add(n), n.candidateId)
  {
    NotesSpec(t.Add(n), n.candidateId);
  }

  /** A new note stamped later than every stored note of its candidate
      shows at the head of that candidate's notes. */
  lemma AddedNoteFirst(t: Table<Note>, n: Note)
    requires t.Valid()
    requires forall r :: r in t.Rows() && r.val.candidateId == n.candidateId ==> r.val.timestamp < n.timestamp
    ensures |Notes(t.Add(n), n.candidateId)| > 0
    ensures Notes(t.Add(n), n.candidateId)[0] == Row(t.next, n)
  {
    var l := Notes(t.Add(n), n.candidateId);
    NotesSpec(t.Add(n), n.candidateId);
    assert Row(t.next, n) in l;
    var k :| 0 <= k < |l| && l[k] == Row(t.next, n);
    assert l[0] in t.Rows() + [Row(t.next, n)];
    assert l[0].val.timestamp >= n.timestamp;
  }

  /** The fields of a note a `PATCH /notes/:id` body may carry. */
  datatype NotePatch = NotePatch(
    candidateId: Option<int>,
    text: Option<string>,
    mentions: Option<seq<string>>,
    timestamp: Option<int>)

  /** `db.notes.update(id, body)`: each field the body carries replaces the
      note's, the others stay. */
  function PatchedNote(n: Note, p: NotePatch): (r: Note)
    ensures r.candidateId == p.candidateId.GetOr(n.candidateId)
    ensures r.text == p.text.GetOr(n.text)
    ensures r.mentions == p.mentions.GetOr(n.mentions)
    ensures r.timestamp == p.timestamp.GetOr(n.timestamp)
  {
    Note(p.candidateId.GetOr(n.candidateId), p.text.GetOr(n.text),
         p.mentions.GetOr(n.mentions), p.timestamp.GetOr(n.timestamp))
  }

  /** After a patch the note is listed under the candidate it now belongs
      to, and no longer under the one it left. */
  lemma PatchedNoteListed(t: Table<Note>, id: int, p: NotePatch)
    requires t.Valid() && id in t.vals
    ensures var m := PatchedNote(t.vals[id], p);
      && Row(id, m) in Notes(t.Update(id, m), m.candidateId)
      && (m.candidateId != t.vals[id].candidateId ==>
            forall r :: r in Notes(t.Update(id, m), t.vals[id].candidateId) ==> r.id != id)
  {
    var m := PatchedNote(t.vals[id], p);
    var u := t.Update(id, m);
    NotesSpec(u, m.candidateId);
    NotesSpec(u, t.vals[id].candidateId);
    assert id in t.ids;
    var i :| 0 <= i < |t.ids| && t.ids[i] == id;
    assert u.Rows()[i] == Row(id, m);
    forall r | r in u.Rows() && r.id == id ensures r.val == m {
      assert u.Get(id) == Some(m);
    }
  }

  /** `PATCH /notes/:id`: no failure injection and no check; an unknown id
      changes nothing and answers an empty body. */
  method PatchNote(db: Db, id: int, body: NotePatch) returns (r: Option<Row<Note>>)
    requires db.Valid()
    modifies db`notes
    ensures db.Valid()
    ensures id !in old(db.notes.vals) ==> r == None && db.notes == old(db.notes)
    ensures id in old(db.notes.vals) ==>
      var m := PatchedNote(old(db.notes.vals[id]), body);
      && r == Some(Row(id, m))
      && db.notes == old(db.notes).Update(id, m)
  {
    var found := db.notes.Get(id);
    if found.Some? {
      var n := found.value;
      db.notes := db.notes.Update(id, Note(body.candidateId.GetOr(n.candidateId), body.text.GetOr(n.text),
                                           body.mentions.GetOr(n.mentions), body.timestamp.GetOr(n.timestamp)));
    }
    var updated := db.notes.Get(id);
    r := if updated.Some? then Some(Row(id, updated.value)) else None;
  }
}
