/**
 * The job modal (src/components/jobs/JobModal.jsx): a form over a title, a
 * status and a comma-separated tag line, filled from the job it is opened
 * with and turned into one payload for the page on save.
 */
module JobModal {
  import opened Wrappers
  import opened Text
  import opened Slug
  import opened Lists
  import opened Store
  import opened Database

  /** The three inputs of the form. */
  datatype Fields = Fields(title: string, status: string, tags: string)

  /** What "Save" hands to the page: the job's key when it was opened on a
      stored job, and the job. Fields a new job's payload lacks are the
      empty description, no requirements and no order. */
  datatype JobPayload = JobPayload(id: Option<int>, job: Job)

  /** The effect run when the `job` prop changes: the title, the status or
      "draft" when it is empty, and the tags joined by ", ". */
  function FormOf(job: Option<Row<Job>>): Fields
  {
    match job
    case None => Fields("", "draft", "")
    case Some(row) =>
      Fields(row.val.title, if row.val.status != "" then row.val.status else "draft", Join(row.val.tags, ", "))
  }

  /** A tag as a save leaves it: not empty, no white space at either end,
      no comma. */
  predicate PlainTag(t: string)
  {
    t != "" && IsTrimmed(t) && ',' !in t
  }

  /** `tags.split(",").map(t => t.trim()).filter(Boolean)`. */
  function Tags(line: string): (r: seq<string>)
    ensures forall k :: 0 <= k < |r| ==> PlainTag(r[k])
    ensures AllSpace(line) ==> r == []
  {
    ReadTags(line);
    Filter(TrimAll(Split(line, ',')), NonEmpty())
  }

  lemma ReadTags(line: string)
    ensures var r := Filter(TrimAll(Split(line, ',')), NonEmpty());
            && (forall k :: 0 <= k < |r| ==> PlainTag(r[k]))
            && (AllSpace(line) ==> r == [])
  {
    var pieces := Split(line, ',');
    PlainPieces(pieces);
    if AllSpace(line) {
      BlankPieces(line);
    }
  }

  /** Pieces without a comma, trimmed and with the empty ones dropped, are
      plain tags. */
  lemma PlainPieces(pieces: seq<string>)
    requires forall j :: 0 <= j < |pieces| ==> ',' !in pieces[j]
    ensures var r := Filter(TrimAll(pieces), NonEmpty());
            forall k :: 0 <= k < |r| ==> PlainTag(r[k])
  {
    var trimmed := TrimAll(pieces);
    var r := Filter(trimmed, NonEmpty());
    FilterIn(trimmed, NonEmpty());
    forall k | 0 <= k < |r| ensures PlainTag(r[k]) {
      assert r[k] in trimmed;
      var j :| 0 <= j < |trimmed| && trimmed[j] == r[k];
      TrimmedPiece(pieces[j]);
    }
  }

  /** A blank line gives no tags. */
  lemma BlankPieces(line: string)
    requires AllSpace(line)
    ensures Filter(TrimAll(Split(line, ',')), NonEmpty()) == []
  {
    var pieces := Split(line, ',');
    var trimmed := TrimAll(pieces);
    forall j | 0 <= j < |trimmed| ensures trimmed[j] == "" {
      AllSpaceSplit(line, j);
      TrimEmptyIff(pieces[j]);
    }
    FilterNone(trimmed, NonEmpty());
  }

  /** Trimming a piece without a comma leaves a trimmed piece without one. */
  lemma TrimmedPiece(p: string)
    requires ',' !in p
    ensures IsTrimmed(Trim(p)) && ',' !in Trim(p)
  {
    TrimSpec(p);
    var t := TrimStart(p);
    TrimStartSpec(p);
    assert forall c :: c in t ==> c in p by {
      assert t == p[|p| - |t|..];
    }
    var r := TrimEnd(t);
    TrimEndSpec(t);
    assert forall c :: c in r ==> c in t by {
      assert r == t[..|r|];
    }
  }

  /** The pieces of a blank line are blank. */
  lemma {:induction false} AllSpaceSplit(line: string, j: nat)
    requires AllSpace(line) && j < |Split(line, ',')|
    ensures AllSpace(Split(line, ',')[j])
  {
    if line != [] {
      assert AllSpace(line[1..]) by {
        forall i | 0 <= i < |line[1..]| ensures IsSpace(line[1..][i]) {
          assert line[1..][i] == line[i + 1];
        }
      }
      var rest := Split(line[1..], ',');
      assert line[0] != ',';
      if j == 0 {
        AllSpaceSplit(line[1..], 0);
        assert Split(line, ',')[0] == [line[0]] + rest[0];
      } else {
        AllSpaceSplit(line[1..], j);
        assert Split(line, ',')[j] == rest[j];
      }
    }
  }

  /** `handleSave`: a blank title is refused ("Title is required");
      otherwise the job opened with, or a new one, takes the title as typed,
      the slug of the trimmed title, the status and the tags read from the
      tag line. */
  function Save(f: Fields, job: Option<Row<Job>>): (r: Option<JobPayload>)
    ensures r.None? <==> AllSpace(f.title)
    ensures r.Some? ==> r.value.id == (if job.Some? then Some(job.value.id) else None)
    ensures r.Some? ==>
              && r.value.job.title == f.title
              && r.value.job.status == f.status
              && r.value.job.tags == Tags(f.tags)
              && r.value.job.slug == DashSlug(Trim(f.title))
    ensures r.Some? && job.Some? ==>
              && r.value.job.order == job.value.val.order
              && r.value.job.description == job.value.val.description
              && r.value.job.requirements == job.value.val.requirements
    ensures r.Some? && job.None? ==>
              r.value.job.order.None? && r.value.job.description == "" && r.value.job.requirements == []
  {
    TrimEmptyIff(f.title);
    if Trim(f.title) == "" then None
    else
      var base := if job.Some? then job.value.val else Job("", "", "", [], None, "", []);
      var id := if job.Some? then Some(job.value.id) else None;
      Some(JobPayload(id, base.(title := f.title, slug := DashSlug(Trim(f.title)), status := f.status, tags := Tags(f.tags))))
  }

  /** A saved slug holds no white space. */
  lemma SavedSlugHasNoSpace(f: Fields, job: Option<Row<Job>>)
    requires Save(f, job).Some?
    ensures var s := Save(f, job).value.job.slug;
            forall i :: 0 <= i < |s| ==> !IsSpace(s[i])
  {
    DashSlugNoSpace(Trim(f.title));
  }

  /** The tags as `join(", ")` shows them are the tags joined by "," with a
      space in front of every tag after the first. */
  function Spaced(tags: seq<string>): (r: seq<string>)
    ensures |r| == |tags|
  {
    seq(|tags|, k requires 0 <= k < |tags| => if k == 0 then tags[0] else " " + tags[k])
  }

  lemma JoinPrefixHead(p: string, x: string, rest: seq<string>, sep: string)
    ensures Join([p + x] + rest, sep) == p + Join([x] + rest, sep)
  {
    assert ([p + x] + rest)[1..] == rest;
    assert ([x] + rest)[1..] == rest;
  }

  lemma {:induction false} JoinSpaced(tags: seq<string>)
    ensures Join(tags, ", ") == Join(Spaced(tags), ",")
  {
    if |tags| >= 2 {
      JoinSpaced(tags[1..]);
      var s := Spaced(tags);
      var t := Spaced(tags[1..]);
      assert s[1..] == [" " + tags[1]] + t[1..];
      assert t == [tags[1]] + t[1..];
      JoinPrefixHead(" ", tags[1], t[1..], ",");
    }
  }

  lemma TrimSpaceFront(t: string)
    requires t != [] && IsTrimmed(t)
    ensures Trim(" " + t) == t
  {
    assert (" " + t)[1..] == t;
    TrimFixed(t);
  }

  /** Opening the modal on a job whose tags a save could have made and
      saving gives the tags back. */
  lemma TagsRoundTrip(tags: seq<string>)
    requires forall k :: 0 <= k < |tags| ==> PlainTag(tags[k])
    ensures Tags(Join(tags, ", ")) == tags
  {
    if tags == [] {
      assert Split("", ',') == [""];
      assert TrimAll([""]) == [""];
      assert Filter([""], NonEmpty()) == [];
    } else {
      JoinSpaced(tags);
      SplitSpaced(tags);
      TrimSpaced(tags);
      FilterAll(tags, NonEmpty());
    }
  }

  lemma SplitSpaced(tags: seq<string>)
    requires tags != [] && forall k :: 0 <= k < |tags| ==> PlainTag(tags[k])
    ensures Split(Join(Spaced(tags), ","), ',') == Spaced(tags)
  {
    var s := Spaced(tags);
    forall k | 0 <= k < |s| ensures ',' !in s[k] {
      if k > 0 {
        assert s[k] == " " + tags[k];
      }
    }
    assert [','] == ",";
    SplitJoin(s, ',');
  }

  lemma TrimSpaced(tags: seq<string>)
    requires forall k :: 0 <= k < |tags| ==> PlainTag(tags[k])
    ensures TrimAll(Spaced(tags)) == tags
  {
    var s := Spaced(tags);
    var trimmed := TrimAll(s);
    forall k | 0 <= k < |s| ensures trimmed[k] == tags[k] {
      if k == 0 {
        TrimFixed(tags[0]);
      } else {
        assert s[k] == " " + tags[k];
        TrimSpaceFront(tags[k]);
      }
    }
  }

  /** Opening the modal on a stored job with a title, a status and plain
      tags, and saving without an edit, hands the job back with only its
      slug recomputed from the title. */
  lemma ReopenedJob(row: Row<Job>)
    requires !AllSpace(row.val.title) && row.val.status != ""
    requires forall k :: 0 <= k < |row.val.tags| ==> PlainTag(row.val.tags[k])
    ensures Save(FormOf(Some(row)), Some(row)) ==
              Some(JobPayload(Some(row.id), row.val.(slug := DashSlug(Trim(row.val.title)))))
  {
    TagsRoundTrip(row.val.tags);
  }

  /** Saving the form of a payload again gives the same payload: a save is
      a fixed point of opening and saving. */
  lemma SaveIdempotent(f: Fields, row: Row<Job>)
    requires f.status != ""
    requires Save(f, Some(row)).Some?
    ensures var p := Save(f, Some(row)).value;
            Save(FormOf(Some(Row(row.id, p.job))), Some(Row(row.id, p.job))) == Some(p)
  {
    var p := Save(f, Some(row)).value;
    ReopenedJob(Row(row.id, p.job));
  }
}
