/**
 * The create-job page (src/components/jobs/CreateJob.jsx): a form with a
 * title, a description, a status and a list of requirement rows that is
 * checked in order and then added straight to the browser database.
 */
module CreateJob {
  import opened Wrappers
  import opened Text
  import opened Slug
  import opened Lists
  import opened Store
  import opened Database
  import MockJobs

  /** Why a save is refused, with the message the page shows. */
  datatype JobFault = TitleRequired | DescriptionTooShort | NeedsRequirement | TitleTaken
  {
    function Message(): string
    {
      match this
      case TitleRequired => "Title is required"
      case DescriptionTooShort => "Description must be at least 10 characters"
      case NeedsRequirement => "At least one requirement is needed"
      case TitleTaken => "Job with this title already exists!"
    }
  }

  datatype SaveResult = Refused(fault: JobFault) | Saved(id: int)

  /** The three form checks of `handleSave`, in order; the description's
      length is JavaScript's `length`, in UTF-16 code units. */
  function FormFault(title: string, description: string, requirements: seq<string>): Option<JobFault>
  {
    if Trim(title) == "" then Some(TitleRequired)
    else if Utf16Length(Trim(description)) < 10 then Some(DescriptionTooShort)
    else if forall i :: 0 <= i < |requirements| ==> Trim(requirements[i]) == "" then Some(NeedsRequirement)
    else None
  }

  /** The checks pass exactly when the title is not blank, the description
      holds at least ten UTF-16 code units between its first and last
      non-blank characters, and some requirement is not blank. */
  lemma FormFaultNoneIff(title: string, description: string, requirements: seq<string>)
    ensures FormFault(title, description, requirements).None? <==>
              && !AllSpace(title)
              && Utf16Length(Trim(description)) >= 10
              && exists i :: 0 <= i < |requirements| && !AllSpace(requirements[i])
  {
    TrimEmptyIff(title);
    forall i | 0 <= i < |requirements| ensures Trim(requirements[i]) == "" <==> AllSpace(requirements[i]) {
      TrimEmptyIff(requirements[i]);
    }
  }

  /** Five rockets (U+1F680) are ten code units, so the page accepts them
      as a description, while ten ordinary characters less one do not. */
  lemma AstralDescription()
    ensures FormFault("Dev", "\U{1F680}\U{1F680}\U{1F680}\U{1F680}\U{1F680}", ["x"]).None?
    ensures FormFault("Dev", "abcdefghi", ["x"]) == Some(DescriptionTooShort)
  {
    var rockets := "\U{1F680}\U{1F680}\U{1F680}\U{1F680}\U{1F680}";
    assert Trim(rockets) == rockets by {
      TrimFixed(rockets);
    }
    assert Utf16Length(rockets) == 10 by {
      assert Utf16Length(rockets[4..]) == 2;
      assert Utf16Length(rockets[3..]) == 4 by { assert rockets[3..][1..] == rockets[4..]; }
      assert Utf16Length(rockets[2..]) == 6 by { assert rockets[2..][1..] == rockets[3..]; }
      assert Utf16Length(rockets[1..]) == 8 by { assert rockets[1..][1..] == rockets[2..]; }
    }
    assert Trim("x") != "";
    var reqs := ["x"];
    assert reqs[0] == "x";
    assert !(forall i :: 0 <= i < |reqs| ==> Trim(reqs[i]) == "");
    assert Utf16Length(Trim(rockets)) >= 10;
    assert Trim("Dev") != "";
    assert Trim("abcdefghi") == "abcdefghi" by {
      TrimFixed("abcdefghi");
    }
    assert Trim("Dev") == "Dev" by {
      TrimFixed("Dev");
    }
    assert Trim("x") == "x" by {
      TrimFixed("x");
    }
  }

  /** The job the page adds: no tags, no order, and the requirement rows
      that are not empty (`requirements.map(r => r.value).filter(Boolean)`). */
  function NewJob(title: string, description: string, status: string, requirements: seq<string>): Job
  {
    Job(title, DashSlug(title), status, [], None, description, Filter(requirements, NonEmpty()))
  }

  /** A job the checks let through keeps at least one requirement, and none
      of its requirements is empty. */
  lemma NewJobRequirements(title: string, description: string, status: string, requirements: seq<string>)
    requires FormFault(title, description, requirements).None?
    ensures var j := NewJob(title, description, status, requirements);
            j.requirements != [] && forall k :: 0 <= k < |j.requirements| ==> j.requirements[k] != ""
  {
    FormFaultNoneIff(title, description, requirements);
    var i :| 0 <= i < |requirements| && !AllSpace(requirements[i]);
    FilterIn(requirements, NonEmpty());
    assert requirements[i] != "";
    assert requirements[i] in Filter(requirements, NonEmpty());
    var f := Filter(requirements, NonEmpty());
    forall k | 0 <= k < |f| ensures f[k] != "" {
      assert f[k] in f;
    }
  }

  /** A job added after the slug look-up found nothing is the only job
      with its slug. */
  lemma AddedSlugUnique(t: Table<Job>, j: Job)
    requires t.Valid() && j.slug !in MockJobs.Slugs(t)
    ensures var u := t.Add(j);
            forall k :: k in u.vals && u.vals[k].slug == j.slug ==> k == t.next
  {
  }

  /** The page's form state. */
  class JobForm {
    var title: string
    var description: string
    var status: string
    var requirements: seq<string>

    /** The form always shows at least one requirement row. */
    predicate Valid()
      reads this
    {
      |requirements| >= 1
    }

    constructor()
      ensures Valid()
      ensures title == "" && description == "" && status == "Active" && requirements == [""]
    {
      title := "";
      description := "";
      status := "Active";
      requirements := [""];
    }

    method AddRequirement()
      requires Valid()
      modifies this`requirements
      ensures Valid() && requirements == old(requirements) + [""]
    {
      requirements := requirements + [""];
    }

    /** Removes row `index`, unless it is the only row left. */
    method RemoveRequirement(index: nat)
      requires Valid()
      modifies this`requirements
      ensures Valid()
      ensures |old(requirements)| > 1 && index < |old(requirements)| ==> requirements == RemoveAt(old(requirements), index)
      ensures |old(requirements)| <= 1 || index >= |old(requirements)| ==> requirements == old(requirements)
    {
      if |requirements| > 1 && index < |requirements| {
        requirements := RemoveAt(requirements, index);
      }
    }

    method UpdateRequirement(index: nat, value: string)
      requires Valid() && index < |requirements|
      modifies this`requirements
      ensures Valid() && requirements == old(requirements)[index := value]
    {
      requirements := requirements[index := value];
    }

    /** `handleSave`: the form checks, then the look-up of a stored job
        with the same slug, then the add. */
    method HandleSave(db: Db) returns (r: SaveResult)
      requires db.Valid() && Valid()
      modifies db`jobs
      ensures db.Valid()
      ensures FormFault(title, description, requirements).Some? ==>
                r == Refused(FormFault(title, description, requirements).value)
      ensures FormFault(title, description, requirements).None? && DashSlug(title) in MockJobs.Slugs(old(db.jobs)) ==>
                r == Refused(TitleTaken)
      ensures r.Saved? <==> FormFault(title, description, requirements).None? && DashSlug(title) !in MockJobs.Slugs(old(db.jobs))
      ensures r.Refused? ==> db.jobs == old(db.jobs)
      ensures r.Saved? ==>
                && r.id == old(db.jobs.next)
                && db.jobs == old(db.jobs).Add(NewJob(title, description, status, requirements))
    {
      var fault := FormFault(title, description, requirements);
      if fault.Some? {
        return Refused(fault.value);
      }
      if DashSlug(title) in MockJobs.Slugs(db.jobs) {
        return Refused(TitleTaken);
      }
      r := Saved(db.jobs.next);
      db.jobs := db.jobs.Add(NewJob(title, description, status, requirements));
    }
  }
}
