/**
 * The create-candidate page (src/components/candidate/CreateCandidate.jsx):
 * a form with a name, an email, a phone number, a stage picked from the
 * six pipeline stages and an optional résumé file, added straight to the
 * browser database. Only the file's name is stored.
 */
module CreateCandidate {
  import opened Wrappers
  import opened Text
  import opened Store
  import opened Database
  import CandidateStages

  /** Why a save is refused, with the message the page shows. */
  datatype CandidateFault = NameRequired | EmailRequired
  {
    function Message(): string
    {
      match this
      case NameRequired => "Name is required"
      case EmailRequired => "Email is required"
    }
  }

  datatype CreateResult = Refused(fault: CandidateFault) | Created(id: int)

  /** The two checks of `handleSave`, in order. */
  function FormFault(name: string, email: string): Option<CandidateFault>
  {
    if Trim(name) == "" then Some(NameRequired)
    else if Trim(email) == "" then Some(EmailRequired)
    else None
  }

  /** The name is checked first: a blank name is refused for the name, a
      blank email under a filled-in name for the email, and a form with
      both filled in passes. */
  lemma FormFaultSpec(name: string, email: string)
    ensures FormFault(name, email).None? <==> !AllSpace(name) && !AllSpace(email)
    ensures FormFault(name, email) == Some(NameRequired) <==> AllSpace(name)
    ensures FormFault(name, email) == Some(EmailRequired) <==> !AllSpace(name) && AllSpace(email)
  {
    TrimEmptyIff(name);
    TrimEmptyIff(email);
  }

  /** The record the page adds: the inputs as typed, no job, and the file
      name of the résumé when one was picked. */
  function NewCandidate(name: string, email: string, phone: string, stage: string, resume: Option<string>): Candidate
  {
    Candidate(name, email, None, stage, phone, resume)
  }

  /** What a save does to the candidates table. */
  function Create(t: Table<Candidate>, name: string, email: string, phone: string, stage: string, resume: Option<string>)
    : (Table<Candidate>, CreateResult)
    requires t.Valid()
  {
    var fault := FormFault(name, email);
    if fault.Some? then (t, Refused(fault.value))
    else (t.Add(NewCandidate(name, email, phone, stage, resume)), Created(t.next))
  }

  /** A save is refused, with the first failing check and nothing stored,
      exactly when the name or the email is blank; otherwise the inputs are
      stored under the next key, which is returned, and every other
      candidate stays as it was. */
  lemma CreateSpec(t: Table<Candidate>, name: string, email: string, phone: string, stage: string, resume: Option<string>)
    requires t.Valid()
    ensures var (u, r) := Create(t, name, email, phone, stage, resume);
            && u.Valid()
            && (r.Refused? ==> u == t && Some(r.fault) == FormFault(name, email))
            && (r.Created? <==> !AllSpace(name) && !AllSpace(email))
            && (r.Created? ==> r.id == t.next && u.Get(r.id) == Some(Candidate(name, email, None, stage, phone, resume)))
            && (r.Created? ==> forall k :: k != r.id ==> u.Get(k) == t.Get(k))
            && (r.Created? ==> u.Rows() == t.Rows() + [Row(t.next, Candidate(name, email, None, stage, phone, resume))])
  {
    FormFaultSpec(name, email);
  }

  /** The page's form state; `resume` is the name of the picked file. */
  class CandidateForm {
    var name: string
    var email: string
    var phone: string
    var stage: string
    var resume: Option<string>

    /** The stage is always one the select offers. */
    predicate Valid()
      reads this
    {
      stage in CandidateStages.Stages
    }

    constructor()
      ensures Valid()
      ensures name == "" && email == "" && phone == "" && stage == "applied" && resume.None?
    {
      name := "";
      email := "";
      phone := "";
      stage := "applied";
      resume := None;
    }

    /** The stage select, which offers only the pipeline stages. */
    method SetStage(value: string)
      requires value in CandidateStages.Stages
      modifies this`stage
      ensures Valid() && stage == value
    {
      stage := value;
    }

    /** The file input: the name of the first picked file, if any. */
    method SetResume(fileName: Option<string>)
      modifies this`resume
      ensures resume == fileName
    {
      resume := fileName;
    }

    /** `handleSave`: the checks, then the add; the new key is the one the
        page navigates to. */
    method HandleSave(db: Db) returns (r: CreateResult)
      requires db.Valid() && Valid()
      modifies db`candidates
      ensures db.Valid()
      ensures (db.candidates, r) == Create(old(db.candidates), name, email, phone, stage, resume)
    {
      CreateSpec(db.candidates, name, email, phone, stage, resume);
      var (u, res) := Create(db.candidates, name, email, phone, stage, resume);
      db.candidates := u;
      r := res;
    }
  }

  /** A candidate the page creates keeps every other stored candidate and
      the one new row holds the inputs; a second save adds a second row. */
  lemma CreateTwice(t: Table<Candidate>, c: Candidate)
    requires t.Valid()
    ensures var u := t.Add(c).Add(c);
            && u.Get(t.next) == Some(c) && u.Get(t.next + 1) == Some(c)
            && u.Count() == t.Count() + 2
  {
    var u1 := t.Add(c);
    assert u1.Rows() == t.Rows() + [Row(t.next, c)];
  }
}
