/**
 * The assessment routes and the dashboard summary of the mock backend
 * (src/mock/handlers.js). `new Date().toISOString()` is the parameter
 * `nowIso`, `Date.now()` the parameter `now`.
 */
module MockAssessments {
  import opened Wrappers
  import opened Text
  import opened Lists
  import opened Store
  import opened Database
  import opened Http
  import opened Js

  /** The assessments stored for a job. */
  function ForJob(jobId: int): Row<Assessment> -> bool
  {
    (a: Row<Assessment>) => a.val.jobId == Some(jobId)
  }

  /** `GET /assessments/:jobId`: every assessment of the job, in key order,
      or 404 when there is none. */
  function AssessmentsOfJob(t: Table<Assessment>, jobId: int): (r: Response<seq<Row<Assessment>>>)
    requires t.Valid()
    ensures r.Error? <==> forall i :: 0 <= i < |t.ids| ==> t.vals[t.ids[i]].jobId != Some(jobId)
    ensures r.Error? ==> r == Error(404, "No assessments found")
    ensures r.Ok? ==> r.body != [] && forall a :: a in r.body <==> a in t.Rows() && a.val.jobId == Some(jobId)
  {
    var found := Filter(t.Rows(), ForJob(jobId));
    FilterIn(t.Rows(), ForJob(jobId));
    if found == [] then
      assert forall i :: 0 <= i < |t.ids| ==> t.Rows()[i] in t.Rows();
      Error(404, "No assessments found")
    else
      assert found[0] in t.Rows();
      Ok(found)
  }

  /** `GET /assessment/:id`. */
  function AssessmentById(t: Table<Assessment>, id: int): (r: Response<Row<Assessment>>)
    ensures r.Ok? <==> id in t.vals
    ensures r.Ok? ==> r.body == Row(id, t.vals[id])
    ensures r.Error? ==> r == Error(404, "Assessment not found")
  {
    match t.Get(id)
    case Some(a) => Ok(Row(id, a))
    case None => Error(404, "Assessment not found")
  }

  /** The fields of a saved assessment body the handler looks at or keeps;
      an absent title is the empty string. */
  datatype AssessmentBody = AssessmentBody(
    title: string,
    sections: Option<seq<Section>>,
    questions: Option<seq<Question>>,
    updatedAt: Option<string>)

  /** `{ ...body, jobId, createdAt }`: the route's job id and the time of the
      save override whatever the body held. */
  function SavedPayload(body: AssessmentBody, jobId: int, nowIso: string): (a: Assessment)
    ensures a.jobId == Some(jobId) && a.createdAt == Some(nowIso)
    ensures a.title == body.title && a.sections == body.sections && a.questions == body.questions
    ensures a.updatedAt == body.updatedAt
  {
    Assessment(Some(jobId), body.title, body.sections, body.questions, Some(nowIso), body.updatedAt)
  }

  /** `PUT /assessments/:jobId`: always adds a new record, even when the job
      already has one; an empty list of questions is accepted. */
  method SaveAssessment(db: Db, fail: bool, nowIso: string, jobId: int, body: AssessmentBody)
    returns (r: Response<Row<Assessment>>)
    requires db.Valid()
    modifies db`assessments
    ensures db.Valid()
    ensures fail ==> r == Error(500, "Simulated save assessment error")
    ensures !fail && body.questions.None? ==> r == Error(400, "Invalid assessment payload")
    ensures r.Ok? <==> !fail && body.questions.Some?
    ensures !r.Ok? ==> db.assessments == old(db.assessments)
    ensures r.Ok? ==>
      && r.body == Row(old(db.assessments.next), SavedPayload(body, jobId, nowIso))
      && db.assessments == old(db.assessments).Add(r.body.val)
  {
    if fail {
      return Error(500, "Simulated save assessment error");
    }
    if body.questions.None? {
      return Error(400, "Invalid assessment payload");
    }
    var payload := SavedPayload(body, jobId, nowIso);
    var id := db.assessments.next;
    db.assessments := db.assessments.Add(payload);
    r := Ok(Row(id, db.assessments.Get(id).value));
  }

  /** A successful save can be read back, by its id and among its job's
      assessments. */
  lemma SaveThenRead(t: Table<Assessment>, body: AssessmentBody, jobId: int, nowIso: string)
    requires t.Valid()
    ensures var a := SavedPayload(body, jobId, nowIso);
            && AssessmentById(t.Add(a), t.next) == Ok(Row(t.next, a))
            && AssessmentsOfJob(t.Add(a), jobId).Ok?
            && Row(t.next, a) in AssessmentsOfJob(t.Add(a), jobId).body
  {
    var a := SavedPayload(body, jobId, nowIso);
    var u := t.Add(a);
    assert u.Rows()[|u.Rows()| - 1] == Row(t.next, a);
    assert u.vals[u.ids[|u.ids| - 1]].jobId == Some(jobId);
  }

  datatype SubmitBody = SubmitBody(candidateId: Option<int>, answers: Option<map<string, string>>)

  /** `POST /assessments/:jobId/submit`: any answers object, even an empty
      one, is accepted; a missing or zero candidate id is not. */
  method SubmitAssessment(db: Db, fail: bool, now: int, jobId: int, body: SubmitBody)
    returns (r: Response<Row<Submission>>)
    requires db.Valid()
    modifies db`submissions
    ensures db.Valid()
    ensures fail ==> r == Error(500, "Simulated submit error")
    ensures !fail && (!TruthyNumber(body.candidateId) || body.answers.None?) ==>
              r == Error(400, "candidateId and answers required")
    ensures r.Created? <==> !fail && TruthyNumber(body.candidateId) && body.answers.Some?
    ensures !r.Created? ==> db.submissions == old(db.submissions)
    ensures r.Created? ==>
      && r.body == Row(old(db.submissions.next), Submission(jobId, body.candidateId.value, body.answers.value, now))
      && db.submissions == old(db.submissions).Add(r.body.val)
  {
    if fail {
      return Error(500, "Simulated submit error");
    }
    if !TruthyNumber(body.candidateId) || body.answers.None? {
      return Error(400, "candidateId and answers required");
    }
    var record := Submission(jobId, body.candidateId.value, body.answers.value, now);
    var id := db.submissions.next;
    db.submissions := db.submissions.Add(record);
    r := Created(Row(id, db.submissions.Get(id).value));
  }

  // ---------------------------------------------------------- dashboard

  datatype Summary = Summary(
    totalJobs: nat,
    activeJobs: nat,
    totalCandidates: nat,
    hiredCandidates: nat,
    totalAssessments: nat)

  function IsActive(): Row<Job> -> bool
  {
    (j: Row<Job>) => Lower(j.val.status) == "active"
  }

  function IsHired(): Row<Candidate> -> bool
  {
    (c: Row<Candidate>) => Lower(c.val.stage) == "hired"
  }

  /** `GET /dashboard/summary`: the counts the dashboard shows. */
  method DashboardSummary(db: Db) returns (r: Summary)
    requires db.Valid()
    ensures r.totalJobs == |db.jobs.Rows()| && r.totalCandidates == |db.candidates.Rows()|
    ensures r.totalAssessments == |db.assessments.Rows()|
    ensures r.activeJobs == Count(db.jobs.Rows(), IsActive())
    ensures r.hiredCandidates == Count(db.candidates.Rows(), IsHired())
    ensures r.activeJobs <= r.totalJobs && r.hiredCandidates <= r.totalCandidates
  {
    var totalJobs := db.jobs.Count();
    var activeJobs := Count(db.jobs.Rows(), IsActive());
    var totalCandidates := db.candidates.Count();
    var hiredCandidates := Count(db.candidates.Rows(), IsHired());
    var totalAssessments := db.assessments.Count();
    r := Summary(totalJobs, activeJobs, totalCandidates, hiredCandidates, totalAssessments);
  }

  /** Every job created by the backend without a status is counted active. */
  lemma CreatedJobCountsActive(t: Table<Job>, j: Job)
    requires t.Valid() && j.status == Lower("active")
    ensures Count(t.Add(j).Rows(), IsActive()) == Count(t.Rows(), IsActive()) + 1
  {
    FilterAppend(t.Rows(), [Row(t.next, j)], IsActive());
    FilterCons(Row(t.next, j), [], IsActive());
    LowerIdempotent("active");
  }
}
