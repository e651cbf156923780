/**
 * The browser database (src/db/db.js): six tables with auto-incremented
 * keys, and the records the application stores in them.
 */
module Database {
  import opened Wrappers
  import opened Store

  /** A job posting. Jobs made by the create-job form have no `order`, no
      tags and no slug suffixing; jobs made by the mock backend have no
      description and no requirements (empty here). */
  datatype Job = Job(
    title: string,
    slug: string,
    status: string,
    tags: seq<string>,
    order: Option<int>,
    description: string,
    requirements: seq<string>)

  /** A candidate; `jobId` is `None` for `null` or a missing field. */
  datatype Candidate = Candidate(
    name: string,
    email: string,
    jobId: Option<int>,
    stage: string,
    phone: string,
    resume: Option<string>)

  /** A timeline entry: `fromStage` is `None` for `null`, `note` is `meta.note`. */
  datatype TimelineEntry = TimelineEntry(
    candidateId: int,
    timestamp: int,
    fromStage: Option<string>,
    toStage: string,
    note: string)

  /** A question of an assessment; `text` is its `label` field, and `required`
      is only set by the modal editor. */
  datatype Question = Question(text: string, qtype: string, required: Option<bool>, choices: seq<string>)

  datatype Section = Section(title: string, questions: seq<Question>)

  /** An assessment. The builders store `sections`; the mock backend stores
      whatever the request body held, which must include `questions`. */
  datatype Assessment = Assessment(
    jobId: Option<int>,
    title: string,
    sections: Option<seq<Section>>,
    questions: Option<seq<Question>>,
    createdAt: Option<string>,
    updatedAt: Option<string>)

  datatype Submission = Submission(jobId: int, candidateId: int, answers: map<string, string>, submittedAt: int)

  datatype Note = Note(candidateId: int, text: string, mentions: seq<string>, timestamp: int)

  class Db {
    var jobs: Table<Job>
    var candidates: Table<Candidate>
    var timelines: Table<TimelineEntry>
    var assessments: Table<Assessment>
    var submissions: Table<Submission>
    var notes: Table<Note>

    ghost predicate Valid()
      reads this
    {
      && jobs.Valid()
      && candidates.Valid()
      && timelines.Valid()
      && assessments.Valid()
      && submissions.Valid()
      && notes.Valid()
    }

    /** A fresh, empty database. */
    constructor ()
      ensures Valid()
      ensures jobs.Rows() == [] && candidates.Rows() == [] && timelines.Rows() == []
      ensures assessments.Rows() == [] && submissions.Rows() == [] && notes.Rows() == []
    {
      jobs := EmptyTable();
      candidates := EmptyTable();
      timelines := EmptyTable();
      assessments := EmptyTable();
      submissions := EmptyTable();
      notes := EmptyTable();
    }
  }
}

/** What a mock handler answers: a JSON body with status 200 or 201, or a
    `{ message }` body with an error status. */
module Http {
  datatype Response<T> = Ok(body: T) | Created(body: T) | Error(status: int, message: string)
  {
    function Status(): int
    {
      match this
      case Ok(_) => 200
      case Created(_) => 201
      case Error(s, _) => s
    }
  }

  /** The body of a paged listing: `{ total, page, pageSize, items }`. */
  datatype Listing<T> = Listing(total: nat, page: int, pageSize: int, items: seq<T>)
}
