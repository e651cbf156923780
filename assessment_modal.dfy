/**
 * The assessment modal (src/components/assessment/AssessmentModal.jsx): a
 * form over a title and sections that is filled from the assessment it is
 * opened with, edited without validation, and handed back to its parent
 * as one payload on save.
 */
module AssessmentModal {
  import opened Wrappers
  import opened Text
  import opened Lists
  import opened Database
  import opened Js
  import opened AssessmentForms

  /** The question "+ Add Question" appends in the modal: `addQuestion` is
      always called without a type, so it takes the default "short". */
  function ModalQuestion(): Question
  {
    Question("", "short", Some(true), [])
  }

  /** `jobs[0]?.id || 0`: the first job's key, or 0 without jobs. */
  function FirstJobId(jobIds: seq<int>): int
  {
    if jobIds != [] then jobIds[0] else 0
  }

  /** An assessment as the modal receives and hands it back: the record
      and, for a stored one, the key Dexie gave it. */
  datatype KeyedAssessment = KeyedAssessment(id: Option<int>, val: Assessment)

  /** `handleSaveClick`: the assessment the modal was opened with, its
      title and sections replaced by the form's; it keeps its key, its job
      and its creation time when they are set, and otherwise gets the first
      job and the current time. */
  function Payload(assessment: Option<KeyedAssessment>, title: string, sections: seq<Section>, jobIds: seq<int>, nowIso: string)
    : (p: KeyedAssessment)
    ensures p.id == if assessment.Some? then assessment.value.id else None
    ensures p.val.title == title && p.val.sections == Some(sections)
    ensures p.val.jobId.Some? && p.val.createdAt.Some?
    ensures assessment.Some? && TruthyNumber(assessment.value.val.jobId) ==> p.val.jobId == assessment.value.val.jobId
    ensures !(assessment.Some? && TruthyNumber(assessment.value.val.jobId)) ==>
              p.val.jobId == Some(if jobIds != [] then jobIds[0] else 0)
    ensures assessment.Some? && Truthy(assessment.value.val.createdAt) ==> p.val.createdAt == assessment.value.val.createdAt
    ensures !(assessment.Some? && Truthy(assessment.value.val.createdAt)) ==> p.val.createdAt == Some(nowIso)
    ensures assessment.Some? ==>
              p.val.questions == assessment.value.val.questions && p.val.updatedAt == assessment.value.val.updatedAt
    ensures assessment.None? ==> p.val.questions.None? && p.val.updatedAt.None?
  {
    var base := if assessment.Some? then assessment.value.val else Assessment(None, "", None, None, None, None);
    var jobId := if TruthyNumber(base.jobId) then base.jobId else Some(FirstJobId(jobIds));
    var createdAt := if Truthy(base.createdAt) then base.createdAt else Some(nowIso);
    KeyedAssessment(if assessment.Some? then assessment.value.id else None,
                    base.(title := title, sections := Some(sections), jobId := jobId, createdAt := createdAt))
  }

  /** Opening the modal on an assessment that has sections, a job and a
      creation time, and saving without an edit, hands the assessment back
      unchanged, key included. */
  lemma ReopenedUnchanged(a: KeyedAssessment, jobIds: seq<int>, nowIso: string)
    requires a.val.sections.Some? && TruthyNumber(a.val.jobId) && Truthy(a.val.createdAt)
    ensures Payload(Some(a), a.val.title, a.val.sections.GetOr([]), jobIds, nowIso) == a
  {
  }

  /** Saving twice, with the payload of the first save as the assessment
      of the second, gives the same payload. */
  lemma PayloadIdempotent(assessment: Option<KeyedAssessment>, title: string, sections: seq<Section>, jobIds: seq<int>, nowIso: string, later: string)
    requires Truthy(Some(nowIso)) && FirstJobId(jobIds) != 0
    ensures var p := Payload(assessment, title, sections, jobIds, nowIso);
            Payload(Some(p), title, sections, jobIds, later) == p
  {
    var p := Payload(assessment, title, sections, jobIds, nowIso);
    assert TruthyNumber(p.val.jobId) && Truthy(p.val.createdAt);
  }

  /** The modal's state: the assessment it was opened with, and the form. */
  class Modal {
    var assessment: Option<KeyedAssessment>
    var title: string
    var sections: seq<Section>

    constructor()
      ensures assessment.None? && title == "" && sections == []
    {
      assessment := None;
      title := "";
      sections := [];
    }

    /** The effect run when the `assessment` prop changes. */
    method Load(a: Option<KeyedAssessment>)
      modifies this
      ensures assessment == a
      ensures a.Some? ==> title == a.value.val.title && sections == a.value.val.sections.GetOr([])
      ensures a.None? ==> title == "" && sections == []
    {
      assessment := a;
      if a.Some? {
        title := a.value.val.title;
        sections := a.value.val.sections.GetOr([]);
      } else {
        title := "";
        sections := [];
      }
    }

    method AddSection()
      modifies this
      ensures assessment == old(assessment) && title == old(title)
      ensures sections == old(sections) + [EmptySection()]
    {
      sections := sections + [EmptySection()];
    }

    /** The "X" of a section: `sections.filter((_, idx) => idx !== sIdx)`. */
    method DeleteSection(s: nat)
      modifies this
      ensures assessment == old(assessment) && title == old(title)
      ensures sections == if s < |old(sections)| then RemoveAt(old(sections), s) else old(sections)
    {
      if s < |sections| {
        sections := RemoveAt(sections, s);
      }
    }

    method UpdateSectionTitle(s: nat, value: string)
      requires s < |sections|
      modifies this
      ensures assessment == old(assessment) && title == old(title)
      ensures sections == WithSectionTitle(old(sections), s, value)
    {
      sections := WithSectionTitle(sections, s, value);
    }

    /** "+ Add Question": a required short question at the end of section
        `s`, one more question in the form. */
    method AddQuestion(s: nat)
      requires s < |sections|
      modifies this
      ensures assessment == old(assessment) && title == old(title)
      ensures sections == WithQuestions(old(sections), s, old(sections)[s].questions + [ModalQuestion()])
      ensures TotalQuestions(sections) == TotalQuestions(old(sections)) + 1
    {
      AppendQuestionCounts(sections, s, ModalQuestion());
      sections := WithQuestions(sections, s, sections[s].questions + [ModalQuestion()]);
    }

    /** `updateQuestion`: "choices" is split at commas and trimmed, "label"
        and "type" are stored as given; the "delete" flag set before a
        deletion is a field this model does not keep. */
    method UpdateQuestion(s: nat, q: nat, key: string, value: string)
      requires s < |sections| && q < |sections[s].questions|
      modifies this
      ensures assessment == old(assessment) && title == old(title)
      ensures TextEdit(key, value).Some? ==> sections == WithEdit(old(sections), s, q, TextEdit(key, value).value)
      ensures TextEdit(key, value).None? ==> sections == old(sections)
    {
      var e := TextEdit(key, value);
      if e.Some? {
        sections := WithEdit(sections, s, q, e.value);
      }
    }

    /** The "X" of a question: marks it, then splices it out. */
    method DeleteQuestion(s: nat, q: nat)
      requires s < |sections| && q < |sections[s].questions|
      modifies this
      ensures assessment == old(assessment) && title == old(title)
      ensures sections == WithQuestions(old(sections), s, RemoveAt(old(sections)[s].questions, q))
      ensures TotalQuestions(sections) == TotalQuestions(old(sections)) - 1
    {
      RemoveQuestionCounts(sections, s, q);
      sections := WithQuestions(sections, s, RemoveAt(sections[s].questions, q));
    }

    /** "+ Add Option", through the comma-joined string. */
    method AddOption(s: nat, q: nat)
      requires s < |sections| && q < |sections[s].questions|
      modifies this
      ensures assessment == old(assessment) && title == old(title)
      ensures var cs := old(sections)[s].questions[q].choices;
              sections == WithEdit(old(sections), s, q, SetChoices(ParseChoices(Join(cs + [""], ","))))
      ensures var cs := old(sections)[s].questions[q].choices;
              PlainChoices(cs) ==> sections == WithEdit(old(sections), s, q, SetChoices(cs + [""]))
    {
      var cs := sections[s].questions[q].choices;
      if PlainChoices(cs) {
        AddOptionRoundTrip(cs);
      }
      UpdateQuestion(s, q, "choices", Join(cs + [""], ","));
    }

    /** Typing into option `o`, through the comma-joined string. */
    method EditOption(s: nat, q: nat, o: nat, value: string)
      requires s < |sections| && q < |sections[s].questions| && o < |sections[s].questions[q].choices|
      modifies this
      ensures assessment == old(assessment) && title == old(title)
      ensures var cs := old(sections)[s].questions[q].choices;
              sections == WithEdit(old(sections), s, q, SetChoices(ParseChoices(Join(cs[o := value], ","))))
      ensures var cs := old(sections)[s].questions[q].choices;
              PlainChoices(cs) && ',' !in value ==> sections == WithEdit(old(sections), s, q, SetChoices(cs[o := Trim(value)]))
    {
      var cs := sections[s].questions[q].choices;
      if PlainChoices(cs) && ',' !in value {
        EditOptionRoundTrip(cs, o, value);
      }
      UpdateQuestion(s, q, "choices", Join(cs[o := value], ","));
    }

    /** "Save": the payload handed to the parent; the modal's state is
        unchanged. */
    method SaveClick(jobIds: seq<int>, nowIso: string) returns (payload: KeyedAssessment)
      ensures payload == Payload(assessment, title, sections, jobIds, nowIso)
    {
      payload := Payload(assessment, title, sections, jobIds, nowIso);
    }
  }
}
