/**
 * What the two assessment builders and the assessment modal share: the
 * ordered validation rules of `validateAssessment`, the edits they make to
 * the list of sections, and the parsing of a comma-separated choice list.
 */
module AssessmentForms {
  import opened Wrappers
  import opened Text
  import opened Lists
  import opened Store
  import opened Database

  /** The four faults `validateAssessment` reports, each with its message. */
  datatype Fault = TitleRequired | NeedsQuestion | NeedsLabel | NeedsOption
  {
    function Message(): string
    {
      match this
      case TitleRequired => "Assessment title is required"
      case NeedsQuestion => "Minimum 1 question required"
      case NeedsLabel => "All questions must have a label"
      case NeedsOption => "All choice questions must have at least one option"
    }
  }

  /** The question types that carry choices in the builders. */
  predicate IsChoiceType(t: string)
  {
    t == "single-choice" || t == "multi-choice"
  }

  /** `sections.reduce((acc, s) => acc + s.questions.length, 0)`. */
  function TotalQuestions(ss: seq<Section>): nat
  {
    if ss == [] then 0 else TotalQuestions(ss[..|ss| - 1]) + |ss[|ss| - 1].questions|
  }

  /** The rule one question must meet, and the message when it does not. */
  function QuestionError(q: Question): (r: Option<Fault>)
    ensures r.None? <==> !AllSpace(q.text) && (IsChoiceType(q.qtype) ==> q.choices != [])
    ensures r.Some? ==> r.value.NeedsLabel? || r.value.NeedsOption?
  {
    if AllSpace(q.text) then Some(NeedsLabel)
    else if IsChoiceType(q.qtype) && |q.choices| == 0 then Some(NeedsOption)
    else None
  }

  /** The fault of the first question that breaks its rule. */
  function FirstQuestionError(qs: seq<Question>): (r: Option<Fault>)
    ensures r.Some? ==> r.value.NeedsLabel? || r.value.NeedsOption?
  {
    if qs == [] then None
    else if QuestionError(qs[0]).Some? then QuestionError(qs[0])
    else FirstQuestionError(qs[1..])
  }

  /** The fault of the first faulty question, section by section. */
  function FirstSectionError(ss: seq<Section>): (r: Option<Fault>)
    ensures r.Some? ==> r.value.NeedsLabel? || r.value.NeedsOption?
  {
    if ss == [] then None
    else if FirstQuestionError(ss[0].questions).Some? then FirstQuestionError(ss[0].questions)
    else FirstSectionError(ss[1..])
  }

  /** `validateAssessment`: the title rule, then at least one question, then
      each question in order; the first broken rule gives the message. A
      string is blank for `!s.trim()` exactly when it is all white space
      (`TrimEmptyIff`). */
  function Validation(title: string, ss: seq<Section>): (r: Option<Fault>)
  {
    if AllSpace(title) then Some(TitleRequired)
    else if TotalQuestions(ss) < 1 then Some(NeedsQuestion)
    else FirstSectionError(ss)
  }

  /** The question meets its rule. */
  predicate QuestionOk(q: Question)
  {
    QuestionError(q).None?
  }

  /** Every question of a list meets its rule. */
  predicate QuestionsOk(qs: seq<Question>)
  {
    forall j :: 0 <= j < |qs| ==> QuestionOk(qs[j])
  }

  /** Every question of every section meets its rule. */
  predicate AllQuestionsOk(ss: seq<Section>)
  {
    forall i :: 0 <= i < |ss| ==> QuestionsOk(ss[i].questions)
  }

  lemma {:induction false} FirstQuestionErrorNoneIff(qs: seq<Question>)
    ensures FirstQuestionError(qs).None? <==> QuestionsOk(qs)
  {
    if qs != [] {
      var rest := qs[1..];
      FirstQuestionErrorNoneIff(rest);
      if QuestionOk(qs[0]) {
        assert FirstQuestionError(qs) == FirstQuestionError(rest);
        if FirstQuestionError(qs).None? {
          forall j | 0 <= j < |qs| ensures QuestionOk(qs[j]) {
            if j > 0 { assert qs[j] == rest[j - 1]; }
          }
        } else {
          var k :| 0 <= k < |rest| && !QuestionOk(rest[k]);
          assert qs[k + 1] == rest[k];
        }
      }
    }
  }

  lemma {:induction false} FirstSectionErrorNoneIff(ss: seq<Section>)
    ensures FirstSectionError(ss).None? <==> AllQuestionsOk(ss)
  {
    if ss != [] {
      var rest := ss[1..];
      FirstSectionErrorNoneIff(rest);
      FirstQuestionErrorNoneIff(ss[0].questions);
      if QuestionsOk(ss[0].questions) {
        assert FirstSectionError(ss) == FirstSectionError(rest);
        if FirstSectionError(ss).None? {
          forall i | 0 <= i < |ss| ensures QuestionsOk(ss[i].questions) {
            if i > 0 { assert ss[i] == rest[i - 1]; }
          }
        } else {
          var k :| 0 <= k < |rest| && !QuestionsOk(rest[k].questions);
          assert ss[k + 1] == rest[k];
        }
      }
    }
  }

  lemma {:induction false} TotalQuestionsZeroIff(ss: seq<Section>)
    ensures TotalQuestions(ss) == 0 <==> forall i :: 0 <= i < |ss| ==> ss[i].questions == []
  {
    if ss != [] {
      TotalQuestionsZeroIff(ss[..|ss| - 1]);
    }
  }

  /** Validation passes exactly when the title is not blank, some section has
      a question, every label is not blank and every choice question has an
      option. */
  lemma ValidationNoneIff(title: string, ss: seq<Section>)
    ensures Validation(title, ss).None? <==>
              && !AllSpace(title)
              && (exists i :: 0 <= i < |ss| && ss[i].questions != [])
              && (forall i, j :: 0 <= i < |ss| && 0 <= j < |ss[i].questions| ==>
                    !AllSpace(ss[i].questions[j].text) &&
                    (IsChoiceType(ss[i].questions[j].qtype) ==> ss[i].questions[j].choices != []))
  {
    TotalQuestionsZeroIff(ss);
    FirstSectionErrorNoneIff(ss);
  }

  /** The rules are checked in order: a blank title is reported whatever the
      questions, and no questions is reported before any question's fault. */
  lemma ValidationOrder(title: string, ss: seq<Section>)
    ensures AllSpace(title) ==> Validation(title, ss) == Some(TitleRequired)
    ensures !AllSpace(title) && (forall i :: 0 <= i < |ss| ==> ss[i].questions == []) ==>
              Validation(title, ss) == Some(NeedsQuestion)
    ensures !AllSpace(title) && (exists i :: 0 <= i < |ss| && ss[i].questions != []) ==>
              Validation(title, ss).None? || Validation(title, ss).value.NeedsLabel? || Validation(title, ss).value.NeedsOption?
  {
    TotalQuestionsZeroIff(ss);
    FirstSectionErrorNoneIff(ss);
  }

  /** The code of `validateAssessment`: a running total, then nested loops
      that return at the first faulty question. */
  method Validate(title: string, sections: seq<Section>) returns (err: Option<Fault>)
    ensures err == Validation(title, sections)
  {
    TrimEmptyIff(title);
    if Trim(title) == "" {
      return Some(TitleRequired);
    }
    var total := 0;
    for i := 0 to |sections|
      invariant total == TotalQuestions(sections[..i])
    {
      assert sections[..i + 1][..i] == sections[..i];
      total := total + |sections[i].questions|;
    }
    assert sections[..|sections|] == sections;
    if total < 1 {
      return Some(NeedsQuestion);
    }
    for i := 0 to |sections|
      invariant FirstSectionError(sections) == FirstSectionError(sections[i..])
    {
      var qs := sections[i].questions;
      for j := 0 to |qs|
        invariant FirstQuestionError(qs) == FirstQuestionError(qs[j..])
      {
        TrimEmptyIff(qs[j].text);
        if Trim(qs[j].text) == "" {
          return Some(NeedsLabel);
        }
        if IsChoiceType(qs[j].qtype) && |qs[j].choices| == 0 {
          return Some(NeedsOption);
        }
        assert qs[j..][1..] == qs[j + 1..];
      }
      assert sections[i..][1..] == sections[i + 1..];
    }
    return None;
  }

  // ------------------------------------------------------------- edits

  /** The section every builder appends, and starts with. */
  function EmptySection(): Section
  {
    Section("", [])
  }

  function WithSectionTitle(ss: seq<Section>, i: nat, v: string): (r: seq<Section>)
    requires i < |ss|
    ensures |r| == |ss| && r[i].title == v && r[i].questions == ss[i].questions
    ensures forall k :: 0 <= k < |ss| && k != i ==> r[k] == ss[k]
  {
    ss[i := ss[i].(title := v)]
  }

  /** Section `s` with its questions replaced. */
  function WithQuestions(ss: seq<Section>, s: nat, qs: seq<Question>): (r: seq<Section>)
    requires s < |ss|
    ensures |r| == |ss| && r[s].questions == qs && r[s].title == ss[s].title
    ensures forall k :: 0 <= k < |ss| && k != s ==> r[k] == ss[k]
  {
    ss[s := ss[s].(questions := qs)]
  }

  /** Changing one section's questions changes the total by the difference. */
  lemma {:induction false} TotalQuestionsUpdate(ss: seq<Section>, s: nat, qs: seq<Question>)
    requires s < |ss|
    ensures TotalQuestions(WithQuestions(ss, s, qs)) == TotalQuestions(ss) - |ss[s].questions| + |qs|
    decreases |ss|
  {
    var r := WithQuestions(ss, s, qs);
    var n := |ss| - 1;
    if s < n {
      TotalQuestionsUpdate(ss[..n], s, qs);
      assert r[..n] == WithQuestions(ss[..n], s, qs);
    } else {
      assert r[..n] == ss[..n];
    }
  }

  /** Appending a question to a section adds one to the total and leaves
      every other section as it was. */
  lemma AppendQuestionCounts(ss: seq<Section>, s: nat, q: Question)
    requires s < |ss|
    ensures TotalQuestions(WithQuestions(ss, s, ss[s].questions + [q])) == TotalQuestions(ss) + 1
  {
    TotalQuestionsUpdate(ss, s, ss[s].questions + [q]);
  }

  /** Removing a question from a section takes one off the total. */
  lemma RemoveQuestionCounts(ss: seq<Section>, s: nat, q: nat)
    requires s < |ss| && q < |ss[s].questions|
    ensures TotalQuestions(WithQuestions(ss, s, RemoveAt(ss[s].questions, q))) == TotalQuestions(ss) - 1
  {
    TotalQuestionsUpdate(ss, s, RemoveAt(ss[s].questions, q));
  }

  lemma {:induction false} FirstSectionErrorAppend(ss: seq<Section>, t: Section)
    requires t.questions == []
    ensures FirstSectionError(ss + [t]) == FirstSectionError(ss)
  {
    if ss != [] {
      FirstSectionErrorAppend(ss[1..], t);
      assert (ss + [t])[1..] == ss[1..] + [t];
    } else {
      assert FirstSectionError([t][1..]) == None;
    }
  }

  /** Adding an empty section never changes what validation reports. */
  lemma AddSectionKeepsValidation(title: string, ss: seq<Section>)
    ensures Validation(title, ss + [EmptySection()]) == Validation(title, ss)
  {
    assert (ss + [EmptySection()])[..|ss|] == ss;
    FirstSectionErrorAppend(ss, EmptySection());
  }

  // ------------------------------------------------------------ choices

  /** `value.split(",").map(v => v.trim())`: how a comma-separated choice
      list is read back. */
  function ParseChoices(value: string): (r: seq<string>)
    ensures |r| >= 1
  {
    TrimAll(Split(value, ','))
  }

  /** Choices as the "Add Option" round trip keeps them: no comma, no white
      space at either end. */
  predicate PlainChoices(cs: seq<string>)
  {
    forall k :: 0 <= k < |cs| ==> ',' !in cs[k] && IsTrimmed(cs[k])
  }

  /** Joining plain choices with "," and reading them back gives them back. */
  lemma ParseJoinedChoices(cs: seq<string>)
    requires |cs| >= 1 && PlainChoices(cs)
    ensures ParseChoices(Join(cs, ",")) == cs
  {
    SplitJoin(cs, ',');
    assert [','] == ",";
    forall k | 0 <= k < |cs| ensures Trim(cs[k]) == cs[k] {
      TrimFixed(cs[k]);
    }
  }

  /** "+ Add Option": the choices plus one empty choice, joined and read
      back, are the old choices plus `""`. */
  lemma AddOptionRoundTrip(cs: seq<string>)
    requires PlainChoices(cs)
    ensures ParseChoices(Join(cs + [""], ",")) == cs + [""]
  {
    ParseJoinedChoices(cs + [""]);
  }

  /** Editing option `o` to a comma-free value `v`, joining and reading back
      changes that option only, to `v` trimmed. */
  lemma EditOptionRoundTrip(cs: seq<string>, o: nat, v: string)
    requires PlainChoices(cs) && o < |cs| && ',' !in v
    ensures ParseChoices(Join(cs[o := v], ",")) == cs[o := Trim(v)]
  {
    var e := cs[o := v];
    assert forall k :: 0 <= k < |e| ==> ',' !in e[k];
    SplitJoin(e, ',');
    assert [','] == ",";
    var r := ParseChoices(Join(e, ","));
    assert r == TrimAll(e);
    forall k | 0 <= k < |cs| ensures r[k] == cs[o := Trim(v)][k] {
      if k != o {
        TrimFixed(e[k]);
      }
    }
  }

  /** A comma typed into an option splits it into two options. */
  lemma CommaSplitsOption(a: string, b: string)
    requires ',' !in a && ',' !in b && IsTrimmed(a) && IsTrimmed(b)
    ensures ParseChoices(Join([a + "," + b], ",")) == [a, b]
  {
    ParseJoinedChoices([a, b]);
    assert Join([a, b], ",") == a + "," + b;
  }

  // ------------------------------------------------------ question edits

  /** The question "+ Add Question" appends in both builders. */
  function NewQuestion(): Question
  {
    Question("", "short-text", None, [])
  }

  /** One `updateQuestion(sIdx, qIdx, key, value)` assignment: the key and
      the value stored under it. */
  datatype QuestionEdit = SetLabel(text: string) | SetType(kind: string) | SetChoices(options: seq<string>)

  function Edited(q: Question, e: QuestionEdit): Question
  {
    match e
    case SetLabel(v) => q.(text := v)
    case SetType(v) => q.(qtype := v)
    case SetChoices(v) => q.(choices := v)
  }

  /** The edit the comma-parsing editors make for a key and the string the
      form passes: "choices" is read as a comma-separated list; a key other
      than "label", "type" and "choices" only adds a field this model does
      not keep. */
  function TextEdit(key: string, value: string): (r: Option<QuestionEdit>)
    ensures r.None? <==> key != "choices" && key != "label" && key != "type"
  {
    if key == "choices" then Some(SetChoices(ParseChoices(value)))
    else if key == "label" then Some(SetLabel(value))
    else if key == "type" then Some(SetType(value))
    else None
  }

  /** Question `q` of section `s` after an edit. */
  function WithEdit(ss: seq<Section>, s: nat, q: nat, e: QuestionEdit): (r: seq<Section>)
    requires s < |ss| && q < |ss[s].questions|
    ensures |r| == |ss| && |r[s].questions| == |ss[s].questions|
  {
    WithQuestions(ss, s, ss[s].questions[q := Edited(ss[s].questions[q], e)])
  }

  /** Editing a question keeps every other question and section, and the
      number of questions. */
  lemma WithEditKeepsOthers(ss: seq<Section>, s: nat, q: nat, e: QuestionEdit)
    requires s < |ss| && q < |ss[s].questions|
    ensures var r := WithEdit(ss, s, q, e);
            && TotalQuestions(r) == TotalQuestions(ss)
            && (forall k :: 0 <= k < |ss| && k != s ==> r[k] == ss[k])
            && (forall j :: 0 <= j < |ss[s].questions| && j != q ==> r[s].questions[j] == ss[s].questions[j])
            && r[s].title == ss[s].title
  {
    TotalQuestionsUpdate(ss, s, ss[s].questions[q := Edited(ss[s].questions[q], e)]);
  }

  /** Two edits of the same question compose. */
  lemma WithEditTwice(ss: seq<Section>, s: nat, q: nat, e1: QuestionEdit, e2: QuestionEdit)
    requires s < |ss| && q < |ss[s].questions|
    ensures WithEdit(WithEdit(ss, s, q, e1), s, q, e2)
         == WithQuestions(ss, s, ss[s].questions[q := Edited(Edited(ss[s].questions[q], e1), e2)])
  {
    var once := WithEdit(ss, s, q, e1);
    var qs := ss[s].questions[q := Edited(ss[s].questions[q], e1)];
    assert once[s].questions[q] == Edited(ss[s].questions[q], e1);
    assert qs[q := Edited(qs[q], e2)] == ss[s].questions[q := Edited(Edited(ss[s].questions[q], e1), e2)];
    assert once[s := once[s].(questions := qs[q := Edited(qs[q], e2)])]
        == ss[s := ss[s].(questions := qs[q := Edited(qs[q], e2)])];
  }

  /** A freshly added question has no label, so the form cannot be saved
      until it is given one. */
  lemma AddQuestionBlocksSave(title: string, ss: seq<Section>, s: nat)
    requires s < |ss|
    ensures Validation(title, WithQuestions(ss, s, ss[s].questions + [NewQuestion()])).Some?
  {
    var r := WithQuestions(ss, s, ss[s].questions + [NewQuestion()]);
    ValidationNoneIff(title, r);
    var j := |ss[s].questions|;
    assert r[s].questions[j] == NewQuestion();
    assert AllSpace(r[s].questions[j].text);
  }

  /** Deleting a section or a question never makes a question faulty: only
      the count of questions can fall to zero. */
  lemma DeleteKeepsQuestionsOk(ss: seq<Section>, i: nat, q: nat)
    requires AllQuestionsOk(ss)
    ensures i < |ss| ==> AllQuestionsOk(RemoveAt(ss, i))
    ensures i < |ss| && q < |ss[i].questions| ==> AllQuestionsOk(WithQuestions(ss, i, RemoveAt(ss[i].questions, q)))
  {
    if i < |ss| && q < |ss[i].questions| {
      var r := WithQuestions(ss, i, RemoveAt(ss[i].questions, q));
      assert QuestionsOk(ss[i].questions);
      assert QuestionsOk(r[i].questions) by {
        forall j | 0 <= j < |r[i].questions| ensures QuestionOk(r[i].questions[j]) {
          if j < q {
            assert r[i].questions[j] == ss[i].questions[j];
          } else {
            assert r[i].questions[j] == ss[i].questions[j + 1];
          }
        }
      }
      forall k | 0 <= k < |r| ensures QuestionsOk(r[k].questions) {
        if k != i {
          assert r[k] == ss[k];
        }
      }
    }
    if i < |ss| {
      var r := RemoveAt(ss, i);
      forall k | 0 <= k < |r| ensures QuestionsOk(r[k].questions) {
        if k < i {
          assert r[k] == ss[k];
        } else {
          assert r[k] == ss[k + 1];
        }
      }
    }
  }

  // ------------------------------------------------------------- saving

  /** What a builder shows for a stored assessment: its sections, or one
      empty section when the record has none. */
  function LoadedSections(a: Assessment): seq<Section>
  {
    a.sections.GetOr([EmptySection()])
  }

  /** How a builder's save ends: refused with the first validation fault,
      an update in edit mode, or the key of the added record. */
  datatype SaveOutcome = Invalid(fault: Fault) | Updated | Added(id: int)

  /** `db.assessments.update(id, { title, sections, updatedAt })`: the
      builder's fields replace the stored ones; the job, the creation time
      and the rest of the record stay. */
  function Revised(a: Assessment, title: string, ss: seq<Section>, nowIso: string): Assessment
  {
    a.(title := title, sections := Some(ss), updatedAt := Some(nowIso))
  }

  /** The record a builder adds in create mode. */
  function Drafted(jobId: Option<int>, title: string, ss: seq<Section>, nowIso: string): Assessment
  {
    Assessment(jobId, title, Some(ss), None, Some(nowIso), None)
  }

  /** `saveAssessment` of both builders: validation first; then, with an
      assessment key to edit, an update of that record (nothing when it is
      gone, as Dexie's `update` does), otherwise an add. */
  function Saved(t: Table<Assessment>, editId: Option<int>, jobId: Option<int>, title: string, ss: seq<Section>, nowIso: string)
    : (Table<Assessment>, SaveOutcome)
    requires t.Valid()
  {
    match Validation(title, ss)
    case Some(f) => (t, Invalid(f))
    case None =>
      if editId.Some? then
        (if editId.value in t.vals then t.Update(editId.value, Revised(t.vals[editId.value], title, ss, nowIso)) else t, Updated)
      else
        (t.Add(Drafted(jobId, title, ss, nowIso)), Added(t.next))
  }

  /** A refused save changes nothing; an accepted one only ever stores a
      form that passed validation, touches only the record it names, and
      loading that record shows the saved title and sections again. */
  lemma SavedSpec(t: Table<Assessment>, editId: Option<int>, jobId: Option<int>, title: string, ss: seq<Section>, nowIso: string)
    requires t.Valid()
    ensures var (u, out) := Saved(t, editId, jobId, title, ss, nowIso);
      && u.Valid()
      && (out.Invalid? <==> Validation(title, ss).Some?)
      && (out.Invalid? ==> u == t && Some(out.fault) == Validation(title, ss))
      && (!out.Invalid? ==> !AllSpace(title) && TotalQuestions(ss) >= 1 && AllQuestionsOk(ss))
      && (out.Added? <==> !out.Invalid? && editId.None?)
      && (out.Added? ==>
            && out.id == t.next
            && (forall k :: k != out.id ==> u.Get(k) == t.Get(k))
            && u.Get(out.id) == Some(Drafted(jobId, title, ss, nowIso))
            && u.vals[out.id].title == title && LoadedSections(u.vals[out.id]) == ss)
      && (out.Updated? ==>
            && (forall k :: k != editId.value ==> u.Get(k) == t.Get(k))
            && (editId.value !in t.vals ==> u == t)
            && (editId.value in t.vals ==>
                  && u.vals[editId.value].title == title
                  && LoadedSections(u.vals[editId.value]) == ss
                  && u.vals[editId.value].jobId == t.vals[editId.value].jobId
                  && u.vals[editId.value].createdAt == t.vals[editId.value].createdAt))
  {
    FirstSectionErrorNoneIff(ss);
  }
}
