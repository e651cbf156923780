/**
 * The other assessment builder page (src/components/AssessmentBuilder.jsx).
 * It loads, validates and saves like the one in
 * src/components/assessment/, but can also delete sections and questions,
 * and passes a question's choices around as one comma-separated string
 * that `updateQuestion` splits and trims.
 */
module CommaAssessmentBuilder {
  import opened Wrappers
  import opened Text
  import opened Lists
  import opened Store
  import opened Database
  import opened AssessmentForms

  /** The builder's state; `param` is `Number(id)` for the route's `id`,
      `None` when the route has none. */
  class Builder {
    const mode: string
    const param: Option<int>
    var title: string
    var sections: seq<Section>

    constructor(mode: string, param: Option<int>)
      ensures this.mode == mode && this.param == param
      ensures title == "" && sections == [EmptySection()]
    {
      this.mode := mode;
      this.param := param;
      title := "";
      sections := [EmptySection()];
    }

    /** `mode === "edit" && id`. */
    predicate Editing()
    {
      mode == "edit" && param.Some?
    }

    function EditTarget(): Option<int>
    {
      if Editing() then param else None
    }

    /** The effect that fills the form in edit mode. */
    method Load(db: Db)
      requires db.Valid()
      modifies this
      ensures var t := db.assessments;
              if Editing() && param.value in t.vals then
                title == t.vals[param.value].title && sections == LoadedSections(t.vals[param.value])
              else
                title == old(title) && sections == old(sections)
    {
      if Editing() {
        var existing := db.assessments.Get(param.value);
        if existing.Some? {
          title := existing.value.title;
          sections := LoadedSections(existing.value);
        }
      }
    }

    method AddSection()
      modifies this
      ensures title == old(title) && sections == old(sections) + [EmptySection()]
      ensures Validation(title, sections) == Validation(old(title), old(sections))
    {
      AddSectionKeepsValidation(title, sections);
      sections := sections + [EmptySection()];
    }

    /** `sections.filter((_, i) => i !== sIdx)`: an index past the end
        removes nothing. */
    method DeleteSection(s: nat)
      modifies this
      ensures title == old(title)
      ensures sections == if s < |old(sections)| then RemoveAt(old(sections), s) else old(sections)
      ensures AllQuestionsOk(old(sections)) ==> AllQuestionsOk(sections)
    {
      if AllQuestionsOk(sections) {
        DeleteKeepsQuestionsOk(sections, s, 0);
      }
      if s < |sections| {
        sections := RemoveAt(sections, s);
      }
    }

    method UpdateSectionTitle(s: nat, value: string)
      requires s < |sections|
      modifies this
      ensures title == old(title) && sections == WithSectionTitle(old(sections), s, value)
    {
      sections := WithSectionTitle(sections, s, value);
    }

    /** "+ Add Question"; the new question blocks saving until labelled. */
    method AddQuestion(s: nat)
      requires s < |sections|
      modifies this
      ensures title == old(title)
      ensures sections == WithQuestions(old(sections), s, old(sections)[s].questions + [NewQuestion()])
      ensures TotalQuestions(sections) == TotalQuestions(old(sections)) + 1
      ensures Validation(title, sections).Some?
    {
      AppendQuestionCounts(sections, s, NewQuestion());
      AddQuestionBlocksSave(title, sections, s);
      sections := WithQuestions(sections, s, sections[s].questions + [NewQuestion()]);
    }

    /** `questions.splice(qIdx, 1)`: one question fewer, none made faulty. */
    method DeleteQuestion(s: nat, q: nat)
      requires s < |sections| && q < |sections[s].questions|
      modifies this
      ensures title == old(title)
      ensures sections == WithQuestions(old(sections), s, RemoveAt(old(sections)[s].questions, q))
      ensures TotalQuestions(sections) == TotalQuestions(old(sections)) - 1
      ensures AllQuestionsOk(old(sections)) ==> AllQuestionsOk(sections)
    {
      RemoveQuestionCounts(sections, s, q);
      if AllQuestionsOk(sections) {
        DeleteKeepsQuestionsOk(sections, s, q);
      }
      sections := WithQuestions(sections, s, RemoveAt(sections[s].questions, q));
    }

    /** `updateQuestion(sIdx, qIdx, key, value)`: "choices" is split at
        commas and trimmed, other keys store the value as given. */
    method UpdateQuestion(s: nat, q: nat, key: string, value: string)
      requires s < |sections| && q < |sections[s].questions|
      modifies this
      ensures title == old(title)
      ensures TextEdit(key, value).Some? ==> sections == WithEdit(old(sections), s, q, TextEdit(key, value).value)
      ensures TextEdit(key, value).None? ==> sections == old(sections)
    {
      var e := TextEdit(key, value);
      if e.Some? {
        sections := WithEdit(sections, s, q, e.value);
      }
    }

    /** "+ Add Option": the choices and one empty choice, joined with ","
        and read back; choices without commas or surrounding white space
        come back unchanged, followed by "". */
    method AddOption(s: nat, q: nat)
      requires s < |sections| && q < |sections[s].questions|
      modifies this
      ensures title == old(title)
      ensures var cs := old(sections)[s].questions[q].choices;
              sections == WithEdit(old(sections), s, q, SetChoices(ParseChoices(Join(cs + [""], ","))))
      ensures var cs := old(sections)[s].questions[q].choices;
              PlainChoices(cs) ==> sections == WithEdit(old(sections), s, q, SetChoices(cs + [""]))
    {
      var cs := sections[s].questions[q].choices;
      if PlainChoices(cs) {
        AddOptionRoundTrip(cs);
      }
      UpdateQuestion(s, q, "choices", Join(cs + [""], ","));
    }

    /** Typing into option `o`: the choices with that entry replaced,
        joined and read back; for plain choices and a value without a comma
        only that option changes, to the value trimmed. */
    method EditOption(s: nat, q: nat, o: nat, value: string)
      requires s < |sections| && q < |sections[s].questions| && o < |sections[s].questions[q].choices|
      modifies this
      ensures title == old(title)
      ensures var cs := old(sections)[s].questions[q].choices;
              sections == WithEdit(old(sections), s, q, SetChoices(ParseChoices(Join(cs[o := value], ","))))
      ensures var cs := old(sections)[s].questions[q].choices;
              PlainChoices(cs) && ',' !in value ==> sections == WithEdit(old(sections), s, q, SetChoices(cs[o := Trim(value)]))
    {
      var cs := sections[s].questions[q].choices;
      if PlainChoices(cs) && ',' !in value {
        EditOptionRoundTrip(cs, o, value);
      }
      UpdateQuestion(s, q, "choices", Join(cs[o := value], ","));
    }

    /** `saveAssessment`, as in the other builder. */
    method Save(db: Db, nowIso: string) returns (r: SaveOutcome)
      requires db.Valid()
      modifies db`assessments
      ensures db.Valid()
      ensures (db.assessments, r) == Saved(old(db.assessments), EditTarget(), param, title, sections, nowIso)
    {
      var err := Validate(title, sections);
      if err.Some? {
        return Invalid(err.value);
      }
      if Editing() {
        var existing := db.assessments.Get(param.value);
        if existing.Some? {
          db.assessments := db.assessments.Update(param.value, Revised(existing.value, title, sections, nowIso));
        }
        r := Updated;
      } else {
        r := Added(db.assessments.next);
        db.assessments := db.assessments.Add(Drafted(param, title, sections, nowIso));
      }
    }
  }
}
