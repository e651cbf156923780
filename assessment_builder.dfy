/**
 * The assessment builder page (src/components/assessment/AssessmentBuilder.jsx):
 * a form holding a title and a list of sections of questions, loaded from
 * the browser database in edit mode and saved back after validation.
 */
module AssessmentBuilder {
  import opened Wrappers
  import opened Lists
  import opened Store
  import opened Database
  import opened AssessmentForms

  /** The builder's state. `mode` and `param` are fixed when the page
      mounts: `param` is `Number(id)` for the route's `id`, `None` when the
      route has none; it names the assessment in edit mode and the job in
      create mode. */
  class Builder {
    const mode: string
    const param: Option<int>
    var title: string
    var sections: seq<Section>

    constructor(mode: string, param: Option<int>)
      ensures this.mode == mode && this.param == param
      ensures title == "" && sections == [EmptySection()]
    {
      this.mode := mode;
      this.param := param;
      title := "";
      sections := [EmptySection()];
    }

    /** `mode === "edit" && id`. */
    predicate Editing()
    {
      mode == "edit" && param.Some?
    }

    /** The assessment a save updates: the route's one in edit mode. */
    function EditTarget(): Option<int>
    {
      if Editing() then param else None
    }

    /** The effect that fills the form from the stored assessment in edit
        mode; a missing record leaves the form as it is. */
    method Load(db: Db)
      requires db.Valid()
      modifies this
      ensures var t := db.assessments;
              if Editing() && param.value in t.vals then
                title == t.vals[param.value].title && sections == LoadedSections(t.vals[param.value])
              else
                title == old(title) && sections == old(sections)
    {
      if Editing() {
        var existing := db.assessments.Get(param.value);
        if existing.Some? {
          title := existing.value.title;
          sections := LoadedSections(existing.value);
        }
      }
    }

    /** "+ Add Section". */
    method AddSection()
      modifies this
      ensures title == old(title) && sections == old(sections) + [EmptySection()]
      ensures Validation(title, sections) == Validation(old(title), old(sections))
    {
      AddSectionKeepsValidation(title, sections);
      sections := sections + [EmptySection()];
    }

    method UpdateSectionTitle(s: nat, value: string)
      requires s < |sections|
      modifies this
      ensures title == old(title) && sections == WithSectionTitle(old(sections), s, value)
    {
      sections := WithSectionTitle(sections, s, value);
    }

    /** "+ Add Question": an unlabelled short-text question at the end of
        section `s`, which blocks saving until it is labelled. */
    method AddQuestion(s: nat)
      requires s < |sections|
      modifies this
      ensures title == old(title)
      ensures sections == WithQuestions(old(sections), s, old(sections)[s].questions + [NewQuestion()])
      ensures TotalQuestions(sections) == TotalQuestions(old(sections)) + 1
      ensures Validation(title, sections).Some?
    {
      AppendQuestionCounts(sections, s, NewQuestion());
      AddQuestionBlocksSave(title, sections, s);
      sections := WithQuestions(sections, s, sections[s].questions + [NewQuestion()]);
    }

    /** `updateQuestion`: the value is stored under its key as given. */
    method UpdateQuestion(s: nat, q: nat, e: QuestionEdit)
      requires s < |sections| && q < |sections[s].questions|
      modifies this
      ensures title == old(title) && sections == WithEdit(old(sections), s, q, e)
      ensures TotalQuestions(sections) == TotalQuestions(old(sections))
    {
      WithEditKeepsOthers(sections, s, q, e);
      sections := WithEdit(sections, s, q, e);
    }

    /** The type select: sets the type and, when a choice type is chosen
        for a question without choices, seeds "Option 1". */
    method ChangeType(s: nat, q: nat, value: string)
      requires s < |sections| && q < |sections[s].questions|
      modifies this
      ensures title == old(title)
      ensures sections == WithQuestions(old(sections), s, old(sections)[s].questions[q := Retyped(old(sections)[s].questions[q], value)])
    {
      UpdateQuestion(s, q, SetType(value));
      if IsChoiceType(value) && |sections[s].questions[q].choices| == 0 {
        WithEditTwice(old(sections), s, q, SetType(value), SetChoices(["Option 1"]));
        UpdateQuestion(s, q, SetChoices(["Option 1"]));
      }
    }

    /** "+ Add Option": an empty choice at the end. */
    method AddOption(s: nat, q: nat)
      requires s < |sections| && q < |sections[s].questions|
      modifies this
      ensures title == old(title)
      ensures sections == WithEdit(old(sections), s, q, SetChoices(old(sections)[s].questions[q].choices + [""]))
    {
      UpdateQuestion(s, q, SetChoices(sections[s].questions[q].choices + [""]));
    }

    /** Typing into option `o`: the choices array with that entry replaced. */
    method EditOption(s: nat, q: nat, o: nat, value: string)
      requires s < |sections| && q < |sections[s].questions| && o < |sections[s].questions[q].choices|
      modifies this
      ensures title == old(title)
      ensures sections == WithEdit(old(sections), s, q, SetChoices(old(sections)[s].questions[q].choices[o := value]))
    {
      UpdateQuestion(s, q, SetChoices(sections[s].questions[q].choices[o := value]));
    }

    /** "Remove" on option `o`: `choices.splice(o, 1)`, which does nothing
        for an index past the end. */
    method RemoveOption(s: nat, q: nat, o: nat)
      requires s < |sections| && q < |sections[s].questions|
      modifies this
      ensures title == old(title)
      ensures var cs := old(sections)[s].questions[q].choices;
              sections == WithEdit(old(sections), s, q, SetChoices(if o < |cs| then RemoveAt(cs, o) else cs))
    {
      var cs := sections[s].questions[q].choices;
      UpdateQuestion(s, q, SetChoices(if o < |cs| then RemoveAt(cs, o) else cs));
    }

    /** `saveAssessment`: the form is validated, then updated in place in
        edit mode or added for the route's job; the database is left as
        it was when validation refuses. */
    method Save(db: Db, nowIso: string) returns (r: SaveOutcome)
      requires db.Valid()
      modifies db`assessments
      ensures db.Valid()
      ensures (db.assessments, r) == Saved(old(db.assessments), EditTarget(), param, title, sections, nowIso)
    {
      var err := Validate(title, sections);
      if err.Some? {
        return Invalid(err.value);
      }
      if Editing() {
        var existing := db.assessments.Get(param.value);
        if existing.Some? {
          db.assessments := db.assessments.Update(param.value, Revised(existing.value, title, sections, nowIso));
        }
        r := Updated;
      } else {
        r := Added(db.assessments.next);
        db.assessments := db.assessments.Add(Drafted(param, title, sections, nowIso));
      }
    }
  }

  /** The question after the type select: the new type, and "Option 1"
      seeded when a choice type is chosen for a question without choices,
      so that a choice question never starts without an option. */
  function Retyped(q: Question, value: string): (r: Question)
    ensures r.qtype == value && r.text == q.text && r.required == q.required
    ensures q.choices != [] ==> r.choices == q.choices
    ensures IsChoiceType(value) && q.choices == [] ==> r.choices == ["Option 1"]
    ensures !IsChoiceType(value) ==> r.choices == q.choices
    ensures IsChoiceType(value) ==> QuestionError(r) != Some(NeedsOption)
  {
    var t := q.(qtype := value);
    if IsChoiceType(value) && |q.choices| == 0 then t.(choices := ["Option 1"]) else t
  }
}
