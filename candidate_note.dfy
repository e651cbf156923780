/**
 * The notes panel of a candidate (src/components/candidate/CandidateNote.jsx):
 * the list of notes the page holds, the text being typed, and the note
 * being edited. Each handler is a function from the state before the click
 * to the state after it. `Date.now()` is the parameter `now` and the ISO
 * time string the parameter `nowIso`.
 */
module CandidateNote {
  import opened Wrappers
  import opened Text
  import opened Lists

  /** A note as the panel stores it; its key is the `Date.now()` of the
      click that added it. */
  datatype UiNote = UiNote(id: int, candidateId: int, text: string, createdAt: string)

  function NoteId(): UiNote -> int
  {
    (n: UiNote) => n.id
  }

  /** `addNote`: a blank input (`!note.trim()`) changes nothing; otherwise
      the note is appended with the click time as its key and the input is
      cleared. Returns the notes and the input. */
  function AddNote(notes: seq<UiNote>, draft: string, candidateId: int, now: int, nowIso: string)
    : (r: (seq<UiNote>, string))
    ensures AllSpace(draft) ==> r == (notes, draft)
    ensures !AllSpace(draft) ==>
              && r.1 == ""
              && |r.0| == |notes| + 1 && r.0[..|notes|] == notes
              && r.0[|notes|] == UiNote(now, candidateId, draft, nowIso)
  {
    TrimEmptyIff(draft);
    if Trim(draft) == "" then (notes, draft)
    else (notes + [UiNote(now, candidateId, draft, nowIso)], "")
  }

  /** `deleteNote`: every note with the key goes, the others stay in order. */
  function DeleteNote(notes: seq<UiNote>, id: int): (r: seq<UiNote>)
    ensures |r| <= |notes|
  {
    WithoutKey(notes, NoteId(), id)
  }

  /** The notes a deletion keeps are exactly the ones with another key;
      when keys are distinct it removes the one note with the key at its
      place. */
  lemma DeleteNoteSpec(notes: seq<UiNote>, id: int)
    ensures forall n :: n in DeleteNote(notes, id) <==> n in notes && n.id != id
    ensures forall i :: 0 <= i < |notes| && notes[i].id == id && DistinctKeys(notes, NoteId()) ==>
              DeleteNote(notes, id) == RemoveAt(notes, i)
  {
    WithoutKeyIn(notes, NoteId(), id);
    forall i | 0 <= i < |notes| && notes[i].id == id && DistinctKeys(notes, NoteId())
      ensures DeleteNote(notes, id) == RemoveAt(notes, i)
    {
      FilterOutUnique(notes, NoteId(), id, i);
    }
  }

  /** Deleting the note just added, when no earlier note had its key,
      gives back the notes from before. */
  lemma AddThenDelete(notes: seq<UiNote>, draft: string, candidateId: int, now: int, nowIso: string)
    requires forall i :: 0 <= i < |notes| ==> notes[i].id != now
    ensures DeleteNote(AddNote(notes, draft, candidateId, now, nowIso).0, now) == notes
  {
    WithoutKeyAbsent(notes, NoteId(), now);
    if !AllSpace(draft) {
      var added := UiNote(now, candidateId, draft, nowIso);
      WithoutKeyAppend(notes, [added], NoteId(), now);
      WithoutKeyCons(added, [], NoteId(), now);
      assert [added] == [added] + [];
    }
  }

  /** The notes with the text of every note keyed `id` replaced. */
  function Retext(notes: seq<UiNote>, id: int, text: string): (r: seq<UiNote>)
    ensures |r| == |notes|
    ensures forall i :: 0 <= i < |r| ==>
              && r[i].id == notes[i].id && r[i].candidateId == notes[i].candidateId
              && r[i].createdAt == notes[i].createdAt
              && r[i].text == (if notes[i].id == id then text else notes[i].text)
  {
    if notes == [] then []
    else [if notes[0].id == id then notes[0].(text := text) else notes[0]] + Retext(notes[1..], id, text)
  }

  /** `updateNote`: a blank edited text changes nothing and keeps the edit
      dialog open; otherwise the notes with the edited key take the new
      text and the dialog closes. Returns the notes and the note being
      edited. */
  function UpdateNote(notes: seq<UiNote>, edit: UiNote): (r: (seq<UiNote>, Option<UiNote>))
    ensures AllSpace(edit.text) ==> r == (notes, Some(edit))
    ensures !AllSpace(edit.text) ==> r == (Retext(notes, edit.id, edit.text), None)
  {
    TrimEmptyIff(edit.text);
    if Trim(edit.text) == "" then (notes, Some(edit))
    else (Retext(notes, edit.id, edit.text), None)
  }

  /** An edit touches only the notes it names: deleting that key after an
      edit gives what deleting it before would have. */
  lemma {:induction false} RetextThenDelete(notes: seq<UiNote>, id: int, text: string)
    ensures DeleteNote(Retext(notes, id, text), id) == DeleteNote(notes, id)
  {
    if notes != [] {
      RetextThenDelete(notes[1..], id, text);
      var head := if notes[0].id == id then notes[0].(text := text) else notes[0];
      WithoutKeyCons(head, Retext(notes[1..], id, text), NoteId(), id);
      WithoutKeyCons(notes[0], notes[1..], NoteId(), id);
      assert notes == [notes[0]] + notes[1..];
    }
  }

  /** Editing a note and then saving its text again changes nothing more. */
  lemma {:induction false} RetextIdempotent(notes: seq<UiNote>, id: int, text: string)
    ensures Retext(Retext(notes, id, text), id, text) == Retext(notes, id, text)
  {
    if notes != [] {
      RetextIdempotent(notes[1..], id, text);
    }
  }
}
