/** The `NoteManager` class: an ordered list of notes. Each operation
    returns the list it leaves behind; where the source raises `ValueError`
    the model reports `Refused` (or `Err` for a query) with the same
    message. */
module NoteManager {
  import opened Outcomes
  import opened Documents
  import opened NoteEntity
  import Lists
  import Persistence
  import Dates

  const EmptyMessage := "No note entries."
  const DuplicateIdMessage := "This id already exists."
  const NoNoteByIdMessage := "No note entry with this id."

  /** The key the note list sits under in the file. */
  const ListKey := "Notes"

  predicate HasId(notes: seq<Note>, id: Val) {
    exists i :: 0 <= i < |notes| && notes[i].id == id
  }

  /** No two notes share an id. */
  predicate UniqueIds(notes: seq<Note>) {
    forall i, j :: 0 <= i < j < |notes| ==> notes[i].id != notes[j].id
  }

  /** Position `i` holds the first note with id `id`. */
  predicate IsFirstWithId(notes: seq<Note>, id: Val, i: int) {
    0 <= i < |notes| && notes[i].id == id && forall j :: 0 <= j < i ==> notes[j].id != id
  }

  function FirstWithId(notes: seq<Note>, id: Val): (i: nat)
    requires HasId(notes, id)
    ensures IsFirstWithId(notes, id, i)
  {
    match Lists.FirstIndex(notes, (n: Note) => n.id == id)
    case Some(i) => i
  }

  /** `display_all_notes`: the whole list, or a failure when it is empty. */
  function DisplayAllNotes(notes: seq<Note>): (r: Result<seq<Note>>)
    ensures r.Err? <==> |notes| == 0
    ensures r.Err? ==> r.msg == EmptyMessage
    ensures r.Ok? ==> r.value == notes
  {
    if notes == [] then Err(EmptyMessage) else Ok(notes)
  }

  /** `add_note`. A candidate whose id is taken is refused before it is
      validated; otherwise it is appended only if it validates, and the file
      is rewritten. The defaults are those of the source. */
  function AddNote(notes: seq<Note>, id: Val, category: string, date: string,
                   topic: string := DefaultTopic, note: string := DefaultNote): (r: Step<Note>)
    ensures r.outcome.Refused? ==> r.items == notes
    ensures HasId(notes, id) ==> r.outcome == Refused(DuplicateIdMessage)
    ensures !HasId(notes, id) && ValidateAll(Note(id, category, date, topic, note)).Invalid? ==>
              r.outcome == Refused(ValidateAll(Note(id, category, date, topic, note)).msg)
    ensures r.outcome.Applied? <==> !HasId(notes, id) && ValidateAll(Note(id, category, date, topic, note)).Valid?
    ensures r.outcome.Applied? ==>
              && r.outcome.saved
              && r.items == notes + [Note(id, category, date, topic, note)]
              && Dates.IsDate(date)
  {
    var candidate := Note(id, category, date, topic, note);
    if HasId(notes, candidate.id) then Step(notes, Refused(DuplicateIdMessage))
    else match ValidateAll(candidate)
      case Invalid(m) => Step(notes, Refused(m))
      case Valid => Step(notes + [candidate], Applied(true))
  }

  /** Adding keeps ids unique. */
  lemma AddNoteKeepsIdsUnique(notes: seq<Note>, id: Val, category: string, date: string,
                              topic: string, note: string)
    requires UniqueIds(notes)
    ensures UniqueIds(AddNote(notes, id, category, date, topic, note).items)
  {
  }

  /** `delete_note_by_id`: removes the first note with the id, keeps the
      rest in order, and rewrites the file. */
  function DeleteNoteById(notes: seq<Note>, noteId: Val): (r: Step<Note>)
    ensures !HasId(notes, noteId) ==> r == Step(notes, Refused(NoNoteByIdMessage))
    ensures HasId(notes, noteId) ==>
              && r.outcome == Applied(true)
              && |r.items| == |notes| - 1
              && exists i :: IsFirstWithId(notes, noteId, i) && r.items == notes[..i] + notes[i + 1..]
  {
    if !HasId(notes, noteId) then Step(notes, Refused(NoNoteByIdMessage))
    else Step(Lists.RemoveAt(notes, FirstWithId(notes, noteId)), Applied(true))
  }

  /** With unique ids, deleting by id removes the one note with that id,
      keeps every other note and keeps ids unique. */
  lemma DeleteNoteByIdRemovesId(notes: seq<Note>, noteId: Val)
    requires UniqueIds(notes)
    ensures !HasId(DeleteNoteById(notes, noteId).items, noteId)
    ensures UniqueIds(DeleteNoteById(notes, noteId).items)
    ensures forall n :: n in notes && n.id != noteId ==> n in DeleteNoteById(notes, noteId).items
  {
    if HasId(notes, noteId) {
      var i := FirstWithId(notes, noteId);
      var rest := DeleteNoteById(notes, noteId).items;
      assert rest == Lists.RemoveAt(notes, i);
      forall n | n in notes && n.id != noteId
        ensures n in rest
      {
        var k :| 0 <= k < |notes| && notes[k] == n;
        if k < i {
          assert rest[k] == n;
        } else {
          assert k > i;
          assert rest[k - 1] == n;
        }
      }
    }
  }

  /** The test `search_by_attribute` applies to each note. */
  function AttrIs(a: Attr, value: Val): (p: Note -> bool) {
    (n: Note) => Get(n, a) == value
  }

  /** The notes whose attribute `a` equals `value`, in list order. */
  function Matches(notes: seq<Note>, a: Attr, value: Val): (r: seq<Note>) {
    Lists.Filter(notes, AttrIs(a, value))
  }

  /** `search_by_attribute`: the notes whose attribute equals the value, in
      list order, or a failure naming the attribute and the value when there
      are none. */
  function SearchByAttribute(notes: seq<Note>, a: Attr, value: Val): (r: Result<seq<Note>>)
    ensures r.Err? <==> forall i :: 0 <= i < |notes| ==> Get(notes[i], a) != value
    ensures r.Err? ==> r.msg == "No entries found for " + a.Name() + " = " + Show(value)
    ensures r.Ok? ==> forall i :: 0 <= i < |r.value| ==> r.value[i] in notes && Get(r.value[i], a) == value
    ensures r.Ok? ==> forall i :: 0 <= i < |notes| && Get(notes[i], a) == value ==> notes[i] in r.value
  {
    var results := Matches(notes, a, value);
    if results == [] then Err("No entries found for " + a.Name() + " = " + Show(value))
    else Ok(results)
  }

  /** A search yields exactly the matching notes, in list order, each as
      often as the list holds it. */
  lemma SearchByAttributeSelects(notes: seq<Note>, a: Attr, value: Val)
    ensures SearchByAttribute(notes, a, value).Ok? ==>
              Lists.Selects(SearchByAttribute(notes, a, value).value, notes, AttrIs(a, value))
  {
    Lists.FilterSelects(notes, AttrIs(a, value));
  }

  /** Search results keep insertion order: after a successful add, a search
      finds what it found before, followed by the new note when it
      matches. */
  lemma SearchAfterAdd(notes: seq<Note>, id: Val, category: string, date: string,
                       topic: string, note: string, a: Attr, value: Val)
    requires AddNote(notes, id, category, date, topic, note).outcome.Applied?
    ensures Get(Note(id, category, date, topic, note), a) == value ==>
              SearchByAttribute(AddNote(notes, id, category, date, topic, note).items, a, value)
              == Ok(Matches(notes, a, value) + [Note(id, category, date, topic, note)])
    ensures Get(Note(id, category, date, topic, note), a) != value ==>
              SearchByAttribute(AddNote(notes, id, category, date, topic, note).items, a, value)
              == SearchByAttribute(notes, a, value)
  {
    var c := Note(id, category, date, topic, note);
    var added := AddNote(notes, id, category, date, topic, note).items;
    assert added == notes + [c];
    var p := AttrIs(a, value);
    Lists.FilterAppend(notes, [c], p);
    assert Matches(added, a, value) == Matches(notes, a, value) + Lists.Filter([c], p);
    if Get(c, a) == value {
      assert Lists.Filter([c], p) == [c];
      assert Matches(added, a, value) != [];
      assert SearchByAttribute(added, a, value) == Ok(Matches(added, a, value));
    } else {
      assert Lists.Filter([c], p) == [];
      assert Matches(added, a, value) == Matches(notes, a, value);
    }
  }

  /** `save_to_file`. */
  function SaveNotes(notes: seq<Note>): (doc: Doc) {
    Persistence.Save(ListKey, notes, ToDict)
  }

  /** `load_from_file`. */
  function LoadNotes(current: seq<Note>, doc: Doc): (r: Step<Note>) {
    Persistence.Load(current, doc, ListKey, FromDict)
  }

  /** The file after a call: rewritten with the new list exactly when the
      call saved. */
  function FileAfter(file: Doc, r: Step<Note>): (after: Doc) {
    Persistence.FileAfter(file, r, ListKey, ToDict)
  }

  /** Loading what was saved gives back the same notes, field for field. */
  lemma LoadSavedNotes(current: seq<Note>, notes: seq<Note>)
    ensures LoadNotes(current, SaveNotes(notes)) == Step(notes, Applied(false))
  {
    forall x: Note
      ensures FromDict(ToDict(x)) == Some(x)
    {
      FromToDict(x);
    }
    Persistence.LoadSaved(current, notes, ListKey, ToDict, FromDict);
  }

  /** Every successful mutation is persisted: reloading the file it leaves
      gives the list it left in memory. */
  lemma ReloadAfterMutation(file: Doc, notes: seq<Note>, id: Val, category: string, date: string,
                            topic: string, note: string, current: seq<Note>)
    ensures
      var r := AddNote(notes, id, category, date, topic, note);
      r.outcome.Applied? ==> LoadNotes(current, FileAfter(file, r)).items == r.items
    ensures
      var r := DeleteNoteById(notes, id);
      r.outcome.Applied? ==> LoadNotes(current, FileAfter(file, r)).items == r.items
  {
    LoadSavedNotes(current, AddNote(notes, id, category, date, topic, note).items);
    LoadSavedNotes(current, DeleteNoteById(notes, id).items);
  }
}
