/** The six store actions as functions from the state before to the state
    after. The `NoteStore` methods are proved to perform exactly these; the
    contracts here say what each action promises. Storage writes are stated
    by the methods. */
module Actions {
  import opened Types
  import opened OrderedMap
  import opened State

  /** `addNote`: the new note goes last, becomes active, and nothing that
      was there moves or changes. */
  function AddNote(s: AppState, newId: string): (r: AppState)
    requires IsMap(s) && newId !in s.notes
    ensures IsMap(r)
    ensures |r.order| == |s.order| + 1 && r.order[..|s.order|] == s.order && r.order[|s.order|] == newId
    ensures r.notes.Keys == s.notes.Keys + {newId}
    ensures forall k :: k in s.notes ==> r.notes[k] == s.notes[k]
    ensures r.notes[newId].id == newId && r.notes[newId].title == "New Note"
    ensures r.notes[newId].content == "" && !r.notes[newId].saved
    ensures r.activeNote == Some(newId)
    ensures Invariant(s) ==> Invariant(r)
  {
    var notes := Put(s.order, s.notes, newId, NewNote(newId));
    PutWellFormed(s.order, s.notes, newId, NewNote(newId));
    assert notes.0 == s.order + [newId];
    assert notes.0[..|s.order|] == s.order;
    AppState(Some(newId), notes.0, notes.1)
  }

  /** `updateNote`: on a key, the supplied fields overwrite that note's and
      nothing else moves; on any other id, nothing changes. */
  function UpdateNote(s: AppState, id: string, data: Patch): (r: AppState)
    requires IsMap(s)
    ensures IsMap(r)
    ensures id !in s.notes ==> r == s
    ensures r.order == s.order && r.activeNote == s.activeNote
    ensures r.notes.Keys == s.notes.Keys
    ensures forall k :: k in s.notes && k != id ==> r.notes[k] == s.notes[k]
    ensures id in s.notes ==> r.notes[id] == ApplyPatch(s.notes[id], data)
    ensures Invariant(s) ==> Invariant(r)
  {
    if id in s.notes then
      var notes := Put(s.order, s.notes, id, ApplyPatch(s.notes[id], data));
      s.(order := notes.0, notes := notes.1)
    else
      s
  }

  /** `removeNote`: the key goes, the others keep their notes, and a removed
      active note hands the selection to the first remaining key. */
  function RemoveNote(s: AppState, id: string): (r: AppState)
    requires IsMap(s)
    ensures IsMap(r)
    ensures r.notes.Keys == s.notes.Keys - {id}
    ensures forall k :: k in r.notes ==> r.notes[k] == s.notes[k]
    ensures id !in s.notes ==> r.order == s.order
    ensures s.activeNote == Some(id) && r.order == [] ==> r.activeNote == None
    ensures s.activeNote == Some(id) && r.order != [] ==> r.activeNote == Some(r.order[0])
    ensures s.activeNote != Some(id) ==> r.activeNote == s.activeNote
    ensures Invariant(s) ==> Invariant(r)
  {
    WithoutDistinct(s.order, id);
    var order := Without(s.order, id);
    var active :=
      if s.activeNote == Some(id) then (if order == [] then None else Some(order[0]))
      else s.activeNote;
    AppState(active, order, s.notes - {id})
  }

  /** Removing a key cuts exactly its position out of the order: every other
      key keeps its relative place. */
  lemma RemoveNoteCutsOut(s: AppState, id: string)
    requires IsMap(s) && id in s.notes
    ensures exists i :: 0 <= i < |s.order| && s.order[i] == id &&
                        RemoveNote(s, id).order == s.order[..i] + s.order[i + 1..]
  {
    var i :| 0 <= i < |s.order| && s.order[i] == id;
    WithoutCutsOut(s.order, i);
  }

  /** `setActiveNote`: selects a key, ignores anything else, never touches
      the notes. */
  function SetActiveNote(s: AppState, id: string): (r: AppState)
    ensures r.order == s.order && r.notes == s.notes
    ensures id in s.notes ==> r.activeNote == Some(id)
    ensures id !in s.notes ==> r == s
    ensures Invariant(s) ==> Invariant(r)
  {
    if id in s.notes then s.(activeNote := Some(id)) else s
  }

  /** `saveNote`: marks that one note saved, leaving its text, every other
      note, the order and the selection as they were. */
  function SaveNote(s: AppState, id: string): (r: AppState)
    requires IsMap(s)
    ensures IsMap(r)
    ensures id !in s.notes ==> r == s
    ensures r.order == s.order && r.activeNote == s.activeNote
    ensures r.notes.Keys == s.notes.Keys
    ensures forall k :: k in s.notes && k != id ==> r.notes[k] == s.notes[k]
    ensures id in s.notes ==> r.notes[id].saved
    ensures id in s.notes ==> r.notes[id].id == s.notes[id].id
    ensures id in s.notes ==> r.notes[id].title == s.notes[id].title
    ensures id in s.notes ==> r.notes[id].content == s.notes[id].content
    ensures Invariant(s) ==> Invariant(r)
  {
    if id in s.notes then
      var notes := Put(s.order, s.notes, id, Saved(s.notes[id]));
      s.(order := notes.0, notes := notes.1)
    else
      s
  }

  /** A note with its saved flag set. */
  function Saved(n: Note): Note
  {
    n.(saved := true)
  }

  /** `saveAllNotes`: every note is saved and otherwise unchanged, the keys,
      their order and the selection stay, and nothing is left unsaved. */
  function SaveAllNotes(s: AppState): (r: AppState)
    requires IsMap(s)
    ensures IsMap(r)
    ensures r.order == s.order && r.activeNote == s.activeNote
    ensures r.notes.Keys == s.notes.Keys
    ensures forall k :: k in r.notes ==> r.notes[k].saved
    ensures forall k :: k in r.notes ==>
              r.notes[k].id == s.notes[k].id && r.notes[k].title == s.notes[k].title &&
              r.notes[k].content == s.notes[k].content
    ensures !HasUnsaved(r)
    ensures Invariant(s) ==> Invariant(r)
  {
    var r := s.(notes := map k | k in s.notes :: Saved(s.notes[k]));
    HasUnsavedIffSomeUnsaved(r);
    r
  }

  /** Saving everything twice is saving it once. */
  lemma SaveAllNotesIdempotent(s: AppState)
    requires IsMap(s)
    ensures SaveAllNotes(SaveAllNotes(s)) == SaveAllNotes(s)
  {
    var once := SaveAllNotes(s);
    var twice := SaveAllNotes(once);
    assert twice.notes.Keys == once.notes.Keys;
    forall k | k in twice.notes ensures twice.notes[k] == once.notes[k] {
    }
  }
}
