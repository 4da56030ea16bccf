/** The store's state (`AppContextProps`), its invariants, the initial state
    and the "is anything unsaved?" question asked before the page unloads. */
module State {
  import opened Types
  import opened OrderedMap

  /** The notes `Map` (its key order `order`, its values `notes`) and the
      active note id, `None` standing for `undefined`. */
  datatype AppState = AppState(activeNote: Option<string>, order: seq<string>, notes: map<string, Note>)

  /** The notes form a map: every key once, in insertion order. */
  predicate IsMap(s: AppState)
  {
    WellFormed(s.order, s.notes)
  }

  /** The store's invariant: the active id, when there is one, is a key. */
  predicate ActiveIsKey(s: AppState)
  {
    s.activeNote.Some? ==> s.activeNote.value in s.notes
  }

  /** Every note sits under its own id. */
  predicate IdsMatch(s: AppState)
  {
    forall k :: k in s.notes ==> s.notes[k].id == k
  }

  /** The selection is absent only when there are no notes. */
  predicate SelectsWhenNonEmpty(s: AppState)
  {
    s.activeNote.None? ==> s.order == []
  }

  /** All of the above: what every state built by the store's own actions
      satisfies. */
  predicate Invariant(s: AppState)
  {
    IsMap(s) && ActiveIsKey(s) && IdsMatch(s) && SelectsWhenNonEmpty(s)
  }

  /** The note `addNote` and the initial state create. */
  function NewNote(id: string): Note
  {
    Note(id, "New Note", "", false)
  }

  /** `defaultState()`, with the id nanoid would generate passed in. */
  function DefaultState(id: string): (s: AppState)
    ensures Invariant(s)
    ensures s.order == [id] && s.activeNote == Some(id)
    ensures s.notes[id].title == "New Note" && s.notes[id].content == "" && !s.notes[id].saved
  {
    var notes := Put([], map[], id, NewNote(id));
    AppState(Some(id), notes.0, notes.1)
  }

  /** `values.some(note => !note.saved)`, over the pairs of the map in order. */
  function AnyUnsaved(entries: seq<(string, Note)>): (r: bool)
    ensures r <==> exists i :: 0 <= i < |entries| && !entries[i].1.saved
  {
    if entries == [] then false
    else !entries[0].1.saved || AnyUnsaved(entries[1..])
  }

  /** The question the before-unload handler asks: is some note unsaved? */
  function HasUnsaved(s: AppState): bool
    requires IsMap(s)
  {
    AnyUnsaved(Entries(s.order, s.notes))
  }

  /** The leave-page warning fires exactly when some note is unsaved. */
  lemma HasUnsavedIffSomeUnsaved(s: AppState)
    requires IsMap(s)
    ensures HasUnsaved(s) <==> exists k :: k in s.notes && !s.notes[k].saved
  {
    var e := Entries(s.order, s.notes);
    if exists k :: k in s.notes && !s.notes[k].saved {
      var k :| k in s.notes && !s.notes[k].saved;
      var i :| 0 <= i < |s.order| && s.order[i] == k;
      assert !e[i].1.saved;
    }
    if HasUnsaved(s) {
      var i :| 0 <= i < |e| && !e[i].1.saved;
      assert s.order[i] in s.notes && !s.notes[s.order[i]].saved;
    }
  }
}
