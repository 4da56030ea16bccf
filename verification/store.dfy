/** The store `AppProvider` creates: its two fields, updated in place by
    the actions, and the storage slot the save actions overwrite. Each
    action is proved to compute the function of the same name in `Actions`. */
module Store {
  import opened Types
  import opened OrderedMap
  import opened State
  import Actions
  import opened Persistence
  import opened Shortcuts

  /** The `forEach` of `saveAllNotes`: visits the keys in order and sets
      each one to its note with `saved: true`. Every key of the map is
      visited, so every note ends up saved and otherwise as it was. */
  method MarkAllSaved(keys: seq<string>, m: map<string, Note>) returns (r: map<string, Note>)
    requires forall k :: k in keys ==> k in m
    requires forall k :: k in m ==> k in keys
    ensures r == map k | k in m :: Actions.Saved(m[k])
  {
    r := m;
    var i := 0;
    while i < |keys|
      invariant 0 <= i <= |keys|
      invariant r.Keys == m.Keys
      invariant forall k :: k in r ==> r[k] == m[k] || r[k] == Actions.Saved(m[k])
      invariant forall j :: 0 <= j < i ==> r[keys[j]] == Actions.Saved(m[keys[j]])
    {
      var id := keys[i];
      r := r[id := Actions.Saved(r[id])];
      i := i + 1;
    }
    forall k | k in m ensures r[k] == Actions.Saved(m[k]) {
      var j :| 0 <= j < |keys| && keys[j] == k;
    }
  }

  class NoteStore {
    /** The notes `Map`: its keys in insertion order and its values. */
    var order: seq<string>
    var notes: map<string, Note>
    var activeNote: Option<string>
    /** The local-storage slot of the app. */
    var stored: Option<StoredText>

    function State(): AppState
      reads this
    {
      AppState(activeNote, order, notes)
    }

    predicate Valid()
      reads this
    {
      IsMap(State())
    }

    /** `createStore(loadState())`, reading the slot. */
    constructor (slot: Option<StoredText>, freshId: string)
      ensures Valid()
      ensures State() == LoadState(slot, freshId) && stored == slot
    {
      var s := LoadState(slot, freshId);
      order, notes, activeNote := s.order, s.notes, s.activeNote;
      stored := slot;
    }

    method AddNote(newId: string)
      requires Valid() && newId !in notes
      modifies this
      ensures Valid() && State() == Actions.AddNote(old(State()), newId)
      ensures stored == old(stored)
    {
      var newNotes := Put(order, notes, newId, NewNote(newId));
      order, notes := newNotes.0, newNotes.1;
      activeNote := Some(newId);
    }

    method UpdateNote(id: string, data: Patch)
      requires Valid()
      modifies this
      ensures Valid() && State() == Actions.UpdateNote(old(State()), id, data)
      ensures stored == old(stored)
    {
      if id in notes {
        var newNotes := Put(order, notes, id, ApplyPatch(notes[id], data));
        order, notes := newNotes.0, newNotes.1;
      }
    }

    method RemoveNote(id: string)
      requires Valid()
      modifies this
      ensures Valid() && State() == Actions.RemoveNote(old(State()), id)
      ensures stored == old(stored)
    {
      WithoutDistinct(order, id);
      order, notes := Without(order, id), notes - {id};
      if activeNote == Some(id) {
        // the remaining keys, filtered once more as the handler does
        var remaining := Without(order, id);
        if |remaining| > 0 {
          activeNote := Some(remaining[0]);
        } else {
          activeNote := None;
        }
      }
    }

    method SetActiveNote(id: string)
      requires Valid()
      modifies this
      ensures Valid() && State() == Actions.SetActiveNote(old(State()), id)
      ensures stored == old(stored)
    {
      if id in notes {
        activeNote := Some(id);
      }
    }

    /** Saves everything: marks each note in key order on a copy, writes the
        snapshot of the new state, then installs the new notes. */
    method SaveAllNotes()
      requires Valid()
      modifies this
      ensures Valid() && State() == Actions.SaveAllNotes(old(State()))
      ensures stored == Some(Document(Serialize(State())))
    {
      var newNotes := MarkAllSaved(order, notes);
      stored := Some(Document(Serialize(AppState(activeNote, order, newNotes))));
      notes := newNotes;
    }

    /** Saves one note, and writes the snapshot even when the id is not a key. */
    method SaveNote(id: string)
      requires Valid()
      modifies this
      ensures Valid() && State() == Actions.SaveNote(old(State()), id)
      ensures stored == Some(Document(Serialize(State())))
    {
      var newOrder, newNotes := order, notes;
      if id in notes {
        var next := Put(order, notes, id, Actions.Saved(notes[id]));
        newOrder, newNotes := next.0, next.1;
      }
      stored := Some(Document(Serialize(AppState(activeNote, newOrder, newNotes))));
      order, notes := newOrder, newNotes;
    }

    /** The keydown handler: Ctrl/Meta+S saves the active note when its id is
        truthy, Ctrl/Meta+Shift+S saves them all; either chord prevents the
        browser's default. */
    method HandleKeydown(e: KeyEvent) returns (prevented: bool)
      requires Valid()
      modifies this
      ensures Valid()
      ensures prevented == (IsSaveChord(e) || IsSaveAllChord(e))
      ensures IsSaveChord(e) && SaveTarget(old(activeNote)).Some? ==>
                State() == Actions.SaveNote(old(State()), old(activeNote).value) &&
                stored == Some(Document(Serialize(State())))
      ensures IsSaveAllChord(e) ==>
                State() == Actions.SaveAllNotes(old(State())) &&
                stored == Some(Document(Serialize(State())))
      ensures !(IsSaveChord(e) && SaveTarget(old(activeNote)).Some?) && !IsSaveAllChord(e) ==>
                State() == old(State()) && stored == old(stored)
    {
      prevented := false;
      if IsSaveChord(e) {
        prevented := true;
        var target := SaveTarget(activeNote);
        if target.Some? {
          SaveNote(target.value);
        }
      }
      if IsSaveAllChord(e) {
        prevented := true;
        SaveAllNotes();
      }
    }

    /** The before-unload handler: ask to confirm leaving exactly when some
        note is unsaved. */
    method BeforeUnload() returns (confirm: bool)
      requires Valid()
      ensures confirm <==> exists k :: k in notes && !notes[k].saved
    {
      confirm := HasUnsaved(State());
      HasUnsavedIffSomeUnsaved(State());
    }
  }
}
