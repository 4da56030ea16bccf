/** Concrete runs of the store, stated over the action functions and over
    the store object. */
module Scenarios {
  import opened Types
  import opened State
  import opened Actions
  import opened Persistence
  import opened Store

  /** Editing the default note's content and saving it stores exactly that
      one note, saved, under the active id. */
  lemma EditThenSave()
    ensures UpdateNote(DefaultState("n1"), "n1", Patch(None, Some("hello"), None)).notes["n1"] ==
              Note("n1", "New Note", "hello", false)
    ensures Serialize(SaveNote(UpdateNote(DefaultState("n1"), "n1", Patch(None, Some("hello"), None)), "n1")) ==
              Snapshot(Some("n1"), [("n1", Note("n1", "New Note", "hello", true))])
  {
    var s := SaveNote(UpdateNote(DefaultState("n1"), "n1", Patch(None, Some("hello"), None)), "n1");
    assert s.order == ["n1"];
    assert Serialize(s).notes[0] == ("n1", Note("n1", "New Note", "hello", true));
  }

  /** With notes a and b and a active, closing a selects b and closing b
      leaves no selection. */
  lemma CloseActiveTwice()
    ensures RemoveNote(SetActiveNote(AddNote(DefaultState("a"), "b"), "a"), "a").activeNote == Some("b")
    ensures RemoveNote(RemoveNote(SetActiveNote(AddNote(DefaultState("a"), "b"), "a"), "a"), "b").activeNote == None
  {
    var s := SetActiveNote(AddNote(DefaultState("a"), "b"), "a");
    assert s.order == ["a", "b"];
    var t := RemoveNote(s, "a");
    assert t.order == ["b"];
    assert RemoveNote(t, "b").order == [];
  }

  /** The action sequence of `AddTwiceThenSave` over the functions: close
      the default note, add x, add y, save y. */
  lemma AddTwiceThenSaveStates()
    ensures "x" !in RemoveNote(DefaultState("first"), "first").notes
    ensures "y" !in AddNote(RemoveNote(DefaultState("first"), "first"), "x").notes
    ensures Serialize(SaveNote(AddNote(AddNote(RemoveNote(DefaultState("first"), "first"), "x"), "y"), "y")) ==
              Snapshot(Some("y"), [("x", NewNote("x")), ("y", Saved(NewNote("y")))])
  {
    var s1 := RemoveNote(DefaultState("first"), "first");
    assert s1.order == [];
    AddTwoToEmpty(s1);
    SaveSecond(AddNote(AddNote(s1, "x"), "y"));
  }

  lemma AddTwoToEmpty(s: AppState)
    requires IsMap(s) && s.order == []
    ensures "x" !in s.notes
    ensures "y" !in AddNote(s, "x").notes
    ensures AddNote(AddNote(s, "x"), "y").order == ["x", "y"]
    ensures AddNote(AddNote(s, "x"), "y").activeNote == Some("y")
    ensures AddNote(AddNote(s, "x"), "y").notes["x"] == NewNote("x")
    ensures AddNote(AddNote(s, "x"), "y").notes["y"] == NewNote("y")
  {
    assert "x" != "y" by {
      assert "x"[0] != "y"[0];
    }
    var s2 := AddNote(s, "x");
    assert s2.order == ["x"];
    var s3 := AddNote(s2, "y");
    assert s3.order[..1] == ["x"];
    assert s3.order == ["x", "y"];
  }

  lemma SaveSecond(s: AppState)
    requires IsMap(s) && s.order == ["x", "y"] && s.activeNote == Some("y")
    requires s.notes["x"] == NewNote("x") && s.notes["y"] == NewNote("y")
    ensures Serialize(SaveNote(s, "y")) ==
              Snapshot(Some("y"), [("x", NewNote("x")), ("y", Saved(NewNote("y")))])
  {
    assert "x" != "y" by {
      assert "x"[0] != "y"[0];
    }
    var t := SaveNote(s, "y");
    assert t.notes["x"] == NewNote("x");
    assert t.notes["y"] == Saved(NewNote("y"));
    assert Serialize(t).notes == [("x", NewNote("x")), ("y", Saved(NewNote("y")))];
  }

  /** The store object with nothing stored: closing the default note, two
      adds (the second one active), then the chord that saves it. The chord
      is prevented and the slot ends up holding both notes in the order they
      were added, only the active one saved. */
  method AddTwiceThenSave() returns (prevented: bool, slot: Option<StoredText>)
    ensures prevented
    ensures slot == Some(Document(Snapshot(Some("y"), [("x", NewNote("x")), ("y", Saved(NewNote("y")))])))
  {
    AddTwiceThenSaveStates();
    var store := new NoteStore(None, "first");
    store.RemoveNote("first");
    store.AddNote("x");
    store.AddNote("y");
    assert store.State() == AddNote(AddNote(RemoveNote(DefaultState("first"), "first"), "x"), "y");
    var e := Shortcuts.KeyEvent(true, false, false, "s");
    assert Shortcuts.IsSaveChord(e) && !Shortcuts.IsSaveAllChord(e);
    prevented := store.HandleKeydown(e);
    slot := store.stored;
  }
}
