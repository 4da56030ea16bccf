/** The two edit handlers of the note view: the update record each sends to
    `updateNote`, and what that update does to the displayed note. */
module NoteView {
  import opened Types
  import opened State
  import opened Actions
  import opened Persistence

  /** The title field's `onChange`: `{ title: value || 'Untitled', saved: false }`. */
  function TitleEdit(value: string): (p: Patch)
    ensures p.title.Some? && p.title.value != ""
    ensures value != "" ==> p.title.value == value
    ensures value == "" ==> p.title.value == "Untitled"
    ensures p.content.None? && p.saved == Some(false)
  {
    Patch(Some(if value == "" then "Untitled" else value), None, Some(false))
  }

  /** The content field's `onInput`: `{ content: value, saved: false }`,
      with no default for empty text. */
  function ContentEdit(value: string): (p: Patch)
    ensures p.content == Some(value)
    ensures p.title.None? && p.saved == Some(false)
  {
    Patch(None, Some(value), Some(false))
  }

  /** A title edit addressed to a key leaves the note under that key with a
      non-empty title (the typed one, or "Untitled" for none), its content
      and id as they were, and unsaved; no other note and neither order nor
      selection change. */
  lemma TitleEditEffect(s: AppState, id: string, value: string)
    requires IsMap(s) && id in s.notes
    ensures UpdateNote(s, id, TitleEdit(value)).notes[id].title ==
              (if value == "" then "Untitled" else value)
    ensures UpdateNote(s, id, TitleEdit(value)).notes[id].title != ""
    ensures UpdateNote(s, id, TitleEdit(value)).notes[id].content == s.notes[id].content
    ensures UpdateNote(s, id, TitleEdit(value)).notes[id].id == s.notes[id].id
    ensures !UpdateNote(s, id, TitleEdit(value)).notes[id].saved
    ensures forall k :: k in s.notes && k != id ==> UpdateNote(s, id, TitleEdit(value)).notes[k] == s.notes[k]
    ensures UpdateNote(s, id, TitleEdit(value)).order == s.order
    ensures UpdateNote(s, id, TitleEdit(value)).activeNote == s.activeNote
  {
    ApplyPatchFields(s.notes[id], TitleEdit(value));
  }

  /** A content edit addressed to a key stores the text as typed, even when
      empty, and leaves that note's title and id as they were and the note
      unsaved. */
  lemma ContentEditEffect(s: AppState, id: string, value: string)
    requires IsMap(s) && id in s.notes
    ensures UpdateNote(s, id, ContentEdit(value)).notes[id].content == value
    ensures UpdateNote(s, id, ContentEdit(value)).notes[id].title == s.notes[id].title
    ensures UpdateNote(s, id, ContentEdit(value)).notes[id].id == s.notes[id].id
    ensures !UpdateNote(s, id, ContentEdit(value)).notes[id].saved
    ensures forall k :: k in s.notes && k != id ==> UpdateNote(s, id, ContentEdit(value)).notes[k] == s.notes[k]
  {
    ApplyPatchFields(s.notes[id], ContentEdit(value));
  }

  /** No update, from these handlers or any other, changes an id. */
  lemma UpdateKeepsIds(s: AppState, id: string, data: Patch)
    requires IsMap(s)
    ensures forall k :: k in s.notes ==> UpdateNote(s, id, data).notes[k].id == s.notes[k].id
  {
    if id in s.notes {
      ApplyPatchFields(s.notes[id], data);
    }
  }

  /** The view shows the note under key k and addresses its edits to that
      note's own `id`. When every note sits under its own id, the edit
      lands on the displayed note. */
  lemma DisplayedNoteEdit(s: AppState, k: string, title: string, content: string)
    requires IsMap(s) && IdsMatch(s) && k in s.notes
    ensures UpdateNote(s, s.notes[k].id, TitleEdit(title)).notes[k].title ==
              (if title == "" then "Untitled" else title)
    ensures !UpdateNote(s, s.notes[k].id, TitleEdit(title)).notes[k].saved
    ensures UpdateNote(s, s.notes[k].id, ContentEdit(content)).notes[k].content == content
    ensures !UpdateNote(s, s.notes[k].id, ContentEdit(content)).notes[k].saved
  {
    TitleEditEffect(s, k, title);
    ContentEditEffect(s, k, content);
  }

  /** Loading does not check that each note sits under its own id. A
      document holding, under key "a", a note whose id is "b" loads as it
      is, and an edit of that displayed note, addressed to "b", is lost. */
  lemma MismatchedEditIsLost(freshId: string, value: string)
    ensures !IdsMatch(LoadState(Some(Document(Snapshot(Some("a"), [("a", Note("b", "t", "c", false))]))), freshId))
    ensures UpdateNote(LoadState(Some(Document(Snapshot(Some("a"), [("a", Note("b", "t", "c", false))]))), freshId),
                       "b", TitleEdit(value)) ==
              LoadState(Some(Document(Snapshot(Some("a"), [("a", Note("b", "t", "c", false))]))), freshId)
  {
    OneKey(Note("b", "t", "c", false));
    var s := LoadState(Some(Document(Snapshot(Some("a"), [("a", Note("b", "t", "c", false))]))), freshId);
    assert s.notes == map["a" := Note("b", "t", "c", false)];
    assert "a" != "b" by {
      assert "a"[0] != "b"[0];
    }
    assert s.notes["a"].id != "a";
  }
}
