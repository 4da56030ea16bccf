/** The storage snapshot: `serializeState`, `deserializeState` and
    `loadState`. The JSON text is modelled by its structure; the storage
    slot (the one key `solid-notes-app`) by an `Option<StoredText>`. */
module Persistence {
  import opened Types
  import opened OrderedMap
  import opened State
  import opened Actions

  /** The stored document: `activeNote` when it is a string (`None` when the
      field is missing or holds anything else; JSON drops an `undefined`
      one) and the `[id, note]` pairs of `notes`. */
  datatype Snapshot = Snapshot(activeNote: Option<string>, notes: seq<(string, Note)>)

  /** What the slot holds, once read and parsed: text that JSON parsing or
      the `Map` constructor rejects, or a document. */
  datatype StoredText = Unparsable | Document(doc: Snapshot)

  /** `serializeState`: the active id and the notes' entries in key order. */
  function Serialize(s: AppState): (snap: Snapshot)
    requires IsMap(s)
    ensures snap.activeNote == s.activeNote
    ensures |snap.notes| == |s.order|
    ensures forall i :: 0 <= i < |s.order| ==>
              snap.notes[i].0 == s.order[i] && snap.notes[i].1 == s.notes[s.order[i]]
  {
    Snapshot(s.activeNote, Entries(s.order, s.notes))
  }

  /** `deserializeState`: `new Map(parsed.notes)` beside `parsed.activeNote`.
      The result is always a map, holding exactly the keys the document
      lists, in the order of their first pairs, each with the note of its
      last pair; a document without repeated keys loads in its own order. */
  function Deserialize(snap: Snapshot): (s: AppState)
    ensures IsMap(s)
    ensures s.activeNote == snap.activeNote
    ensures forall i :: 0 <= i < |snap.notes| ==> snap.notes[i].0 in s.notes
    ensures forall k :: k in s.notes ==> Lists(snap.notes, k)
    ensures forall i :: 0 <= i < |snap.notes| && IsLastPair(snap.notes, i) ==>
              s.notes[snap.notes[i].0] == snap.notes[i].1
    ensures forall a, b, i, j ::
              (0 <= a < b < |s.order| &&
               FirstAt(snap.notes, s.order[a], i) && FirstAt(snap.notes, s.order[b], j)) ==> i < j
    ensures Distinct(KeysOf(snap.notes)) ==> s.order == KeysOf(snap.notes)
  {
    FromEntriesOnlyListed(snap.notes);
    FromEntriesLastWins(snap.notes);
    FromEntriesFirstOrder(snap.notes);
    assert Distinct(KeysOf(snap.notes)) ==> FromEntries(snap.notes).0 == KeysOf(snap.notes) by {
      if Distinct(KeysOf(snap.notes)) {
        FromEntriesDistinctOrder(snap.notes);
      }
    }
    var notes := FromEntries(snap.notes);
    AppState(snap.activeNote, notes.0, notes.1)
  }

  /** A document listing a key twice, as hand-edited storage may, loads
      that key once, at the place of its first pair, with the note of its
      last pair. */
  lemma DuplicateKeyLoadsLastNote(a1: Note, b: Note, a2: Note)
    ensures Deserialize(Snapshot(Some("a"), [("a", a1), ("b", b), ("a", a2)])).order == ["a", "b"]
    ensures Deserialize(Snapshot(Some("a"), [("a", a1), ("b", b), ("a", a2)])).notes == map["a" := a2, "b" := b]
  {
    var e2: seq<(string, Note)> := [("a", a1), ("b", b)];
    var e3 := e2 + [("a", a2)];
    TwoKeys(a1, b);
    FromEntriesSnoc(e2, ("a", a2));
    assert "a" != "b" by {
      assert "a"[0] != "b"[0];
    }
    assert map["a" := a1, "b" := b]["a" := a2] == map["a" := a2, "b" := b];
    assert FromEntries(e3) == (["a", "b"], map["a" := a2, "b" := b]);
    assert e3 == [("a", a1), ("b", b), ("a", a2)];
  }

  lemma TwoKeys(a1: Note, b: Note)
    ensures FromEntries([("a", a1), ("b", b)]) == (["a", "b"], map["a" := a1, "b" := b])
  {
    var e1: seq<(string, Note)> := [("a", a1)];
    OneKey(a1);
    assert "a" != "b" by {
      assert "a"[0] != "b"[0];
    }
    FromEntriesSnoc(e1, ("b", b));
    assert e1 + [("b", b)] == [("a", a1), ("b", b)];
    assert ["a"] + ["b"] == ["a", "b"];
  }

  lemma OneKey(a1: Note)
    ensures FromEntries([("a", a1)]) == (["a"], map["a" := a1])
  {
    var e0: seq<(string, Note)> := [];
    FromEntriesSnoc(e0, ("a", a1));
    assert e0 + [("a", a1)] == [("a", a1)];
    var empty: seq<string> := [];
    assert empty + ["a"] == ["a"];
  }

  /** `loadState`, with the id the fall-back would generate passed in: a
      document whose `activeNote` is a string is taken as it is, anything
      else (nothing stored, text that does not parse, no string
      `activeNote`) gives the default state. */
  function LoadState(raw: Option<StoredText>, freshId: string): (s: AppState)
    ensures IsMap(s)
    ensures raw.None? || raw == Some(Unparsable) ==> s == DefaultState(freshId)
    ensures raw.Some? && raw.value.Document? && raw.value.doc.activeNote.None? ==>
              s == DefaultState(freshId)
    ensures raw.Some? && raw.value.Document? && raw.value.doc.activeNote.Some? ==>
              s == Deserialize(raw.value.doc) && s.activeNote == raw.value.doc.activeNote
  {
    match raw
    case None => DefaultState(freshId)
    case Some(Unparsable) => DefaultState(freshId)
    case Some(Document(doc)) =>
      if doc.activeNote.Some? then Deserialize(doc) else DefaultState(freshId)
  }

  /** Deserializing a serialized state gives back the same notes in the same
      order and the same active id. */
  lemma DeserializeSerialize(s: AppState)
    requires IsMap(s)
    ensures Deserialize(Serialize(s)) == s
  {
    RoundTrip(s.order, s.notes);
  }

  /** Reloading a snapshot whose active id is present restores the state. */
  lemma ReloadRestores(s: AppState, freshId: string)
    requires IsMap(s) && s.activeNote.Some?
    ensures LoadState(Some(Document(Serialize(s))), freshId) == s
  {
    DeserializeSerialize(s);
  }

  /** Every state the actions can reach, except the one with no notes, comes
      back unchanged from a save and a reload. */
  lemma ReloadRestoresReachable(s: AppState, freshId: string)
    requires Invariant(s) && s.order != []
    ensures LoadState(Some(Document(Serialize(s))), freshId) == s
  {
    ReloadRestores(s, freshId);
  }

  /** With no active id the snapshot carries no `activeNote`, and reloading
      it falls back to the default state, whatever notes it held. */
  lemma ReloadWithoutActiveIsDefault(s: AppState, freshId: string)
    requires IsMap(s) && s.activeNote.None?
    ensures LoadState(Some(Document(Serialize(s))), freshId) == DefaultState(freshId)
  {
  }

  /** Closing the only note and saving everything stores a snapshot that
      reloads as a fresh default note, not as the empty store. */
  lemma EmptyStoreReloadsAsDefault(id: string, freshId: string)
    ensures SaveAllNotes(RemoveNote(DefaultState(id), id)).order == []
    ensures LoadState(Some(Document(Serialize(SaveAllNotes(RemoveNote(DefaultState(id), id))))), freshId)
              == DefaultState(freshId)
    ensures LoadState(Some(Document(Serialize(SaveAllNotes(RemoveNote(DefaultState(id), id))))), freshId)
              != SaveAllNotes(RemoveNote(DefaultState(id), id))
  {
    var s := SaveAllNotes(RemoveNote(DefaultState(id), id));
    assert s.activeNote.None?;
    ReloadWithoutActiveIsDefault(s, freshId);
    assert DefaultState(freshId).order != s.order;
  }

  /** `loadState` checks only that `activeNote` is a string: a document
      naming a note it does not hold loads with a dangling selection. */
  lemma LoadedSelectionMayDangle(freshId: string)
    ensures !ActiveIsKey(LoadState(Some(Document(Snapshot(Some("gone"), []))), freshId))
  {
    var s := LoadState(Some(Document(Snapshot(Some("gone"), []))), freshId);
    assert s.notes == map[];
  }
}
