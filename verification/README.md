# solid-notes: the note store, modelled in Dafny

solid-notes is a browser note editor. Its one piece of logic is the note store
in `src/context/AppContext.tsx`. The store holds a JavaScript `Map` from note id
to note `{id, title, content, saved}`, whose insertion order is the tab order,
and an optional active note id. It offers six actions: `addNote`, `updateNote`,
`removeNote`, `setActiveNote`, `saveNote` and `saveAllNotes`. The two save
actions also write a snapshot of the whole state to the app's local-storage
slot. At start-up the store is loaded from that slot, or falls back to a
default state holding one new note. A keydown handler maps Ctrl/Meta+S and
Ctrl/Meta+Shift+S to the save actions. A before-unload handler asks for
confirmation while any note is unsaved. The note view
(`src/components/Note.tsx`) turns title and content edits into `updateNote`
calls.

The model, file by file:

- `types.dfy` (`Types`): the note record, the partial update record (`Patch`,
  which has no `id` field), and object spread `{...note, ...data}` as `ApplyPatch`.
- `ordered_map.dfy` (`OrderedMap`): the `Map` behaviour the store relies on.
  A map is a key sequence plus a Dafny `map`. It covers `set` (`Put`), `entries`,
  the `Map` constructor (`FromEntries`), key filtering (`Without`), and the
  entries round trip.
- `app_state.dfy` (`State`): the state, its invariants, `defaultState`, and
  the unsaved-note predicate.
- `actions.dfy` (`Actions`): each action as a function from the old state to
  the new one. Its contract states the action's frame conditions and that it
  keeps the invariant.
- `persistence.dfy` (`Persistence`): `serializeState`, `deserializeState` and
  `loadState`, over the structure of the stored JSON document.
- `shortcuts.dfy` (`Shortcuts`): the keydown chord rule.
- `store.dfy` (`Store`): the store as a class. Its fields are updated in place
  by one method per action, plus the keydown and before-unload handlers. Each
  method is proved to compute the matching `Actions` function, and each save
  method to write `Serialize` of the new state into the slot. The loop of
  `saveAllNotes` over the keys is the method `MarkAllSaved`.
- `note_view.dfy` (`NoteView`): the two edit handlers, and what their updates do
  to the displayed note.
- `scenarios.dfy` (`Scenarios`): concrete example runs, over the action functions and over the store object.

Non-determinism and I/O become parameters. The id `nanoid()` would return is
passed in: `AddNote` requires it to be fresh, and `DefaultState` and
`LoadState` take the id their fall-back would use. The storage slot is the
class field `stored`. Its content is given in parsed form (`StoredText`):
text that does not parse, or a document `Snapshot(activeNote, notes)`.

Where one might expect the store to behave otherwise, the model follows the
code:

- One might expect `updateNote` to force `saved = false`. The code merges
  whatever fields it is given (`Actions.UpdateNote`). It is the two edit
  handlers that send `saved: false` (`NoteView.TitleEditEffect`,
  `NoteView.ContentEditEffect`). A direct `updateNote` with `title: ''` stores
  the empty title; only the title handler replaces it by "Untitled".
- One might expect loading a saved state to give it back for any reachable
  state. This fails for the empty store. With no active note,
  `JSON.stringify` drops `activeNote`, and `loadState` then falls back to a
  fresh default note (`Persistence.EmptyStoreReloadsAsDefault`). Every other
  reachable state does come back unchanged
  (`Persistence.ReloadRestoresReachable`).
- One might expect "the active id is a key" to hold always. Every action
  keeps it, but `loadState` only checks that `activeNote` is a string. A stored
  document can therefore load with a dangling selection
  (`Persistence.LoadedSelectionMayDangle`). `removeNote` compares the id with
  the active id before looking at the keys, so removing that dangling id
  repairs the selection.
- Loading likewise does not check that each note sits under its own id. The
  note view addresses its edits to the displayed note's `id`, so a note
  stored under another key cannot be edited. The edit changes nothing
  (`NoteView.MismatchedEditIsLost`), or, when some other key equals that id,
  changes the note under that key instead. With every note under its
  own id, the edits land on the displayed note (`NoteView.DisplayedNoteEdit`).
- The save-current shortcut tests `if (state.activeNote)`. An empty-string
  active id is falsy, so the shortcut does not save it (`Shortcuts.SaveTarget`).

## Model

| member | source | states |
|---|---|---|
| `Types.ApplyPatchFields` | src/context/AppContext.tsx:106 | merging an update keeps the id, takes exactly the supplied fields and keeps the others; merging twice equals merging once; the empty update changes nothing |
| `OrderedMap.PutWellFormed` | src/context/AppContext.tsx:96 | `Map.set` keeps every key listed exactly once |
| `OrderedMap.Entries` | src/context/AppContext.tsx:57 | the entries list has one pair per key, in key order, each with that key's value |
| `OrderedMap.FromEntries` | src/context/AppContext.tsx:65 | the `Map` built from any entries list is well formed and holds every key the list names (its other properties are the four `FromEntries…` lemmas below) |
| `OrderedMap.Without` | src/context/AppContext.tsx:118 | filtering out a key keeps exactly the other keys, and changes nothing when the key is absent |
| `OrderedMap.WithoutDistinct` | src/context/AppContext.tsx:113 | deleting a key leaves the remaining keys distinct |
| `OrderedMap.WithoutCutsOut` | src/context/AppContext.tsx:113 | deleting a key at position i removes exactly that position, so the other keys keep their relative order |
| `OrderedMap.FromEntriesOnlyListed` | src/context/AppContext.tsx:65 | the `Map` built from an entries list holds no key the list does not name |
| `OrderedMap.FromEntriesLastWins` | src/context/AppContext.tsx:65 | each key of the `Map` built from an entries list holds the value of the last entry naming it |
| `OrderedMap.FromEntriesFirstOrder` | src/context/AppContext.tsx:65 | the keys of the `Map` built from an entries list are ordered by their first entries: a key listed again later keeps its place |
| `OrderedMap.FromEntriesDistinctOrder` | src/context/AppContext.tsx:65 | an entries list without repeated keys builds a `Map` whose key order is exactly the list's |
| `OrderedMap.RoundTrip` | src/context/AppContext.tsx:54-67 | building a `Map` from a map's entries gives the same keys in the same order with the same values |
| `State.DefaultState` | src/context/AppContext.tsx:30-38 | the initial state holds one note, titled "New Note", with empty content and unsaved; that note is active; the state satisfies the store's invariants |
| `State.AnyUnsaved` | src/context/AppContext.tsx:169 | `some(note => !note.saved)` is true iff some entry is unsaved |
| `State.HasUnsavedIffSomeUnsaved` | src/context/AppContext.tsx:168-173 | the leave-page check is true iff some note in the map is unsaved |
| `Actions.AddNote` | src/context/AppContext.tsx:92-100 | a fresh id is appended last with a new, empty, unsaved "New Note"; it becomes active; every earlier key keeps its position and note; the invariants are kept |
| `Actions.UpdateNote` | src/context/AppContext.tsx:102-108 | on an absent id nothing changes; on a key only that note changes, to the merge of the supplied fields, and `saved` is not forced; order, keys, other notes and the active id are kept; the invariants are kept |
| `Actions.RemoveNote` | src/context/AppContext.tsx:110-125 | exactly that key is deleted and the other notes are kept; a removed active id passes to the first remaining key, or to none when no keys remain; otherwise the active id is kept; the invariants are kept |
| `Actions.RemoveNoteCutsOut` | src/context/AppContext.tsx:110-115 | removing a key cuts its own position out of the key order and keeps the rest in order |
| `Actions.SetActiveNote` | src/context/AppContext.tsx:127 | a key becomes active; any other id changes nothing; the notes and order are never touched; the invariants are kept |
| `Actions.SaveNote` | src/context/AppContext.tsx:140-148 | only that note becomes saved, with its id, title and content kept; an absent id changes nothing; order, keys, other notes and the active id are kept |
| `Actions.SaveAllNotes` | src/context/AppContext.tsx:129-138 | every note becomes saved, with its id, title and content kept; keys, order and the active id are kept; afterwards no note is unsaved |
| `Actions.SaveAllNotesIdempotent` | src/context/AppContext.tsx:129-138 | saving all twice equals saving all once |
| `Persistence.Serialize` | src/context/AppContext.tsx:54-59 | the snapshot carries the active id and one `[id, note]` pair per key, in key order |
| `Persistence.Deserialize` | src/context/AppContext.tsx:61-67 | a restored state is always a well-formed map, keeps the document's active id, and holds exactly the keys the document lists, in the order of their first pairs, each with the note of its last pair; a document without repeated keys loads in its own order |
| `Persistence.DuplicateKeyLoadsLastNote` | src/context/AppContext.tsx:65 | a document listing key "a" twice, around "b", loads "a" once, in first place, with the note of its last pair |
| `Persistence.LoadState` | src/context/AppContext.tsx:69-87 | loading gives the default state when nothing is stored, when the text does not parse, or when `activeNote` is not a string; otherwise it gives the deserialized document, unchecked |
| `Persistence.DeserializeSerialize` | src/context/AppContext.tsx:54-67 | deserializing a serialized state gives the same notes, in the same order, with the same active id |
| `Persistence.ReloadRestores` | src/context/AppContext.tsx:69-87 | reloading a stored snapshot whose active id is present restores the state exactly |
| `Persistence.ReloadRestoresReachable` | src/context/AppContext.tsx:69-87 | every state the actions reach, except the empty one, is restored exactly by a save and a reload |
| `Persistence.ReloadWithoutActiveIsDefault` | src/context/AppContext.tsx:74-86 | a snapshot with no active id reloads as the default state, whatever notes it held |
| `Persistence.EmptyStoreReloadsAsDefault` | src/context/AppContext.tsx:74-86 | closing the only note and saving all stores a snapshot that reloads as a fresh default note rather than as the empty store |
| `Persistence.LoadedSelectionMayDangle` | src/context/AppContext.tsx:74-80 | a loaded document can name an active id that is not a key, so the invariant is not guaranteed after loading |
| `Shortcuts.SaveTarget` | src/context/AppContext.tsx:155 | the save-current shortcut has a target iff the active id is present and non-empty, and the target is then that id |
| `Shortcuts.ChordsPartition` | src/context/AppContext.tsx:153-160 | no key event is both chords; with Ctrl/Meta and S, Shift alone selects save-all over save-current; without them neither fires |
| `Store.NoteStore.constructor` | src/context/AppContext.tsx:90 | the store starts in the state `loadState` gives for the slot's content, and the slot is left as it was |
| `Store.NoteStore.AddNote` | src/context/AppContext.tsx:92-100 | updates the fields to `Actions.AddNote` of the old state and leaves storage alone |
| `Store.NoteStore.UpdateNote` | src/context/AppContext.tsx:102-108 | updates the fields to `Actions.UpdateNote` of the old state and leaves storage alone |
| `Store.NoteStore.RemoveNote` | src/context/AppContext.tsx:110-125 | updates the fields to `Actions.RemoveNote` of the old state, picking the new active id from the filtered remaining keys, and leaves storage alone |
| `Store.NoteStore.SetActiveNote` | src/context/AppContext.tsx:127 | updates the fields to `Actions.SetActiveNote` of the old state and leaves storage alone |
| `Store.MarkAllSaved` | src/context/AppContext.tsx:131-134 | the `forEach` over the keys, setting each visited note saved, leaves every note of the map saved and otherwise unchanged |
| `Store.NoteStore.SaveAllNotes` | src/context/AppContext.tsx:129-138 | yields `Actions.SaveAllNotes` of the old state, and storage then holds the serialized new state |
| `Store.NoteStore.SaveNote` | src/context/AppContext.tsx:140-148 | yields `Actions.SaveNote` of the old state, and storage holds the serialized new state even when the id was absent |
| `Store.NoteStore.HandleKeydown` | src/context/AppContext.tsx:152-161 | either chord prevents the default; Ctrl/Meta+S saves the active note only when its id is truthy; Ctrl/Meta+Shift+S saves all; any other key changes neither state nor storage |
| `Store.NoteStore.BeforeUnload` | src/context/AppContext.tsx:168-174 | leaving is questioned exactly when some note is unsaved |
| `NoteView.TitleEdit` | src/components/Note.tsx:26-31 | a title edit sends a non-empty title: the typed text, or "Untitled" for none; it sends no content and `saved: false` |
| `NoteView.ContentEdit` | src/components/Note.tsx:37-39 | a content edit sends the typed text verbatim, even when empty; it sends no title and `saved: false` |
| `NoteView.TitleEditEffect` | src/components/Note.tsx:26-31 | after a title edit addressed to a key, the note under that key has a non-empty title; its content and id are kept and it is unsaved; no other note, nor the order or the selection, changes |
| `NoteView.ContentEditEffect` | src/components/Note.tsx:37-39 | after a content edit addressed to a key, the note under that key holds the typed text; its title and id are kept and it is unsaved; no other note changes |
| `NoteView.DisplayedNoteEdit` | src/components/Note.tsx:26-39 | the edits of the displayed note go to its own `id`; when every note sits under its own id they land on the displayed note |
| `NoteView.MismatchedEditIsLost` | src/context/AppContext.tsx:74-80 | a loaded document may hold a note under a key other than its id; an edit of that displayed note, addressed to its id, changes nothing |
| `NoteView.UpdateKeepsIds` | src/context/AppContext.tsx:22 | no update, whatever fields it supplies, changes any note's id |
| `Scenarios.EditThenSave` | src/context/AppContext.tsx:140-148 | editing the default note's content to "hello" and saving it stores exactly one saved note with that text under the active id |
| `Scenarios.CloseActiveTwice` | src/context/AppContext.tsx:117-123 | with notes a and b and a active, closing a selects b, and closing b then leaves no selection |
| `Scenarios.AddTwiceThenSaveStates` | src/context/AppContext.tsx:91-148 | over the action functions: closing the default note, adding x then y and saving y gives a snapshot with y active, x unsaved first and y saved second |
| `Scenarios.AddTwiceThenSave` | src/context/AppContext.tsx:89-161 | on the store object with nothing stored, closing the default note, adding x then y and pressing Ctrl+S prevents the default and stores x unsaved then y saved, with y active |

## Left out

- Store.NoteStore.AddNote: requires the new id to be fresh. A `nanoid()` collision, which `Map.set` would turn into overwriting an existing note in place, is not modelled.
- The JSON text, `JSON.stringify`/`JSON.parse` and the `localStorage` API are not modelled. Storage is one field holding the parsed document, or the fact that it did not parse. A document's note values are assumed to be note records: the source does not check their shape, and the model's types cannot express a malformed one.
- The reasons `loadState` falls back to the default are merged into the cases the parsed slot can express. An empty or missing slot is `None`. A parse error or a `notes` field the `Map` constructor rejects is `Unparsable`. A missing or non-string `activeNote` is a document whose `activeNote` is `None`.
- Solid's reactivity is not modelled: `createStore`, `createContext` with its no-op default actions, `createEffect`, `onMount`/`onCleanup`, and adding and removing the window listeners. Only the handlers' decisions are modelled. `preventDefault` is modelled as the boolean `HandleKeydown` returns, and the unload prompt as the boolean `BeforeUnload` returns.
- The `useApp` error when used outside the provider is not modelled. It is a check made while the components are wired together, not data logic.
- `src/components/Tabs.tsx`, `src/components/Editor.tsx` and `src/App.tsx` are not part of this model. They render the state and forward clicks to the actions. Two behaviours of the editor are therefore not modelled. Its "Save All" button reads `actions.saveAllNotes` without calling it, so the button saves nothing. And the editor decides only once, when it mounts, whether to render at all: it renders nothing for the whole session when the loaded active id is the empty string, and otherwise it shows a "No notes!" prompt with an Add Note button whenever the active id is not a key: once the last note is closed, or from the start when the loaded selection dangles.
- `Shortcuts.IsS` models `key.toLowerCase() === 's'` as the key being "s" or "S", without modelling Unicode case mapping in general.
