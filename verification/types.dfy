/** The records the note store works with. */
module Types {

  datatype Option<+T> = None | Some(value: T)

  /** A note: an opaque id, a display title, free text and the saved flag. */
  datatype Note = Note(id: string, title: string, content: string, saved: bool)

  /** The partial record `updateNote` accepts: any of the fields other than
      `id`, each either supplied (`Some`) or left out (`None`). Having no `id`
      field, no update can change a note's id. */
  datatype Patch = Patch(title: Option<string>, content: Option<string>, saved: Option<bool>)

  /** The patch that supplies nothing. */
  const EmptyPatch := Patch(None, None, None)

  /** Object spread `{ ...note, ...data }`: each supplied field overrides the
      note's, everything else is kept. */
  function ApplyPatch(n: Note, p: Patch): Note
  {
    Note(n.id,
         if p.title.Some? then p.title.value else n.title,
         if p.content.Some? then p.content.value else n.content,
         if p.saved.Some? then p.saved.value else n.saved)
  }

  /** Applying a patch keeps the id, takes exactly the supplied fields and
      keeps the rest; applying it a second time changes nothing. */
  lemma ApplyPatchFields(n: Note, p: Patch)
    ensures ApplyPatch(n, p).id == n.id
    ensures p.title.Some? ==> ApplyPatch(n, p).title == p.title.value
    ensures p.title.None? ==> ApplyPatch(n, p).title == n.title
    ensures p.content.Some? ==> ApplyPatch(n, p).content == p.content.value
    ensures p.content.None? ==> ApplyPatch(n, p).content == n.content
    ensures p.saved.Some? ==> ApplyPatch(n, p).saved == p.saved.value
    ensures p.saved.None? ==> ApplyPatch(n, p).saved == n.saved
    ensures ApplyPatch(ApplyPatch(n, p), p) == ApplyPatch(n, p)
    ensures ApplyPatch(n, EmptyPatch) == n
  {
  }
}
