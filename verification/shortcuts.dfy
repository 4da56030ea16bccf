/** The keyboard rule of the keydown handler: which chord saves the active
    note and which saves them all. */
module Shortcuts {
  import opened Types

  /** The fields of a `KeyboardEvent` the handler reads. */
  datatype KeyEvent = KeyEvent(ctrlKey: bool, metaKey: bool, shiftKey: bool, key: string)

  /** `key.toLowerCase() === 's'`; "s" and "S" are the only strings that
      lower-case to "s". */
  predicate IsS(key: string)
  {
    key == "s" || key == "S"
  }

  /** Ctrl or Meta with S and no Shift: save the active note. */
  predicate IsSaveChord(e: KeyEvent)
  {
    (e.ctrlKey || e.metaKey) && IsS(e.key) && !e.shiftKey
  }

  /** Ctrl or Meta with Shift and S: save every note. */
  predicate IsSaveAllChord(e: KeyEvent)
  {
    (e.ctrlKey || e.metaKey) && e.shiftKey && IsS(e.key)
  }

  /** `if (state.activeNote)`: the id to save, given only when the active id
      is truthy, that is present and not the empty string. */
  function SaveTarget(active: Option<string>): (r: Option<string>)
    ensures r.Some? <==> active.Some? && active.value != ""
    ensures r.Some? ==> r == active
  {
    match active
    case Some(id) => if id != "" then active else None
    case None => None
  }

  /** No chord does both; with a modifier and S held, Shift alone decides
      which of the two it is; without a modifier or S it is neither. */
  lemma ChordsPartition(e: KeyEvent)
    ensures !(IsSaveChord(e) && IsSaveAllChord(e))
    ensures (e.ctrlKey || e.metaKey) && IsS(e.key) ==>
              (IsSaveAllChord(e) <==> e.shiftKey) && (IsSaveChord(e) <==> !e.shiftKey)
    ensures !(e.ctrlKey || e.metaKey) || !IsS(e.key) ==> !IsSaveChord(e) && !IsSaveAllChord(e)
  {
  }
}
