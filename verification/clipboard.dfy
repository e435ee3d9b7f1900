/**
 * The clipboard guard of src/usecase/clipboard/clipboard.go as a state machine. The system
 * clipboard is one field of the state, so a change made by the user is an event of its own;
 * the auto-clear timer is a flag, and its expiry is an event. The mutex is not modelled.
 */
module Clipboard {
  /** The system clipboard, the content this manager put there, and whether a clear is scheduled. */
  datatype State = State(clipboard: string, copied: string, timerArmed: bool)

  /** New: nothing copied and no timer, whatever the clipboard holds. */
  function New(clipboard: string): (s: State)
    ensures s.clipboard == clipboard && s.copied == "" && !s.timerArmed
  {
    State(clipboard, "", false)
  }

  /**
   * Clear: the timer is stopped and the record is reset; the clipboard is emptied only if it
   * still holds the non-empty content this manager copied.
   */
  function Clear(s: State): (r: State)
    ensures r.copied == "" && !r.timerArmed
    ensures s.copied != "" && s.clipboard == s.copied ==> r.clipboard == ""
    ensures !(s.copied != "" && s.clipboard == s.copied) ==> r.clipboard == s.clipboard
  {
    var content := s.copied;
    var s' := s.(timerArmed := false, copied := "");
    if content != "" && s'.clipboard == content then s'.(clipboard := "") else s'
  }

  /** Copy: any previous copy is cleared first, then the content is copied and a clear scheduled. */
  function Copy(s: State, content: string): (r: State)
    ensures r.clipboard == content && r.copied == content && r.timerArmed
  {
    var cleared := Clear(s);
    cleared.(clipboard := content, copied := content, timerArmed := true)
  }

  /** The user (or another program) puts something on the clipboard. */
  function UserSets(s: State, content: string): (r: State)
    ensures r.clipboard == content && r.copied == s.copied && r.timerArmed == s.timerArmed
  {
    s.(clipboard := content)
  }

  /** The timer's callback runs Clear; a stopped timer does not fire. */
  function Expire(s: State): (r: State)
    ensures s.timerArmed ==> r == Clear(s)
    ensures !s.timerArmed ==> r == s
  {
    if s.timerArmed then Clear(s) else s
  }

  // ---------------------------------------------------------------------------
  // Properties.

  /** A second Copy replaces the first: the clipboard and the record hold the latest content. */
  lemma CopyOverwrites(s: State, first: string, second: string)
    ensures Copy(Copy(s, first), second).clipboard == second
    ensures Copy(Copy(s, first), second).copied == second
  {
  }

  /** Clearing right after a copy empties the clipboard. */
  lemma ClearAfterCopy(s: State, content: string)
    ensures Clear(Copy(s, content)).clipboard == ""
  {
  }

  /** A second Clear changes nothing. */
  lemma ClearIdempotent(s: State)
    ensures Clear(Clear(s)) == Clear(s)
  {
  }

  /** A clear never destroys what the user put on the clipboard after the copy. */
  lemma ClearKeepsUserContent(s: State, content: string, user: string)
    requires user != content
    ensures Clear(UserSets(Copy(s, content), user)).clipboard == user
  {
  }

  /** With nothing copied, Clear leaves the clipboard alone. */
  lemma ClearWithoutCopy(s: State)
    requires s.copied == ""
    ensures Clear(s).clipboard == s.clipboard
  {
  }

  /** The expiry of the timer armed by a copy is exactly a Clear, even after the user changed the clipboard. */
  lemma ExpireIsClear(s: State, content: string, user: string)
    ensures Expire(Copy(s, content)) == Clear(Copy(s, content))
    ensures Expire(UserSets(Copy(s, content), user)) == Clear(UserSets(Copy(s, content), user))
  {
  }

  /** After a Clear, a late expiry is a no-op. */
  lemma ExpireAfterClear(s: State)
    ensures Expire(Clear(s)) == Clear(s)
  {
  }
}
