/**
 The commit-message dialog of the terminal git client: a text buffer `msg`
 and a visibility flag, driven one input event at a time.

 The external `sync::commit` call is not executed here: a step that would
 make it reports the message it would hand over in `Reaction.committed`.
 */
module Commit {
  import opened Wrappers

  /** Modifier keys held while a key is pressed (crossterm's `KeyModifiers`). */
  datatype KeyModifier = Shift | Control | Alt

  /** The key codes crossterm reports; only four of them mean anything to the dialog. */
  datatype KeyCode =
    | Backspace | Enter | Left | Right | Up | Down | Home | End
    | PageUp | PageDown | Tab | BackTab | Delete | Insert
    | F(number: nat) | Char(c: char) | Null | Esc

  datatype KeyEvent = KeyEvent(code: KeyCode, modifiers: set<KeyModifier>)

  /** A terminal input event; mouse and resize payloads are irrelevant here. */
  datatype Event = Key(key: KeyEvent) | Mouse | Resize(columns: nat, rows: nat)

  /** The dialog's whole state: the draft message and whether it is shown. */
  datatype CommitComponent = CommitComponent(msg: string, visible: bool)

  /** The two command labels the dialog advertises (opaque, distinct). */
  datatype CommandName = CommitEnter | CommitClose

  /** One advertised command and whether it is currently available. */
  datatype CommandInfo = CommandInfo(name: CommandName, enabled: bool)

  /** What one event does: the next state, whether the event was consumed,
      and the message handed to the external commit, if any. */
  datatype Reaction = Reaction(next: CommitComponent, consumed: bool, committed: Option<string>)

  /** What a commit does: the message handed over and the state afterwards. */
  datatype CommitCall = CommitCall(sent: string, after: CommitComponent)

  /** What `draw` puts on screen: nothing, the muted placeholder, or the raw draft. */
  datatype Drawing = Nothing | Placeholder | Raw(text: string)

  /** `#[derive(Default)]`: the empty string and `false`. */
  function Default(): (d: CommitComponent)
    ensures d.msg == [] && !d.visible
  {
    CommitComponent([], false)
  }

  /** Whether a commit may be made: the draft is non-empty. */
  function CanCommit(c: CommitComponent): (r: bool)
    ensures r <==> c.msg != []
  {
    |c.msg| > 0
  }

  /** Whether the dialog is shown: exactly when `show` would change nothing,
      and hidden exactly when `hide` would change nothing. */
  function IsVisible(c: CommitComponent): (r: bool)
    ensures r <==> Show(c) == c
    ensures !r <==> Hide(c) == c
  {
    c.visible
  }

  function Show(c: CommitComponent): (r: CommitComponent)
    ensures r.visible
    ensures r.msg == c.msg
  {
    c.(visible := true)
  }

  function Hide(c: CommitComponent): (r: CommitComponent)
    ensures !r.visible
    ensures r.msg == c.msg
  {
    c.(visible := false)
  }

  /** The commands offered to the status line: none while hidden, otherwise
      "commit" (available iff the draft is non-empty) and "close" (always). */
  function Commands(c: CommitComponent): (r: seq<CommandInfo>)
    ensures r == [] <==> !IsVisible(c)
    ensures IsVisible(c) ==> |r| == 2
    ensures IsVisible(c) ==> r[0].name == CommitEnter && (r[0].enabled <==> c.msg != [])
    ensures IsVisible(c) ==> r[1].name == CommitClose && r[1].enabled
  {
    if !c.visible then []
    else [CommandInfo(CommitEnter, CanCommit(c)), CommandInfo(CommitClose, true)]
  }

  /** Hands the whole draft to the external commit, then clears it and hides. */
  function DoCommit(c: CommitComponent): (r: CommitCall)
    ensures r.sent == c.msg
    ensures r.after == Default()
  {
    CommitCall(c.msg, Hide(c.(msg := [])))
  }

  /** The event handler. It never looks at `visible`: a hidden dialog edits
      and commits exactly like a shown one. Modifiers are ignored. */
  function HandleEvent(c: CommitComponent, ev: Event): (r: Reaction)
    // Esc hides and keeps the draft.
    ensures ev.Key? && ev.key.code.Esc? ==>
              r == Reaction(c.(visible := false), true, None)
    // A character is appended, nothing else changes.
    ensures ev.Key? && ev.key.code.Char? ==>
              r == Reaction(c.(msg := c.msg + [ev.key.code.c]), true, None)
    // Enter on a non-empty draft makes exactly one commit of the full draft.
    ensures ev.Key? && ev.key.code.Enter? && c.msg != [] ==>
              r == Reaction(Default(), true, Some(c.msg))
    // Backspace on a non-empty draft drops exactly its last character.
    ensures ev.Key? && ev.key.code.Backspace? && c.msg != [] ==>
              r.consumed && r.committed.None? && r.next.visible == c.visible
              && r.next.msg + [c.msg[|c.msg| - 1]] == c.msg
    // Everything else is declined and changes nothing.
    ensures (!ev.Key? || !(ev.key.code.Esc? || ev.key.code.Char? || ev.key.code.Enter? || ev.key.code.Backspace?)
             || (c.msg == [] && (ev.key.code.Enter? || ev.key.code.Backspace?))) ==>
              r == Reaction(c, false, None)
    // A declined event never changes state or commits.
    ensures !r.consumed ==> r.next == c && r.committed.None?
    // Only a commit sends, and it sends a non-empty draft.
    ensures r.committed.Some? ==> r.committed.value == c.msg && c.msg != []
  {
    match ev
    case Key(e) => (
      match e.code
      case Esc => Reaction(Hide(c), true, None)
      case Char(ch) => Reaction(c.(msg := c.msg + [ch]), true, None)
      case Enter =>
        if CanCommit(c) then
          var call := DoCommit(c);
          Reaction(call.after, true, Some(call.sent))
        else Reaction(c, false, None)
      case Backspace =>
        if |c.msg| > 0 then Reaction(c.(msg := c.msg[..|c.msg| - 1]), true, None)
        else Reaction(c, false, None)
      case _ => Reaction(c, false, None))
    case _ => Reaction(c, false, None)
  }

  /** The choice `draw` makes: nothing while hidden, the placeholder for an
      empty draft, the raw draft otherwise. */
  function Draw(c: CommitComponent): (d: Drawing)
    ensures d.Nothing? <==> !IsVisible(c)
    ensures d.Placeholder? <==> IsVisible(c) && c.msg == []
    ensures d.Raw? ==> d.text == c.msg && d.text != []
  {
    if !c.visible then Nothing
    else if |c.msg| > 0 then Raw(c.msg)
    else Placeholder
  }

  // ---------------------------------------------------------------------------
  // Properties relating several operations
  // ---------------------------------------------------------------------------

  /** A freshly built dialog is empty, hidden, advertises nothing and draws nothing. */
  lemma DefaultIsEmptyAndHidden()
    ensures Default().msg == [] && !IsVisible(Default())
    ensures Commands(Default()) == []
    ensures !CanCommit(Default())
    ensures Draw(Default()) == Nothing
  {
  }

  /** The three observers agree: the dialog is visible exactly when it
      advertises commands and exactly when it draws something, and while
      visible it shows the placeholder exactly when "commit" is disabled
      and the raw draft exactly when "commit" is enabled. */
  lemma ObserversAgree(c: CommitComponent)
    ensures IsVisible(c) <==> Commands(c) != []
    ensures IsVisible(c) <==> !Draw(c).Nothing?
    ensures IsVisible(c) ==> (Draw(c).Placeholder? <==> !Commands(c)[0].enabled)
    ensures IsVisible(c) ==> (Draw(c).Raw? <==> Commands(c)[0].enabled)
    ensures Draw(c).Raw? ==> Draw(c).text == c.msg
  {
  }

  /** `show` and `hide` only set the flag, and doing either twice is doing it once. */
  lemma ShowHideOnlySetVisibility(c: CommitComponent)
    ensures Show(Show(c)) == Show(c) && Hide(Hide(c)) == Hide(c)
    ensures Show(c) == CommitComponent(c.msg, true)
    ensures Hide(c) == CommitComponent(c.msg, false)
    ensures Hide(Show(c)) == Hide(c) && Show(Hide(c)) == Show(c)
    ensures IsVisible(c) ==> Show(c) == c
    ensures !IsVisible(c) ==> Hide(c) == c
  {
  }

  /** Backspace undoes a typed character, on a shown or hidden dialog alike. */
  lemma BackspaceUndoesChar(c: CommitComponent, ch: char, m: set<KeyModifier>, m': set<KeyModifier>)
    ensures HandleEvent(HandleEvent(c, Key(KeyEvent(Char(ch), m))).next, Key(KeyEvent(Backspace, m'))).next == c
  {
    var typed := c.msg + [ch];
    assert typed[..|typed| - 1] == c.msg;
  }

  /** Retyping the character a backspace removed restores the draft. */
  lemma CharRedoesBackspace(c: CommitComponent, m: set<KeyModifier>)
    requires c.msg != []
    ensures HandleEvent(HandleEvent(c, Key(KeyEvent(Backspace, m))).next,
                        Key(KeyEvent(Char(c.msg[|c.msg| - 1]), m))).next == c
  {
    assert c.msg[..|c.msg| - 1] + [c.msg[|c.msg| - 1]] == c.msg;
  }

  /** The "commit" command is advertised as enabled exactly when Enter would
      be consumed and commit; the always-enabled "close" matches Esc, which
      is always consumed. */
  lemma CommandsMatchEventHandling(c: CommitComponent, m: set<KeyModifier>)
    requires IsVisible(c)
    ensures Commands(c)[0].enabled <==> HandleEvent(c, Key(KeyEvent(Enter, m))).consumed
    ensures Commands(c)[0].enabled <==> HandleEvent(c, Key(KeyEvent(Enter, m))).committed.Some?
    ensures Commands(c)[1].enabled && HandleEvent(c, Key(KeyEvent(Esc, m))).consumed
  {
  }

  /** Modifier keys never change what a key does. */
  lemma ModifiersIgnored(c: CommitComponent, k: KeyCode, m: set<KeyModifier>, m': set<KeyModifier>)
    ensures HandleEvent(c, Key(KeyEvent(k, m))) == HandleEvent(c, Key(KeyEvent(k, m')))
  {
  }

  /** Hiding keeps the draft: cancelling with Esc and showing again brings it back. */
  lemma EscThenShowRestoresDraft(c: CommitComponent, m: set<KeyModifier>)
    ensures Show(HandleEvent(c, Key(KeyEvent(Esc, m))).next) == Show(c)
    ensures HandleEvent(c, Key(KeyEvent(Esc, m))).next.msg == c.msg
  {
  }

  /** Visibility does not gate the handler: a hidden dialog reacts to every
      event exactly as the shown dialog with the same draft, except that it
      stays hidden. */
  lemma HiddenDialogStillEdits(c: CommitComponent, ev: Event)
    requires !IsVisible(c)
    ensures HandleEvent(c, ev).consumed == HandleEvent(Show(c), ev).consumed
    ensures HandleEvent(c, ev).committed == HandleEvent(Show(c), ev).committed
    ensures HandleEvent(c, ev).next.msg == HandleEvent(Show(c), ev).next.msg
    ensures !IsVisible(HandleEvent(c, ev).next)
  {
  }
}
