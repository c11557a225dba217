# Commit-message dialog of gitui, in Dafny

This project models `CommitComponent`, the commit-message dialog of the gitui
terminal git client. The dialog holds a draft message `msg` and a `visible`
flag. It is driven one terminal event at a time:

- Esc hides the dialog and keeps the draft.
- A character key appends that character.
- Backspace drops the last character of a non-empty draft.
- Enter on a non-empty draft hands the draft to git's commit, then clears it and hides.
- Every other event is declined.

It also tells the host's status line which commands are available, and draws
either a placeholder or the draft.

Files:

- `wrappers.dfy` holds `Option`.
- `commit.dfy` (module `Commit`) holds the component: its state, the crossterm
  event types it matches on, `HandleEvent` (the Rust `event`), `Commands`,
  `Show`, `Hide`, `IsVisible`, `CanCommit`, `DoCommit` (the Rust `commit`),
  the choice `draw` makes, and lemmas relating them.
- `session.dfy` (module `Sessions`) pairs the dialog with a log of the
  messages handed to `asyncgit::sync::commit`. `Step` and `Run` forward one
  event or a sequence of events. It also holds the editing and commit
  scenarios.

The external commit call is not executed. A step that would make it reports
the message it would hand over (`Reaction.committed`). At the session level
that message is appended to `log`, so "exactly one commit, with the full
message" is a statement about the log.

The event handler never reads `visible`; only `commands` and `draw` consult
the flag. A hidden dialog is therefore not inert: it appends characters,
erases them and commits exactly as a shown one does, as
`Commit.HiddenDialogStillEdits` states.

## Model

| member | source | states |
|---|---|---|
| Commit.Default | src/components/commit.rs:14-19 | the derived default has an empty draft and is hidden |
| Commit.IsVisible | src/components/commit.rs:89-99 | the dialog reports itself visible exactly when `show` would change nothing, and hidden exactly when `hide` would change nothing |
| Commit.CanCommit | src/components/commit.rs:110-112 | a commit is possible exactly when the draft is non-empty |
| Commit.Show | src/components/commit.rs:97-99 | afterwards the dialog is visible and the draft is unchanged |
| Commit.Hide | src/components/commit.rs:93-95 | afterwards the dialog is hidden and the draft is unchanged |
| Commit.Commands | src/components/commit.rs:46-60 | no commands exactly when hidden; when visible exactly two: "commit", enabled iff the draft is non-empty, then "close", always enabled |
| Commit.DoCommit | src/components/commit.rs:103-108 | the whole current draft is handed to the commit, and the dialog ends empty and hidden |
| Commit.HandleEvent | src/components/commit.rs:63-87 | Esc hides and keeps the draft; a character is appended; Enter on a non-empty draft commits exactly that draft once and resets the dialog; Backspace on a non-empty draft drops exactly the last character; everything else, including Enter or Backspace on an empty draft and every non-key event, is declined with no state change and no commit; any commit sends a non-empty draft |
| Commit.Draw | src/components/commit.rs:22-31 | nothing is drawn exactly when hidden; the placeholder exactly when visible with an empty draft; otherwise the raw draft |
| Commit.ObserversAgree | src/components/commit.rs:22-60 | the dialog is visible exactly when it advertises commands and exactly when it draws something; while visible it draws the placeholder exactly when "commit" is disabled and the raw draft exactly when "commit" is enabled |
| Commit.DefaultIsEmptyAndHidden | src/components/commit.rs:14-19 | a fresh dialog has an empty draft, is hidden, advertises no commands, cannot commit and draws nothing |
| Commit.ShowHideOnlySetVisibility | src/components/commit.rs:93-99 | show and hide only set the flag, are idempotent, undo each other's effect on the flag, and are no-ops when the flag already matches |
| Commit.BackspaceUndoesChar | src/components/commit.rs:70-82 | Backspace after typing any character restores the dialog exactly, whatever the visibility and modifiers |
| Commit.CharRedoesBackspace | src/components/commit.rs:70-82 | retyping the character a Backspace removed restores a non-empty draft exactly |
| Commit.CommandsMatchEventHandling | src/components/commit.rs:46-87 | while visible, the advertised "commit" is enabled exactly when Enter would be consumed and would commit; "close" is enabled and Esc is always consumed |
| Commit.ModifiersIgnored | src/components/commit.rs:63-65 | held modifier keys never change what a key does |
| Commit.EscThenShowRestoresDraft | src/components/commit.rs:66-99 | cancelling with Esc keeps the draft, so showing the dialog again brings it back |
| Commit.HiddenDialogStillEdits | src/components/commit.rs:63-87 | a hidden dialog consumes, edits and commits exactly like the shown dialog with the same draft, and stays hidden |
| Sessions.Step | src/components/commit.rs:63-108 | for every session, Enter on a non-empty draft appends exactly that draft to the log once and resets the dialog to its default; every other event leaves the log unchanged and moves the dialog exactly as the event handler does |
| Sessions.Run | src/components/commit.rs:63-112 | over any event sequence the log only grows, every message committed is non-empty, and at most one commit happens per Enter press |
| Sessions.RunAppend | src/components/commit.rs:63-87 | events are handled strictly in order: running two sequences one after the other is running their concatenation |
| Sessions.TypeText | src/components/commit.rs:70-73 | typing a text appends exactly that text to the draft, keeps the visibility and commits nothing |
| Sessions.EraseChars | src/components/commit.rs:78-82 | n Backspaces drop exactly the last n characters of the draft, or empty it when it is shorter (the extra presses are declined); the visibility and the log are unchanged |
| Sessions.TypeThenEraseRestores | src/components/commit.rs:70-82 | typing any text and then as many Backspaces brings the session back exactly to where it started |
| Sessions.TypeAbcThenErase | src/components/commit.rs:70-82 | "abc" typed into a fresh dialog gives "abc"; three Backspaces empty it again; a fourth is declined and changes nothing, so four Backspaces also leave the fresh dialog |
| Sessions.ShowTypeEnterCommitsOnce | src/components/commit.rs:70-108 | show, type any non-empty text and press Enter: the log holds exactly that one text and the dialog is empty and hidden |
| Sessions.FixBugScenario | src/components/commit.rs:70-108 | show, type "fix bug" and press Enter: exactly one commit of "fix bug", then empty and hidden |
| Sessions.WipCancelScenario | src/components/commit.rs:66-73 | show, type "wip" and press Esc: hidden, draft "wip" kept, nothing committed |
| Sessions.EnterOnEmptyIsInert | src/components/commit.rs:74-82 | Enter on an empty draft is declined, commits nothing and leaves the dialog unchanged, shown or hidden |

## Left out

- Rendering in `draw` is left out: the bordered `Paragraph`, the `ui::Clear` overlay, the muted style and `ui::centered_rect(60, 20, …)` are terminal drawing. Only the choice between nothing, the placeholder and the raw draft is modelled, as `Commit.Draw`.
- The internals of `asyncgit::sync::commit` are left out because they are a foreign git write. Its result is never inspected by the dialog, so the model records only the message handed to it.
- The texts of the `strings::*` constants are left out. The command names are two distinct opaque labels.
- `String::len` counts bytes, not characters. It is only compared with zero, and that agrees with "the draft is non-empty", so `msg` is a sequence of characters.
- The host's dispatcher and the `Component` trait it calls through are left out because they lie outside this file.
- The crossterm payloads are left out because the dialog never reads them: mouse events, resize sizes, and the `u8` width of function-key numbers.
