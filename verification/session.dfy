/**
 The dialog together with the effect of the external `sync::commit` call,
 modelled as a log of the messages handed to it, in call order. A session
 is what the host's event loop sees: one event at a time, in order.
 */
module Sessions {
  import opened Wrappers
  import opened Commit

  /** The dialog and every message committed so far. */
  datatype Session = Session(dialog: CommitComponent, log: seq<string>)

  /** A fresh dialog that has committed nothing. */
  function Fresh(): Session
  {
    Session(Default(), [])
  }

  /** A key press without modifiers. */
  function Press(k: KeyCode): Event
  {
    Key(KeyEvent(k, {}))
  }

  /** The key presses that type `text`, one character each. */
  function Keys(text: string): (evs: seq<Event>)
    ensures |evs| == |text|
  {
    if text == [] then [] else [Press(Char(text[0]))] + Keys(text[1..])
  }

  /** The `i`-th key press of `Keys(text)` types the `i`-th character. */
  lemma {:induction false} KeysAt(text: string, i: nat)
    requires i < |text|
    ensures Keys(text)[i] == Press(Char(text[i]))
    decreases i
  {
    if i > 0 {
      KeysAt(text[1..], i - 1);
    }
  }

  /** `n` Backspace presses. */
  function Backspaces(n: nat): (evs: seq<Event>)
    ensures |evs| == n
  {
    if n == 0 then [] else [Press(Backspace)] + Backspaces(n - 1)
  }

  /** Every press of `Backspaces(n)` is a Backspace. */
  lemma {:induction false} BackspacesAt(n: nat, i: nat)
    requires i < n
    ensures Backspaces(n)[i] == Press(Backspace)
    decreases i
  {
    if i > 0 {
      BackspacesAt(n - 1, i - 1);
    }
  }

  /** Whether an event is an Enter key press (with any modifiers). */
  predicate IsEnter(ev: Event)
  {
    ev.Key? && ev.key.code.Enter?
  }

  /** How many Enter presses a sequence of events holds. */
  function CountEnters(evs: seq<Event>): nat
  {
    if evs == [] then 0
    else (if IsEnter(evs[0]) then 1 else 0) + CountEnters(evs[1..])
  }

  /** What `n` backspaces leave of draft `m`. */
  function Erased(m: string, n: nat): string
  {
    if n <= |m| then m[..|m| - n] else []
  }

  /** Forwards one event to the dialog; a commit appends its message to the log. */
  function Step(s: Session, ev: Event): (t: Session)
    // Enter on a non-empty draft logs exactly that draft once and resets the dialog.
    ensures IsEnter(ev) && s.dialog.msg != [] ==> t == Session(Default(), s.log + [s.dialog.msg])
    // Every other event leaves the log alone and does what the dialog does.
    ensures !(IsEnter(ev) && s.dialog.msg != []) ==> t == Session(HandleEvent(s.dialog, ev).next, s.log)
  {
    var r := HandleEvent(s.dialog, ev);
    Session(r.next, match r.committed case Some(m) => s.log + [m] case None => s.log)
  }

  /** Forwards a sequence of events, in order. The log only grows, only by
      non-empty messages, and by at most one message per Enter press. */
  function Run(s: Session, evs: seq<Event>): (t: Session)
    ensures |s.log| <= |t.log| && t.log[..|s.log|] == s.log
    ensures forall i :: |s.log| <= i < |t.log| ==> t.log[i] != []
    ensures |t.log| - |s.log| <= CountEnters(evs)
    decreases |evs|
  {
    if evs == [] then s else Run(Step(s, evs[0]), evs[1..])
  }

  /** Running a non-empty sequence is stepping its first event, then running the rest. */
  lemma RunCons(s: Session, ev: Event, rest: seq<Event>)
    ensures Run(s, [ev] + rest) == Run(Step(s, ev), rest)
  {
    assert ([ev] + rest)[1..] == rest;
  }

  /** Running `a` then `b` is running `a + b`. */
  lemma {:induction false} RunAppend(s: Session, a: seq<Event>, b: seq<Event>)
    ensures Run(s, a + b) == Run(Run(s, a), b)
    decreases |a|
  {
    if a == [] {
      assert a + b == b;
    } else {
      assert (a + b)[0] == a[0];
      assert (a + b)[1..] == a[1..] + b;
      RunAppend(Step(s, a[0]), a[1..], b);
    }
  }

  /** Typing a text starts by appending its first character and nothing else. */
  lemma TypeFirstChar(s: Session, text: string)
    requires text != []
    ensures Run(s, Keys(text)) == Run(Session(s.dialog.(msg := s.dialog.msg + [text[0]]), s.log), Keys(text[1..]))
  {
    assert Step(s, Press(Char(text[0]))) == Session(s.dialog.(msg := s.dialog.msg + [text[0]]), s.log);
    RunCons(s, Press(Char(text[0])), Keys(text[1..]));
  }

  /** Typing a text appends exactly that text to the draft, keeps the
      visibility, consumes every key and commits nothing. */
  lemma {:induction false} TypeText(s: Session, text: string)
    ensures Run(s, Keys(text)) == Session(s.dialog.(msg := s.dialog.msg + text), s.log)
    decreases |text|
  {
    if text == [] {
      assert s.dialog.msg + text == s.dialog.msg;
    } else {
      var s1 := Session(s.dialog.(msg := s.dialog.msg + [text[0]]), s.log);
      var rest := text[1..];
      assert Run(s, Keys(text)) == Run(s1, Keys(rest)) by { TypeFirstChar(s, text); }
      assert Run(s1, Keys(rest)) == Session(s1.dialog.(msg := s1.dialog.msg + rest), s1.log) by {
        TypeText(s1, rest);
      }
      assert s1.dialog.msg + rest == s.dialog.msg + text;
    }
  }

  /** One Backspace drops the last character, if any, and nothing else. */
  lemma BackspaceStep(s: Session)
    ensures Step(s, Press(Backspace)) == Session(s.dialog.(msg := Erased(s.dialog.msg, 1)), s.log)
  {
  }

  /** Erasing one character and then `n - 1` more is erasing `n`. */
  lemma ErasedTwice(m: string, n: nat)
    requires n > 0
    ensures Erased(Erased(m, 1), n - 1) == Erased(m, n)
  {
    if n <= |m| {
      assert m[..|m| - 1][..|m| - 1 - (n - 1)] == m[..|m| - n];
    }
  }

  /** `n` backspaces drop the last `n` characters of the draft, or all of it
      when it is shorter; the extra presses are declined. Nothing is committed
      and the visibility is kept. */
  lemma {:induction false} EraseChars(s: Session, n: nat)
    ensures Run(s, Backspaces(n)) ==
            Session(s.dialog.(msg := Erased(s.dialog.msg, n)), s.log)
    decreases n
  {
    var m := s.dialog.msg;
    if n == 0 {
      assert m[..|m|] == m;
    } else {
      var s1 := Session(s.dialog.(msg := Erased(m, 1)), s.log);
      BackspaceStep(s);
      RunCons(s, Press(Backspace), Backspaces(n - 1));
      EraseChars(s1, n - 1);
      ErasedTwice(m, n);
    }
  }

  /** Type a text and erase it again: the session is back where it started. */
  lemma TypeThenEraseRestores(s: Session, text: string)
    ensures Run(s, Keys(text) + Backspaces(|text|)) == s
  {
    RunAppend(s, Keys(text), Backspaces(|text|));
    TypeText(s, text);
    EraseChars(Run(s, Keys(text)), |text|);
    assert (s.dialog.msg + text)[..|s.dialog.msg + text| - |text|] == s.dialog.msg;
  }

  /** The edit scenario: from an empty draft, "abc" then three backspaces is
      empty again, and a fourth backspace is declined and changes nothing. */
  lemma TypeAbcThenErase()
    ensures Run(Fresh(), Keys("abc")).dialog.msg == "abc"
    ensures Run(Fresh(), Keys("abc") + Backspaces(3)) == Fresh()
    ensures HandleEvent(Fresh().dialog, Press(Backspace)) == Reaction(Fresh().dialog, false, None)
    ensures Run(Fresh(), Keys("abc") + Backspaces(4)) == Fresh()
  {
    TypeText(Fresh(), "abc");
    TypeThenEraseRestores(Fresh(), "abc");
    RunAppend(Fresh(), Keys("abc"), Backspaces(4));
    EraseChars(Run(Fresh(), Keys("abc")), 4);
  }

  /** Show, type a non-empty message, press Enter: exactly one commit, of
      exactly that message, and the dialog is back to its default state. */
  lemma ShowTypeEnterCommitsOnce(text: string)
    requires text != []
    ensures Run(Session(Show(Default()), []), Keys(text) + [Press(Enter)]) == Session(Default(), [text])
  {
    var s0 := Session(Show(Default()), []);
    RunAppend(s0, Keys(text), [Press(Enter)]);
    TypeText(s0, text);
    assert [] + text == text;
  }

  /** The "fix bug" scenario. */
  lemma FixBugScenario()
    ensures Run(Session(Show(Default()), []), Keys("fix bug") + [Press(Enter)]) == Session(Default(), ["fix bug"])
  {
    ShowTypeEnterCommitsOnce("fix bug");
  }

  /** Show, type "wip", press Esc: hidden, the draft kept, nothing committed. */
  lemma WipCancelScenario()
    ensures Run(Session(Show(Default()), []), Keys("wip") + [Press(Esc)]) == Session(CommitComponent("wip", false), [])
  {
    var s0 := Session(Show(Default()), []);
    RunAppend(s0, Keys("wip"), [Press(Esc)]);
    TypeText(s0, "wip");
  }

  /** Enter on an empty draft never commits and never changes the dialog. */
  lemma EnterOnEmptyIsInert(s: Session, m: set<KeyModifier>)
    requires s.dialog.msg == []
    ensures Step(s, Key(KeyEvent(Enter, m))) == s
    ensures !HandleEvent(s.dialog, Key(KeyEvent(Enter, m))).consumed
  {
  }
}
