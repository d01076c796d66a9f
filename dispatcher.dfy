/**
 * The controller-input dispatcher as a pure state machine: the session
 * record, the controller events, one dispatch step, a run over a sequence of
 * events, and the listener's decision to display a response.
 */
module Dispatcher {
  import opened Base
  import Utf8
  import Commands
  import Decimal

  datatype Side = Left | Right

  /** A controller event, with stick axes already scaled to integers. */
  datatype Event =
    | Connected
    | Disconnected
    | ButtonPressed(button: string)
    | ButtonReleased(button: string)
    | TriggerMoved(trigger: Side)
    | StickMoved(stick: Side, x: int, y: int)

  /** The session record the main loop keeps in module-level variables. */
  datatype SessionState = SessionState(
    leftStickX: int, leftStickY: int, rightStickX: int, rightStickY: int,
    debugMode: bool, printResponse: bool, printSent: bool, tempPrintResponse: bool)

  /** The values the variables hold when the program starts. */
  const INITIAL: SessionState := SessionState(0, 0, 0, 0, false, false, false, false)

  /** What a button does: send a message (and whether to show the reply), or toggle debug mode. */
  datatype Action = Send(message: string, showReply: bool) | ToggleDebug

  /** The button table, tested in the loop's order; buttons not in it are ignored. */
  function Binding(b: string): Option<Action> {
    if b == "BACK" then Some(Send("land", false))
    else if b == "START" then Some(Send("takeoff", false))
    else if b == "DPAD_LEFT" then Some(Send("flip l", false))
    else if b == "DPAD_RIGHT" then Some(Send("flip r", false))
    else if b == "DPAD_UP" then Some(Send("flip f", false))
    else if b == "DPAD_DOWN" then Some(Send("flip b", false))
    else if b == "A" then Some(Send(Commands.ASK, true))
    else if b == "B" then Some(Send("battery?", true))
    else if b == "Y" then Some(Send("temp?", true))
    else if b == "X" then Some(Send("tof?", true))
    else if b == "LEFT_THUMB" then Some(ToggleDebug)
    else if b == "RIGHT_THUMB" then Some(Send("wifi?", true))
    else None
  }

  /**
   * Every fixed button command is ASCII, so its payload is one byte per
   * character, each its code. (A sends the operator's text, which need not be.)
   */
  lemma ButtonPayload(b: string, printSent: bool)
    requires Binding(b).Some? && Binding(b).value.Send? && b != "A"
    ensures var m := Binding(b).value.message;
      && Utf8.IsAscii(m)
      && |Commands.Frame(m, printSent).payload| == |m|
      && forall i :: 0 <= i < |m| ==> Commands.Frame(m, printSent).payload[i] == m[i] as int
  {
    var m := Binding(b).value.message;
    assert m in {"land", "takeoff", "flip l", "flip r", "flip f", "flip b", "battery?", "temp?", "tof?", "wifi?"};
    assert Utf8.IsAscii(m);
    Utf8.EncodeAscii(m);
  }

  /** The buttons whose command is a query whose reply is shown once. */
  const QUERY_BUTTONS: set<string> := {"A", "B", "X", "Y", "RIGHT_THUMB"}

  /** The buttons whose command is a manoeuvre. */
  const FLIGHT_BUTTONS: set<string> := {"BACK", "START", "DPAD_LEFT", "DPAD_RIGHT", "DPAD_UP", "DPAD_DOWN"}

  /** The `rc` command for a state: left X, left Y, right Y, right X. */
  function RcOf(s: SessionState): string {
    Commands.Rc(s.leftStickX, s.leftStickY, s.rightStickY, s.rightStickX)
  }

  /** The new state and the command sent (if any) after one event. */
  datatype Outcome = Outcome(next: SessionState, command: Option<string>)

  /** One pass of the dispatch loop's body. */
  function Dispatch(s: SessionState, e: Event, operatorText: string): Outcome {
    match e
    case ButtonPressed(b) => Press(s, b, operatorText)
    case StickMoved(stick, x, y) => Move(s, stick, x, y, operatorText)
    case _ => Outcome(s, None)
  }

  /** A button press: look the button up in the table. */
  function Press(s: SessionState, b: string, operatorText: string): Outcome {
    match Binding(b)
    case None => Outcome(s, None)
    case Some(ToggleDebug) =>
      var on := !s.debugMode;
      Outcome(s.(debugMode := on, printResponse := on, printSent := on), None)
    case Some(Send(m, show)) =>
      Outcome(s.(tempPrintResponse := show), Some(Commands.Resolve(m, operatorText)))
  }

  /** A stick move: record that stick's axes, then send the `rc` command. */
  function Move(s: SessionState, stick: Side, x: int, y: int, operatorText: string): Outcome {
    var moved := if stick == Right then s.(rightStickX := x, rightStickY := y)
                 else s.(leftStickX := x, leftStickY := y);
    Outcome(moved.(tempPrintResponse := false), Some(Commands.Resolve(RcOf(moved), operatorText)))
  }

  /** The listener's print decision: a received response is printed iff this holds. */
  predicate Displays(s: SessionState) {
    s.printResponse || s.tempPrintResponse
  }

  /** The trace flags move together with debug mode. */
  predicate Lockstep(s: SessionState) {
    s.printResponse == s.debugMode && s.printSent == s.debugMode
  }

  /** The table binds exactly the query buttons, the flight buttons and LEFT_THUMB. */
  lemma ButtonTableDomain(b: string)
    ensures Binding(b).Some? <==> b in QUERY_BUTTONS || b in FLIGHT_BUTTONS || b == "LEFT_THUMB"
    ensures Binding(b) == Some(ToggleDebug) <==> b == "LEFT_THUMB"
  {
  }

  /** The flight buttons send their manoeuvres. */
  lemma FlightCommands(s: SessionState, t: string)
    ensures Dispatch(s, ButtonPressed("BACK"), t).command == Some("land")
    ensures Dispatch(s, ButtonPressed("START"), t).command == Some("takeoff")
    ensures Dispatch(s, ButtonPressed("DPAD_LEFT"), t).command == Some("flip l")
    ensures Dispatch(s, ButtonPressed("DPAD_RIGHT"), t).command == Some("flip r")
    ensures Dispatch(s, ButtonPressed("DPAD_UP"), t).command == Some("flip f")
    ensures Dispatch(s, ButtonPressed("DPAD_DOWN"), t).command == Some("flip b")
  {
  }

  /** The query buttons send their queries; A sends the operator's text verbatim. */
  lemma QueryCommands(s: SessionState, t: string)
    ensures Dispatch(s, ButtonPressed("B"), t).command == Some("battery?")
    ensures Dispatch(s, ButtonPressed("Y"), t).command == Some("temp?")
    ensures Dispatch(s, ButtonPressed("X"), t).command == Some("tof?")
    ensures Dispatch(s, ButtonPressed("RIGHT_THUMB"), t).command == Some("wifi?")
    ensures Dispatch(s, ButtonPressed("A"), t).command == Some(t)
  {
  }

  /** A query button sets the show-once flag, a flight button clears it; nothing else changes. */
  lemma ButtonFlags(s: SessionState, b: string, t: string)
    requires b in QUERY_BUTTONS || b in FLIGHT_BUTTONS
    ensures Dispatch(s, ButtonPressed(b), t).next == s.(tempPrintResponse := b in QUERY_BUTTONS)
    ensures Dispatch(s, ButtonPressed(b), t).command.Some?
  {
  }

  /** LEFT_THUMB sends nothing, flips debug mode and mirrors it into both trace flags. */
  lemma ToggleDebugEffect(s: SessionState, t: string)
    ensures var o := Dispatch(s, ButtonPressed("LEFT_THUMB"), t);
      o.command == None
      && o.next.debugMode == !s.debugMode
      && o.next.printResponse == !s.debugMode
      && o.next.printSent == !s.debugMode
      && o.next.tempPrintResponse == s.tempPrintResponse
      && o.next.(debugMode := s.debugMode, printResponse := s.printResponse, printSent := s.printSent) == s
  {
  }

  /** Pressing LEFT_THUMB twice restores debug mode, and the whole state when the flags were in lockstep. */
  lemma ToggleDebugTwice(s: SessionState, t1: string, t2: string)
    ensures var s2 := Dispatch(Dispatch(s, ButtonPressed("LEFT_THUMB"), t1).next, ButtonPressed("LEFT_THUMB"), t2).next;
      s2.debugMode == s.debugMode && Lockstep(s2) && (Lockstep(s) ==> s2 == s)
  {
  }

  /** A button not in the table sends nothing and changes nothing. */
  lemma UnknownButtonIgnored(s: SessionState, b: string, t: string)
    requires b !in QUERY_BUTTONS && b !in FLIGHT_BUTTONS && b != "LEFT_THUMB"
    ensures Dispatch(s, ButtonPressed(b), t) == Outcome(s, None)
  {
  }

  /** Events other than presses and stick moves send nothing and change nothing. */
  lemma OtherEventsIgnored(s: SessionState, e: Event, t: string)
    requires !e.ButtonPressed? && !e.StickMoved?
    ensures Dispatch(s, e, t) == Outcome(s, None)
  {
  }

  /**
   * A stick move changes only that stick's two values and the show-once flag,
   * and sends the `rc` command built from the new values.
   */
  lemma StickMoveEffect(s: SessionState, stick: Side, x: int, y: int, t: string)
    ensures var o := Dispatch(s, StickMoved(stick, x, y), t);
      && o.command == Some(RcOf(o.next))
      && !o.next.tempPrintResponse
      && o.next.debugMode == s.debugMode && o.next.printResponse == s.printResponse && o.next.printSent == s.printSent
      && (stick == Left ==> o.next.leftStickX == x && o.next.leftStickY == y
                            && o.next.rightStickX == s.rightStickX && o.next.rightStickY == s.rightStickY)
      && (stick == Right ==> o.next.rightStickX == x && o.next.rightStickY == y
                             && o.next.leftStickX == s.leftStickX && o.next.leftStickY == s.leftStickY)
  {
    var o := Dispatch(s, StickMoved(stick, x, y), t);
    var moved := if stick == Right then s.(rightStickX := x, rightStickY := y) else s.(leftStickX := x, leftStickY := y);
    Commands.RcIsNotAsk(moved.leftStickX, moved.leftStickY, moved.rightStickY, moved.rightStickX, t);
  }

  /** The `rc` command of a stick move reads back as left X, left Y, right Y, right X. */
  lemma StickMoveParses(s: SessionState, stick: Side, x: int, y: int, t: string)
    ensures var o := Dispatch(s, StickMoved(stick, x, y), t);
      o.command.Some? && Commands.ParseRc(o.command.value)
        == Some((o.next.leftStickX, o.next.leftStickY, o.next.rightStickY, o.next.rightStickX))
  {
    StickMoveEffect(s, stick, x, y, t);
    var n := Dispatch(s, StickMoved(stick, x, y), t).next;
    Commands.RcRoundTrip(n.leftStickX, n.leftStickY, n.rightStickY, n.rightStickX);
  }

  /** From the start, the left stick pushed to (50, -50) sends `rc 50 -50 0 0`. */
  lemma StickMoveExample()
    ensures Dispatch(INITIAL, StickMoved(Left, 50, -50), "").command == Some("rc 50 -50 0 0")
  {
    assert Decimal.IntToString(50) == "50";
    assert Decimal.IntToString(-50) == "-50";
    assert Decimal.IntToString(0) == "0";
    assert Commands.Rc(50, -50, 0, 0) == "rc 50 -50 0 0";
    StickMoveEffect(INITIAL, Left, 50, -50, "");
  }

  /** Repeating a stick move leaves the state as it is and sends the same command again. */
  lemma StickMoveIdempotent(s: SessionState, stick: Side, x: int, y: int, t1: string, t2: string)
    ensures var o1 := Dispatch(s, StickMoved(stick, x, y), t1);
      var o2 := Dispatch(o1.next, StickMoved(stick, x, y), t2);
      o2 == o1
  {
    StickMoveEffect(s, stick, x, y, t1);
    var o1 := Dispatch(s, StickMoved(stick, x, y), t1);
    StickMoveEffect(o1.next, stick, x, y, t2);
  }

  /** Only A consults the operator: for every other event the operator's text makes no difference. */
  lemma OperatorTextOnlyForA(s: SessionState, e: Event, t1: string, t2: string)
    requires e != ButtonPressed("A")
    ensures Dispatch(s, e, t1) == Dispatch(s, e, t2)
  {
    if e.StickMoved? {
      StickMoveEffect(s, e.stick, e.x, e.y, t1);
      StickMoveEffect(s, e.stick, e.x, e.y, t2);
    } else if e.ButtonPressed? && Binding(e.button).Some? && Binding(e.button).value.Send? {
      assert Binding(e.button).value.message != Commands.ASK;
    }
  }

  /** No event breaks the lockstep of debug mode and the two trace flags. */
  lemma LockstepPreserved(s: SessionState, e: Event, t: string)
    requires Lockstep(s)
    ensures Lockstep(Dispatch(s, e, t).next)
  {
  }

  /** Right after a query button the next response is displayed, whatever debug mode is. */
  lemma QueryReplyDisplayed(s: SessionState, b: string, t: string)
    requires b in QUERY_BUTTONS
    ensures Displays(Dispatch(s, ButtonPressed(b), t).next)
  {
  }

  /** The datagram sent for a dispatch step's command, traced when `printSent` held at that moment. */
  function Transmit(command: Option<string>, printSent: bool): Option<Commands.Datagram> {
    match command
    case None => None
    case Some(c) => Some(Commands.Frame(c, printSent))
  }

  /** The events that make the loop wait for a line of operator input. */
  predicate Prompts(e: Event) {
    e == ButtonPressed("A")
  }

  /** The number of events in a sequence that prompt the operator. */
  function PromptCount(events: seq<Event>): nat {
    if events == [] then 0 else (if Prompts(events[0]) then 1 else 0) + PromptCount(events[1..])
  }

  /** A command as sent, and whether `printSent` was on at that moment (so its hex trace was printed). */
  datatype Sent = Sent(command: string, traced: bool)

  /** The commands sent for a dispatch step's outcome. */
  function SentBy(command: Option<string>, printSent: bool): seq<Sent> {
    match command
    case None => []
    case Some(c) => [Sent(c, printSent)]
  }

  /** The final state, the commands sent in order, and whether the loop stopped at a prompt with no input left. */
  datatype RunOutcome = RunOutcome(final: SessionState, sent: seq<Sent>, halted: bool)

  /**
   * The dispatch loop over a finite sequence of events. Each prompt consumes the
   * next operator answer; when none is left the read fails and the loop ends
   * there, before anything is sent or changed for that event.
   */
  function Run(s: SessionState, events: seq<Event>, answers: seq<string>): RunOutcome
    decreases |events|
  {
    if events == [] then RunOutcome(s, [], false)
    else if Prompts(events[0]) && answers == [] then RunOutcome(s, [], true)
    else
      var o := Dispatch(s, events[0], TextFor(events[0], answers));
      var rest := Run(o.next, events[1..], Remaining(events[0], answers));
      RunOutcome(rest.final, SentBy(o.command, s.printSent) + rest.sent, rest.halted)
  }

  /** The answers left after one event: a prompt consumes one. */
  function Remaining(e: Event, answers: seq<string>): seq<string> {
    if Prompts(e) && answers != [] then answers[1..] else answers
  }

  /** The operator text an event can see: the next answer for a prompt, nothing otherwise. */
  function TextFor(e: Event, answers: seq<string>): string {
    if Prompts(e) && answers != [] then answers[0] else ""
  }

  /** The loop stops early exactly when the operator runs out of answers. */
  lemma {:induction false} RunHalts(s: SessionState, events: seq<Event>, answers: seq<string>)
    ensures Run(s, events, answers).halted <==> PromptCount(events) > |answers|
    decreases |events|
  {
    if events != [] && !(Prompts(events[0]) && answers == []) {
      RunHalts(Dispatch(s, events[0], TextFor(events[0], answers)).next, events[1..], Remaining(events[0], answers));
    }
  }

  /** One step of a run that does not stop at that step. */
  lemma RunCons(s: SessionState, events: seq<Event>, answers: seq<string>)
    requires events != [] && !(Prompts(events[0]) && answers == [])
    ensures var o := Dispatch(s, events[0], TextFor(events[0], answers));
      var rest := Run(o.next, events[1..], Remaining(events[0], answers));
      Run(s, events, answers) == RunOutcome(rest.final, SentBy(o.command, s.printSent) + rest.sent, rest.halted)
  {
  }

  lemma AppendAssoc<T>(a: seq<T>, b: seq<T>, c: seq<T>)
    ensures a + (b + c) == (a + b) + c
  {
  }

  lemma AppendTail<T>(xs: seq<T>, ys: seq<T>)
    requires xs != []
    ensures (xs + ys)[0] == xs[0] && (xs + ys)[1..] == xs[1..] + ys
  {
  }

  /** One step of a run over a concatenation whose first part is not empty. */
  lemma RunConsAppend(s: SessionState, xs: seq<Event>, ys: seq<Event>, as1: seq<string>, as2: seq<string>)
    requires xs != [] && (Prompts(xs[0]) ==> as1 != [])
    ensures var o := Dispatch(s, xs[0], TextFor(xs[0], as1));
      var whole := Run(o.next, xs[1..] + ys, Remaining(xs[0], as1) + as2);
      Run(s, xs + ys, as1 + as2) == RunOutcome(whole.final, SentBy(o.command, s.printSent) + whole.sent, whole.halted)
  {
    if as1 != [] {
      AppendTail(as1, as2);
    }
    assert TextFor(xs[0], as1 + as2) == TextFor(xs[0], as1);
    assert Remaining(xs[0], as1 + as2) == Remaining(xs[0], as1) + as2;
    AppendTail(xs, ys);
    RunCons(s, xs + ys, as1 + as2);
  }

  /** Running two batches one after the other is running their concatenation. */
  lemma {:induction false} RunAppend(s: SessionState, xs: seq<Event>, ys: seq<Event>, as1: seq<string>, as2: seq<string>)
    requires PromptCount(xs) == |as1|
    ensures var r1 := Run(s, xs, as1);
      var r2 := Run(r1.final, ys, as2);
      !r1.halted && Run(s, xs + ys, as1 + as2) == RunOutcome(r2.final, r1.sent + r2.sent, r2.halted)
    decreases |xs|
  {
    if xs == [] {
      assert xs + ys == ys;
      assert as1 + as2 == as2;
    } else {
      var o := Dispatch(s, xs[0], TextFor(xs[0], as1));
      var rem := Remaining(xs[0], as1);
      var first := SentBy(o.command, s.printSent);
      var tail1 := Run(o.next, xs[1..], rem);
      var r2 := Run(tail1.final, ys, as2);
      assert Prompts(xs[0]) ==> as1 != [];
      RunCons(s, xs, as1);
      RunConsAppend(s, xs, ys, as1, as2);
      RunAppend(o.next, xs[1..], ys, rem, as2);
      AppendAssoc(first, tail1.sent, r2.sent);
    }
  }

  /** The trace flags stay in lockstep with debug mode over any run. */
  lemma {:induction false} RunLockstep(s: SessionState, events: seq<Event>, answers: seq<string>)
    requires Lockstep(s)
    ensures Lockstep(Run(s, events, answers).final)
    decreases |events|
  {
    if events != [] && !(Prompts(events[0]) && answers == []) {
      var text := TextFor(events[0], answers);
      LockstepPreserved(s, events[0], text);
      RunLockstep(Dispatch(s, events[0], text).next, events[1..], Remaining(events[0], answers));
    }
  }

  /** The last position reported for one stick, or `last` if the events report none. */
  function LastPosition(stick: Side, events: seq<Event>, last: (int, int)): (int, int) {
    if events == [] then last
    else if events[|events| - 1].StickMoved? && events[|events| - 1].stick == stick then
      (events[|events| - 1].x, events[|events| - 1].y)
    else LastPosition(stick, events[..|events| - 1], last)
  }

  lemma {:induction false} LastPositionCons(stick: Side, e: Event, events: seq<Event>, last: (int, int))
    ensures LastPosition(stick, [e] + events, last)
         == LastPosition(stick, events, if e.StickMoved? && e.stick == stick then (e.x, e.y) else last)
    decreases |events|
  {
    if events != [] {
      assert ([e] + events)[..|events|] == [e] + events[..|events| - 1];
      LastPositionCons(stick, e, events[..|events| - 1], last);
    } else {
      assert ([e] + events)[..0] == [];
    }
  }

  /** After a complete run each stick holds the last position reported for it, however the other stick moved. */
  lemma {:induction false} RunStickMemory(s: SessionState, events: seq<Event>, answers: seq<string>)
    requires PromptCount(events) <= |answers|
    ensures var f := Run(s, events, answers).final;
      (f.leftStickX, f.leftStickY) == LastPosition(Left, events, (s.leftStickX, s.leftStickY))
      && (f.rightStickX, f.rightStickY) == LastPosition(Right, events, (s.rightStickX, s.rightStickY))
    decreases |events|
  {
    if events != [] {
      var e := events[0];
      var text := TextFor(e, answers);
      var n := Dispatch(s, e, text).next;
      if e.StickMoved? {
        StickMoveEffect(s, e.stick, e.x, e.y, text);
      } else if !e.ButtonPressed? {
        OtherEventsIgnored(s, e, text);
      }
      RunStickMemory(n, events[1..], Remaining(e, answers));
      assert events == [e] + events[1..];
      LastPositionCons(Left, e, events[1..], (s.leftStickX, s.leftStickY));
      LastPositionCons(Right, e, events[1..], (s.rightStickX, s.rightStickY));
    }
  }

  /** Events after which the next response is shown once. */
  predicate SetsShowOnce(e: Event) {
    e.ButtonPressed? && e.button in QUERY_BUTTONS
  }

  /** Events after which it is not. */
  predicate ClearsShowOnce(e: Event) {
    e.StickMoved? || (e.ButtonPressed? && e.button in FLIGHT_BUTTONS)
  }

  /** The show-once flag after a sequence of events, starting from `flag`. */
  function ShowOnceAfter(flag: bool, events: seq<Event>): bool
    decreases |events|
  {
    if events == [] then flag
    else ShowOnceAfter(SetsShowOnce(events[0]) || (flag && !ClearsShowOnce(events[0])), events[1..])
  }

  /** No event from index k on clears the show-once flag. */
  predicate NoClearFrom(events: seq<Event>, k: nat) {
    forall j :: k <= j < |events| ==> !ClearsShowOnce(events[j])
  }

  /** A query event at an index with no clearing event after it. */
  predicate PendingQuery(events: seq<Event>) {
    exists i :: 0 <= i < |events| && SetsShowOnce(events[i]) && NoClearFrom(events, i + 1)
  }

  lemma {:induction false} RunShowOnceAfter(s: SessionState, events: seq<Event>, answers: seq<string>)
    requires PromptCount(events) <= |answers|
    ensures Run(s, events, answers).final.tempPrintResponse == ShowOnceAfter(s.tempPrintResponse, events)
    decreases |events|
  {
    if events != [] {
      var e := events[0];
      var text := TextFor(e, answers);
      var n := Dispatch(s, e, text).next;
      if e.StickMoved? {
        StickMoveEffect(s, e.stick, e.x, e.y, text);
      } else if e.ButtonPressed? && (e.button in QUERY_BUTTONS || e.button in FLIGHT_BUTTONS) {
        ButtonFlags(s, e.button, text);
      } else if e.ButtonPressed? && Binding(e.button).Some? {
        assert e.button == "LEFT_THUMB";
      }
      assert n.tempPrintResponse == (SetsShowOnce(e) || (s.tempPrintResponse && !ClearsShowOnce(e)));
      RunShowOnceAfter(n, events[1..], Remaining(e, answers));
    }
  }

  lemma {:induction false} ShowOnceAfterPending(flag: bool, events: seq<Event>)
    ensures ShowOnceAfter(flag, events) <==> PendingQuery(events) || (flag && NoClearFrom(events, 0))
    decreases |events|
  {
    if events != [] {
      var e := events[0];
      var rest := events[1..];
      ShowOnceAfterPending(SetsShowOnce(e) || (flag && !ClearsShowOnce(e)), rest);
      forall k: nat ensures NoClearFrom(events, k + 1) <==> NoClearFrom(rest, k) {
        if NoClearFrom(rest, k) {
          forall j | k + 1 <= j < |events| ensures !ClearsShowOnce(events[j]) {
            assert events[j] == rest[j - 1];
          }
        }
        if NoClearFrom(events, k + 1) {
          forall j | k <= j < |rest| ensures !ClearsShowOnce(rest[j]) {
            assert rest[j] == events[j + 1];
          }
        }
      }
      assert NoClearFrom(events, 0) <==> !ClearsShowOnce(e) && NoClearFrom(events, 1);
      if PendingQuery(rest) {
        var i :| 0 <= i < |rest| && SetsShowOnce(rest[i]) && NoClearFrom(rest, i + 1);
        assert SetsShowOnce(events[i + 1]) && NoClearFrom(events, i + 2);
      }
      if PendingQuery(events) {
        var i :| 0 <= i < |events| && SetsShowOnce(events[i]) && NoClearFrom(events, i + 1);
        if i > 0 {
          assert SetsShowOnce(rest[i - 1]) && NoClearFrom(rest, i);
          assert PendingQuery(rest);
        }
      }
      if SetsShowOnce(e) && NoClearFrom(events, 1) {
        assert PendingQuery(events);
      }
    }
  }

  /**
   * After a complete run the show-once flag is set iff some query button came
   * after the last flight button or stick move, or the flag was already set and
   * no such event came at all.
   */
  lemma RunShowOnce(s: SessionState, events: seq<Event>, answers: seq<string>)
    requires PromptCount(events) <= |answers|
    ensures Run(s, events, answers).final.tempPrintResponse
      <==> PendingQuery(events) || (s.tempPrintResponse && NoClearFrom(events, 0))
  {
    RunShowOnceAfter(s, events, answers);
    ShowOnceAfterPending(s.tempPrintResponse, events);
  }

  /** Events that send a command. */
  predicate Sends(e: Event) {
    e.StickMoved? || (e.ButtonPressed? && Binding(e.button).Some? && e.button != "LEFT_THUMB")
  }

  function SendCount(events: seq<Event>): nat {
    if events == [] then 0 else (if Sends(events[0]) then 1 else 0) + SendCount(events[1..])
  }

  /** A complete run sends one command per sending event. */
  lemma {:induction false} RunSendCount(s: SessionState, events: seq<Event>, answers: seq<string>)
    requires PromptCount(events) <= |answers|
    ensures |Run(s, events, answers).sent| == SendCount(events)
    decreases |events|
  {
    if events != [] {
      var e := events[0];
      var text := TextFor(e, answers);
      if e.StickMoved? {
        StickMoveEffect(s, e.stick, e.x, e.y, text);
      }
      RunSendCount(Dispatch(s, e, text).next, events[1..], Remaining(e, answers));
    }
  }

  /** What the listener made of a burst of datagrams: the texts, and whether it stopped on one it could not decode. */
  datatype Reception = Reception(texts: seq<string>, stopped: bool)

  /** The listener's loop: decode each datagram in turn; the first failure ends the listener. */
  function Receive(ds: seq<seq<byte>>): (r: Reception)
    ensures |r.texts| <= |ds|
    ensures forall i :: 0 <= i < |r.texts| ==> Utf8.Decode(ds[i]) == Some(r.texts[i])
    ensures r.stopped <==> |r.texts| < |ds|
    ensures r.stopped ==> Utf8.Decode(ds[|r.texts|]).None?
  {
    if ds == [] then Reception([], false)
    else
      match Utf8.Decode(ds[0])
      case None => Reception([], true)
      case Some(t) =>
        var r := Receive(ds[1..]);
        Reception([t] + r.texts, r.stopped)
  }

  /** One step of the listener's loop on a datagram that decodes. */
  lemma ReceiveCons(ds: seq<seq<byte>>)
    requires ds != [] && Utf8.Decode(ds[0]).Some?
    ensures var r := Receive(ds[1..]);
      Receive(ds) == Reception([Utf8.Decode(ds[0]).value] + r.texts, r.stopped)
  {
  }

  function EncodeAll(texts: seq<string>): (ds: seq<seq<byte>>)
    ensures |ds| == |texts|
    ensures forall i :: 0 <= i < |texts| ==> ds[i] == Utf8.Encode(texts[i])
  {
    if texts == [] then [] else [Utf8.Encode(texts[0])] + EncodeAll(texts[1..])
  }

  /** Every text the listener accepts is exactly the bytes of its datagram, read as UTF-8. */
  lemma ReceivedAreExact(ds: seq<seq<byte>>)
    ensures var r := Receive(ds);
      forall i :: 0 <= i < |r.texts| ==> Utf8.Encode(r.texts[i]) == ds[i]
  {
    var r := Receive(ds);
    forall i | 0 <= i < |r.texts| ensures Utf8.Encode(r.texts[i]) == ds[i] {
      Utf8.EncodeDecode(ds[i]);
    }
  }

  /** Responses sent as UTF-8 text are all received, verbatim and in order. */
  lemma ReceiveEncoded(texts: seq<string>)
    ensures Receive(EncodeAll(texts)) == Reception(texts, false)
  {
    var r := Receive(EncodeAll(texts));
    forall i | 0 <= i < |texts| ensures Utf8.Decode(EncodeAll(texts)[i]).Some? {
      Utf8.DecodeEncode(texts[i]);
    }
    forall i | 0 <= i < |r.texts| ensures r.texts[i] == texts[i] {
      Utf8.DecodeEncode(texts[i]);
    }
  }

  /** Under lockstep a response is displayed iff debug mode is on or a query reply is pending. */
  lemma DisplaysUnderLockstep(s: SessionState)
    requires Lockstep(s)
    ensures Displays(s) <==> s.debugMode || s.tempPrintResponse
  {
  }
}
