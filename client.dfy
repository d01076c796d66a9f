/**
 * The client program's imperative core: the session variables, the send
 * path, the button/stick dispatch loop, the setup script, the listener's
 * display decision, and the choice of target address.
 */
module Client {
  import opened Base
  import Utf8
  import Hex
  import Decimal
  import Commands
  import opened Dispatcher

  /**
   * The module-level variables the main loop reassigns. Each method is proved
   * against the pure dispatcher: its new state and what it sends are the
   * dispatcher's, so every lemma about the dispatcher holds of the loop.
   */
  class Session {
    var leftStickX: int
    var leftStickY: int
    var rightStickX: int
    var rightStickY: int
    var debugMode: bool
    var printResponse: bool
    var printSent: bool
    var tempPrintResponse: bool

    /** The session variables as a value. */
    function State(): SessionState
      reads this
    {
      SessionState(leftStickX, leftStickY, rightStickX, rightStickY,
                   debugMode, printResponse, printSent, tempPrintResponse)
    }

    /** Sticks centred, debug mode and all printing off. */
    constructor ()
      ensures State() == INITIAL
      ensures Lockstep(State()) && !Displays(State())
    {
      leftStickX, leftStickY, rightStickX, rightStickY := 0, 0, 0, 0;
      printResponse, printSent, tempPrintResponse, debugMode := false, false, false, false;
    }

    /**
     * `udpsend`: the operator's text replaces the "ask" placeholder; the
     * text is UTF-8 encoded, and hex-rendered for the trace when `printSent`
     * is on. The socket write itself is the caller's concern.
     */
    method UdpSend(message: string, operatorText: string) returns (d: Commands.Datagram)
      ensures d == Commands.Frame(Commands.Resolve(message, operatorText), printSent)
    {
      var msg: string;
      if message == Commands.ASK {
        msg := operatorText;
      } else {
        msg := message;
      }
      var payload := Utf8.Encode(msg);
      var messageInHex := Hex.ToHex(payload);
      var trace: Option<string> := None;
      if printSent {
        trace := Some(messageInHex);
      }
      d := Commands.Datagram(msg, payload, trace);
    }

    /** The fixed setup script, sent in order before the loop starts. */
    method Setup() returns (sent: seq<Commands.Datagram>)
      ensures sent == [Commands.Frame("command", printSent), Commands.Frame("streamoff", printSent),
                       Commands.Frame("speed 100", printSent)]
    {
      var d0 := UdpSend("command", "");
      var d1 := UdpSend("streamoff", "");
      var d2 := UdpSend("speed 100", "");
      sent := [d0, d1, d2];
    }

    /** One event of the dispatch loop. */
    method Step(e: Event, operatorText: string) returns (sent: Option<Commands.Datagram>)
      modifies this
      ensures State() == Dispatch(old(State()), e, operatorText).next
      ensures sent == Transmit(Dispatch(old(State()), e, operatorText).command, old(printSent))
      ensures Lockstep(old(State())) ==> Lockstep(State())
    {
      if Lockstep(State()) {
        LockstepPreserved(State(), e, operatorText);
      }
      match e {
        case ButtonPressed(button) =>
          var message := PressButton(button);
          sent := None;
          if message.Some? {
            var d := UdpSend(message.value, operatorText);
            sent := Some(d);
          }
        case StickMoved(stick, x, y) =>
          var d := MoveStick(stick, x, y);
          sent := Some(d);
        case _ =>
          sent := None;
      }
    }

    /**
     * The button branch of the loop: the fixed if/elif table. It returns the
     * message its branch hands to `udpsend` (the "ask" placeholder for A),
     * which `Step` then sends.
     */
    method PressButton(button: string) returns (message: Option<string>)
      modifies this
      ensures State() == Press(old(State()), button, "").next
      ensures forall t :: Press(old(State()), button, t).command
                          == if message.Some? then Some(Commands.Resolve(message.value, t)) else None
    {
      message := None;
      if button == "BACK" {
        message := Some("land");
        tempPrintResponse := false;
      } else if button == "START" {
        message := Some("takeoff");
        tempPrintResponse := false;
      } else if button == "DPAD_LEFT" {
        message := Some("flip l");
        tempPrintResponse := false;
      } else if button == "DPAD_RIGHT" {
        message := Some("flip r");
        tempPrintResponse := false;
      } else if button == "DPAD_UP" {
        message := Some("flip f");
        tempPrintResponse := false;
      } else if button == "DPAD_DOWN" {
        message := Some("flip b");
        tempPrintResponse := false;
      } else if button == "A" {
        message := Some("ask");
        tempPrintResponse := true;
      } else if button == "B" {
        message := Some("battery?");
        tempPrintResponse := true;
      } else if button == "Y" {
        message := Some("temp?");
        tempPrintResponse := true;
      } else if button == "X" {
        message := Some("tof?");
        tempPrintResponse := true;
      } else if button == "LEFT_THUMB" {
        if !debugMode {
          debugMode := true;
          printResponse := true;
          printSent := true;
        } else {
          debugMode := false;
          printResponse := false;
          printSent := false;
        }
      } else if button == "RIGHT_THUMB" {
        message := Some("wifi?");
        tempPrintResponse := true;
      }
    }

    /** The stick branch of the loop: record the moved stick, then send `rc`. */
    method MoveStick(stick: Side, x: int, y: int) returns (d: Commands.Datagram)
      modifies this
      ensures State() == Move(old(State()), stick, x, y, "").next
      ensures forall t :: Some(d) == Transmit(Move(old(State()), stick, x, y, t).command, old(printSent))
    {
      if stick == Right {
        rightStickX := x;
        rightStickY := y;
      }
      if stick == Left {
        leftStickX := x;
        leftStickY := y;
      }
      ghost var moved := State();
      assert moved == Move(old(State()), stick, x, y, "").next.(tempPrintResponse := moved.tempPrintResponse);
      d := UdpSend("rc " + Decimal.IntToString(leftStickX) + " " + Decimal.IntToString(leftStickY) + " "
                   + Decimal.IntToString(rightStickY) + " " + Decimal.IntToString(rightStickX), "");
      forall t
        ensures Commands.Resolve(RcOf(moved), t) == RcOf(moved)
      {
        Commands.RcIsNotAsk(moved.leftStickX, moved.leftStickY, moved.rightStickY, moved.rightStickX, t);
      }
      tempPrintResponse := false;
    }

    /**
     * The dispatch loop over a finite stream of events. A press of A reads the
     * next operator answer; with none left the read fails and the loop ends.
     */
    method Run(events: seq<Event>, answers: seq<string>) returns (sent: seq<Commands.Datagram>, halted: bool)
      modifies this
      ensures var r := Dispatcher.Run(old(State()), events, answers);
        State() == r.final && halted == r.halted && |sent| == |r.sent|
        && forall i :: 0 <= i < |sent| ==> sent[i] == Commands.Frame(r.sent[i].command, r.sent[i].traced)
    {
      sent, halted := [], false;
      ghost var done: seq<Sent> := [];
      var rest, pending := events, answers;
      while rest != []
        invariant var r := Dispatcher.Run(State(), rest, pending);
          Dispatcher.Run(old(State()), events, answers) == RunOutcome(r.final, done + r.sent, r.halted)
        invariant |sent| == |done|
        invariant forall k :: 0 <= k < |sent| ==> sent[k] == Commands.Frame(done[k].command, done[k].traced)
      {
        var event := rest[0];
        var text := "";
        if Prompts(event) {
          if pending == [] {
            halted := true;
            break;
          }
          text := pending[0];
        }
        ghost var before := State();
        var d := Step(event, text);
        RunCons(before, rest, pending);
        ghost var now := SentBy(Dispatch(before, event, text).command, before.printSent);
        rest, pending := rest[1..], Remaining(event, pending);
        AppendAssoc(done, now, Dispatcher.Run(State(), rest, pending).sent);
        done := done + now;
        sent := sent + AsSeq(d);
      }
    }

    /**
     * The listener's loop over a burst of datagrams: each one is decoded and
     * printed if the session says so; the first that does not decode ends the
     * listener.
     */
    method Listen(datagrams: seq<seq<byte>>) returns (shown: seq<string>, stopped: bool)
      ensures var r := Receive(datagrams);
        shown == (if Displays(State()) then r.texts else []) && stopped == r.stopped
    {
      shown, stopped := [], false;
      ghost var received: seq<string> := [];
      var i := 0;
      while i < |datagrams|
        invariant 0 <= i <= |datagrams|
        invariant var r := Receive(datagrams[i..]);
          Receive(datagrams) == Reception(received + r.texts, r.stopped)
        invariant shown == (if Displays(State()) then received else [])
      {
        var response := Utf8.Decode(datagrams[i]);
        if response.None? {
          stopped := true;
          break;
        }
        assert datagrams[i..][1..] == datagrams[i + 1..];
        ReceiveCons(datagrams[i..]);
        AppendAssoc(received, [response.value], Receive(datagrams[i + 1..]).texts);
        received := received + [response.value];
        if printResponse || tempPrintResponse {
          shown := shown + [response.value];
        }
        i := i + 1;
      }
    }
  }

  /** The target chosen at startup: the two presets, or the typed address with the typed port. */
  method SelectTarget(targetIp: string, customPort: int) returns (ip: string, port: int)
    ensures targetIp == "tello" ==> ip == "192.168.10.1" && port == 8889
    ensures targetIp == "laptop" ==> ip == "192.168.1.13" && port == 8889
    ensures targetIp != "tello" && targetIp != "laptop" ==> ip == targetIp && port == customPort
  {
    if targetIp == "tello" {
      ip := "192.168.10.1";
      port := 8889;
    } else if targetIp == "laptop" {
      ip := "192.168.1.13";
      port := 8889;
    } else {
      ip := targetIp;
      port := customPort;
    }
  }
}
