# Tello controller client: a Dafny model

`tello_new.py` lets you fly a DJI Tello drone from an Xbox controller. It
sends the drone plain-text commands over UDP. At startup it asks for a target:
the `tello` preset, the `laptop` preset, or a typed address and port. It then
sends a fixed setup script (`command`, `streamoff`, `speed 100`). After that
it loops forever over controller events:

- Each button binds to one command. BACK lands, START takes off and the D-pad
  flips.
- A prompts the operator for a command to type. B, Y, X and RIGHT_THUMB query
  battery, temperature, the time-of-flight distance sensor and Wi-Fi.
- LEFT_THUMB toggles debug mode.
- Every stick move sends the four-channel `rc lx ly ry rx` command.

A listener thread prints each response the drone returns in two cases: while
debug mode (`printResponse`) is on, or when the last command was a query
(`tempprintResponse`, the "show once" flag). Every outgoing command is UTF-8
encoded. While `printSent` is on, its hex form is printed as a trace.

The project has seven files:

- `base.dfy`: `Option` and the `byte` type.
- `utf8.dfy`: a strict UTF-8 encoder and decoder, with round trips in both
  directions.
- `hex.dfy`: the lowercase hex rendering of bytes (Python's `bytes.hex()`)
  and its inverse.
- `decimal.dfy`: Python's `str()` of an integer and its parse.
- `commands.dfy`: the placeholder substitution of `udpsend` and the datagram a
  command becomes. Also the `rc` command and its reading back.
- `dispatcher.dfy`: the main loop as a pure state machine. It has the session
  record, the events, one dispatch step, a run over a finite event stream, the
  listener's decoding and its display predicate, and the properties of all of
  these.
- `client.dfy`: the program itself, in imperative form. The module-level
  variables are the fields of the class `Session`. Its methods are
  `udpsend`, the setup script, one loop iteration (split into its button and
  stick branches), the loop, and the listener's loop. `SelectTarget` is the
  preset choice. Step, PressButton, MoveStick, Run and Listen are proved
  against the pure dispatcher, and UdpSend and Setup against
  `Commands.Frame`, so every dispatcher lemma holds of the loop.

The listener `recv` never clears the show-once flag (line 51). Only the next
flight command or stick move clears it (lines 128-153, 205).
`Dispatcher.RunShowOnce` states exactly when the flag is still set after a run.

## Model

| member | source | states |
|---|---|---|
| Utf8.EncodeScalar | tello_new.py:64 | A code point encodes to one to four bytes. It encodes to exactly one byte iff it is below 0x80. Every byte after the first is a continuation byte. |
| Utf8.Encode | tello_new.py:67 | A string's UTF-8 payload has at least one and at most four bytes per character. |
| Utf8.DecodeFirst | tello_new.py:50 | A decoded character consumes at least one byte and no more bytes than there are. |
| Utf8.DecodeEncode | tello_new.py:50 | The receiving side's strict UTF-8 decoding of an encoded string gives back that string. |
| Utf8.DecodeFirstIsEncoding | tello_new.py:50 | Whatever character the strict decoder accepts, the bytes it consumed are exactly that character's encoding. No overlong form, surrogate or value above U+10FFFF gets through. |
| Utf8.ThreeByteIsEncoding | tello_new.py:50 | An accepted three-byte form is the encoding of the character it decodes to. |
| Utf8.FourByteIsEncoding | tello_new.py:50 | An accepted four-byte form is the encoding of the character it decodes to. |
| Utf8.EncodeDecode | tello_new.py:50 | Any byte sequence that decodes is the encoding of its text, so decoding is the exact inverse of encoding. |
| Utf8.EncodeAscii | tello_new.py:67 | An ASCII command is sent as one byte per character, equal to its code. |
| Hex.Digit | tello_new.py:64 | A nibble renders as a lowercase hex digit. |
| Hex.DigitValue | tello_new.py:64 | A character has a nibble value iff it is a lowercase hex digit, and that value renders back to the character. |
| Hex.ToHex | tello_new.py:64 | The hex trace of a payload has exactly two characters per byte, all lowercase hex digits. |
| Hex.ToHexAt | tello_new.py:64 | Characters 2i and 2i+1 of the trace are the high and low nibble of byte i, so bytes appear in order. |
| Hex.FromHexToHex | tello_new.py:64 | The trace reads back to the exact payload bytes. |
| Decimal.DigitChar | tello_new.py:204 | A digit value renders as a decimal digit character. |
| Decimal.NatToString | tello_new.py:204 | `str` of a natural number is a non-empty digit string. It has a leading zero only when the number is 0 (then it is "0"). |
| Decimal.IntToString | tello_new.py:204 | `str` of an integer is non-empty and has no space. It starts with '-' iff the integer is negative. |
| Decimal.NatRoundTrip | tello_new.py:204 | The digits of `str(n)` evaluate back to n. |
| Decimal.NegativeRoundTrip | tello_new.py:204 | The rendering of a negative number parses back to it. |
| Decimal.IntRoundTrip | tello_new.py:204 | Every integer's rendering parses back to that integer. |
| Commands.Resolve | tello_new.py:60-63 | The placeholder "ask" is replaced by the operator's typed text. Every other message is sent as given. |
| Commands.Frame | tello_new.py:59-68 | A datagram carries its command's text. It has a hex trace iff `printSent` is on. |
| Commands.FrameFaithful | tello_new.py:64-67 | The payload decodes back to the text. When traced, the trace is two lowercase digits per payload byte, in byte order, and reads back to the payload. |
| Commands.Rc | tello_new.py:204 | An `rc` command starts with "rc ". |
| Commands.Split | tello_new.py:204 | Splitting at spaces gives at least one field. |
| Commands.RcFields | tello_new.py:204 | An `rc` command is exactly five space-separated fields: "rc" and the four renderings, in the order given. |
| Commands.RcPayload | tello_new.py:64-67 | An `rc` command is ASCII, so its UTF-8 payload is one byte per character, each byte the character's code. |
| Commands.RcRoundTrip | tello_new.py:204 | An `rc` command reads back as exactly its four values, in order. |
| Commands.RcIsNotAsk | tello_new.py:60 | An `rc` command is never the placeholder, so a stick move never prompts the operator. |
| Dispatcher.ButtonTableDomain | tello_new.py:124-190 | The button chain handles exactly the five query buttons, the six flight buttons and LEFT_THUMB. LEFT_THUMB is the only one that toggles. |
| Dispatcher.ButtonPayload | tello_new.py:124-190 | Every fixed button command (all but A's typed text) is ASCII, so its payload is one byte per character, each byte the character's code. |
| Dispatcher.FlightCommands | tello_new.py:124-153 | BACK sends "land", START "takeoff", and DPAD_LEFT/RIGHT/UP/DOWN send "flip l"/"flip r"/"flip f"/"flip b". |
| Dispatcher.QueryCommands | tello_new.py:154-190 | B sends "battery?", Y "temp?", X "tof?" and RIGHT_THUMB "wifi?". A sends the operator's typed text verbatim. |
| Dispatcher.ButtonFlags | tello_new.py:124-190 | A query button sets the show-once flag and a flight button clears it. Each sends a command and changes nothing else. |
| Dispatcher.ToggleDebugEffect | tello_new.py:174-185 | LEFT_THUMB sends nothing. It sets debug mode, `printResponse` and `printSent` to the negation of the old debug mode, and leaves everything else unchanged. |
| Dispatcher.ToggleDebugTwice | tello_new.py:174-185 | Pressing LEFT_THUMB twice restores debug mode and leaves the three flags in lockstep. From a lockstep state it restores the state exactly. |
| Dispatcher.UnknownButtonIgnored | tello_new.py:123-190 | A button outside the chain sends nothing and changes nothing. |
| Dispatcher.OtherEventsIgnored | tello_new.py:122-205 | Events other than a button press or a stick move send nothing and change nothing. |
| Dispatcher.StickMoveEffect | tello_new.py:191-205 | A stick move updates only that stick's two values and clears the show-once flag. It leaves the other stick and the flags unchanged, and sends `rc` built from the new values. |
| Dispatcher.StickMoveParses | tello_new.py:204 | The `rc` command of a stick move reads back as left X, left Y, right Y, right X of the new state. |
| Dispatcher.StickMoveExample | tello_new.py:204 | From the start, moving the left stick to (50, -50) sends "rc 50 -50 0 0". |
| Dispatcher.StickMoveIdempotent | tello_new.py:191-205 | Repeating a stick move leaves the state unchanged and sends the same command again. |
| Dispatcher.OperatorTextOnlyForA | tello_new.py:59-63 | For every event except pressing A, what the operator would type makes no difference. |
| Dispatcher.LockstepPreserved | tello_new.py:174-185 | No event breaks the agreement of `printResponse` and `printSent` with debug mode. |
| Dispatcher.QueryReplyDisplayed | tello_new.py:154-190 | Right after a query button, an arriving response is displayed, whatever the debug mode. |
| Dispatcher.RunHalts | tello_new.py:61 | The loop stops early iff more A presses come than the operator has answers. |
| Dispatcher.RunAppend | tello_new.py:120-122 | Running two batches of events one after the other equals running their concatenation, when the first batch has all its answers. |
| Dispatcher.RunLockstep | tello_new.py:174-185 | Over any run, the trace flags stay in lockstep with debug mode. |
| Dispatcher.RunStickMemory | tello_new.py:191-203 | After a complete run, each stick holds the last position reported for it, however the other stick moved. |
| Dispatcher.RunShowOnceAfter | tello_new.py:123-205 | After a complete run, the show-once flag is the fold of the per-event set/clear rule. |
| Dispatcher.ShowOnceAfterPending | tello_new.py:123-205 | The fold is true iff a query came after the last clearing event, or the flag started set and nothing cleared it. |
| Dispatcher.RunShowOnce | tello_new.py:123-205 | After a complete run, the show-once flag is set iff a query came after the last flight button or stick move, or it was set before and no such event came. |
| Dispatcher.RunSendCount | tello_new.py:123-205 | A complete run sends exactly one command per stick move or bound button other than LEFT_THUMB. |
| Dispatcher.Receive | tello_new.py:46-55 | The listener returns the texts of a prefix of the datagrams, each the decoding of its datagram. It stops iff a datagram fails to decode, and then that datagram is the next one. |
| Dispatcher.EncodeAll | tello_new.py:50 | Each response text is encoded on its own, in order. |
| Dispatcher.ReceivedAreExact | tello_new.py:49-50 | Every text the listener accepts is exactly its datagram's bytes read as UTF-8. |
| Dispatcher.ReceiveEncoded | tello_new.py:49-52 | Responses sent as UTF-8 are all received, verbatim and in order, and the listener does not stop. |
| Dispatcher.DisplaysUnderLockstep | tello_new.py:51 | In lockstep, a response is displayed iff debug mode is on or a query reply is pending. |
| Client.Session.constructor | tello_new.py:22-30 | Sticks start centred and debug mode and all printing start off. No response would be displayed. |
| Client.Session.UdpSend | tello_new.py:59-68 | The datagram sent is the frame of the resolved message under the current `printSent`. |
| Client.Session.Setup | tello_new.py:110-114 | The setup sends "command", "streamoff" and "speed 100", in that order, framed under the current `printSent`. |
| Client.Session.Step | tello_new.py:122-205 | One loop iteration leaves the variables in the dispatcher's next state. It sends exactly the dispatcher's command, traced under the old `printSent`, and preserves lockstep. |
| Client.Session.PressButton | tello_new.py:123-190 | The button chain updates the variables as the dispatcher's press does. Its message, resolved with any operator text, is the dispatcher's command. |
| Client.Session.MoveStick | tello_new.py:191-205 | The stick branch updates the variables as the dispatcher's move does, and sends the dispatcher's `rc` datagram for any operator text, without asking the operator for one. |
| Client.Session.Run | tello_new.py:120-205 | The loop over an event stream ends in the dispatcher run's final state, halts when it does, and sends one datagram per command the run records, in order, each framed with its recorded trace setting. |
| Client.Session.Listen | tello_new.py:46-55 | The listener shows the received texts iff the session displays responses. It stops exactly where the dispatcher's reception stops. |
| Client.SelectTarget | tello_new.py:76-85 | "tello" selects 192.168.10.1:8889 and "laptop" selects 192.168.1.13:8889. Any other input selects the typed address and port. |

## Left out

- The UDP socket: binding port 9000 and `sendto`/`recvfrom` are I/O. A sent command is the datagram value that `UdpSend` returns. A received one is a byte sequence given to `Listen`.
- Receive errors: any `recvfrom` error ends the listener (lines 53-55). Examples are a datagram longer than the 1518-byte buffer, an unbound socket after a failed bind (line 16), or a reset after an ICMP port-unreachable reply. `Listen` takes whole datagrams and stops only on a datagram that does not decode.
- The listener thread and its concurrency with the main loop. `Listen` reads the flags as they stand when it runs. A response that races with a button press is not modelled.
- XInput: controller detection, the startup rumble and `controller_rumble` are hardware calls. Events come in as a finite sequence. The endless `while True` becomes one run over that sequence.
- Sleeps: the loop's 5 ms sleep (line 121) and the setup's `sleep(0.5)` pauses (lines 109-115) only pace the program. The model drops them.
- Stick scaling: `round(event.x * 100)` is floating point. Events carry the already-scaled integer axes.
- Console output is not modelled: the colored banners, the debug prints of which button was pressed, the "Response:" and "Command sent:" lines. What would be printed is modelled as data: the hex trace and the displayed texts.
- `input()` for the operator's command: the operator's answers are a parameter. When they run out, `input()` would raise an exception that ends the main loop. The listener thread (lines 71-72) is not a daemon thread, so the process stays alive. The run halts at that point.
- `input()` and `int()` for the target address and port: they are parameters of `SelectTarget`. A port that is not a number would make `int()` raise. A port outside 0-65535, or a typed address that does not resolve, makes the first `sendto` (line 68, reached from line 110) raise, which ends the main program. This model covers none of these failures.
- Encoding errors: the model's strings hold Unicode scalar values only, so `msg.encode("utf-8")` cannot fail. Lone surrogates are not modelled.
- A trigger event carries only which trigger moved, not its value, because the loop ignores trigger events. ButtonReleased carries its button name and is ignored too.
- Client.Session.PressButton: returns the message of its branch instead of calling `udpsend` inside the branch. `Step` then sends that message. The variables and the datagram end up as in the source. The only difference is that the flag update comes before the send, which can matter only with the listener running concurrently.
