/** The bridge's state as a value and what `manage_commands` and `on_message`
    do to it. The class in module Startup is proved to follow these functions. */
module Dispatch {
  import opened Text
  import opened FrameCodec
  import opened Registry

  /** The module-level state: the device list, whether the socket is open,
      the frames handed to the socket, and the posts made to the hub. */
  datatype BridgeState = BridgeState(
    devices: seq<Device>, connected: bool, sent: seq<string>, events: seq<HubEvent>)

  function InitialState(connected: bool): BridgeState
  {
    BridgeState(StaticDevices(), connected, [], [])
  }

  /** `send_ws_command`: the frame goes out only on an open socket; otherwise
      it is dropped, not queued. */
  function Send(st: BridgeState, command: string, parameters: seq<string>): (r: BridgeState)
    ensures r.devices == st.devices && r.connected == st.connected && r.events == st.events
    ensures st.connected ==> r.sent == st.sent + [EncodeFrame(command, parameters)]
    ensures !st.connected ==> r.sent == st.sent
  {
    if st.connected then st.(sent := st.sent + [EncodeFrame(command, parameters)]) else st
  }

  /** `manage_commands`: the new state, and `false` where Python raises. The
      command names are matched exactly, case included. */
  function HandleMessage(st: BridgeState, m: Message): (r: (BridgeState, bool))
    ensures r.0.connected == st.connected
    ensures SameKeys(st.devices, r.0.devices)
    ensures m.command != "ping" ==> r.0.sent == st.sent
    ensures m.command != "gsf" ==> r.1 && r.0.devices == st.devices && r.0.events == st.events
    ensures st.events <= r.0.events && st.sent <= r.0.sent
  {
    if m.command == "pong" then (st, true)
    else if m.command == "ping" then (Send(st, "PONG", []), true)
    else if m.command == "gsf" then
      var outcome := Gsf(st.devices, m.parameters, m.records);
      (st.(devices := outcome.devices, events := st.events + outcome.events), outcome.ok)
    else (st, true)
  }

  /** The messages of one transport message handled in order; the first one
      that raises ends the batch, keeping what earlier ones did. The socket
      state and the devices' keys are kept, and frames and posts are only
      ever appended. */
  function HandleMessages(st: BridgeState, ms: seq<Message>): (r: (BridgeState, bool))
    ensures r.0.connected == st.connected
    ensures SameKeys(st.devices, r.0.devices)
    ensures st.events <= r.0.events && st.sent <= r.0.sent
  {
    if ms == [] then (st, true)
    else
      var prev := HandleMessages(st, ms[..|ms| - 1]);
      if !prev.1 then prev
      else
        var r := HandleMessage(prev.0, ms[|ms| - 1]);
        SameKeysTransitive(st.devices, prev.0.devices, r.0.devices);
        r
  }

  /** `on_message`: decode, then dispatch frame by frame. The error is logged
      and swallowed, so only the state remains: the same socket state, the
      same devices with possibly new values, and frames and posts appended. */
  function OnMessage(st: BridgeState, transport: string): (r: BridgeState)
    ensures r.connected == st.connected
    ensures SameKeys(st.devices, r.devices)
    ensures st.events <= r.events && st.sent <= r.sent
  {
    HandleMessages(st, Decode(transport)).0
  }

  /** A `ping` sends exactly one frame, the parameterless `PONG`, when the
      socket is open, and touches nothing else. */
  lemma PingSendsPong(st: BridgeState, parameters: seq<string>, records: seq<seq<string>>)
    ensures var r := HandleMessage(st, Message("ping", parameters, records));
      r.1 && r.0.devices == st.devices && r.0.events == st.events &&
      r.0.sent == st.sent + (if st.connected then [[STX] + "PONG" + [ETX] + "E8" + [EOT]] else [])
  {
    PongFrame();
  }

  /** Handling a run of messages is handling a prefix, then the rest, unless
      the prefix raised, in which case the rest is dropped. */
  lemma {:induction false} HandleMessagesAppend(st: BridgeState, ms: seq<Message>, rest: seq<Message>)
    ensures HandleMessages(st, ms + rest)
         == (var prev := HandleMessages(st, ms);
             if prev.1 then HandleMessages(prev.0, rest) else prev)
    decreases |rest|
  {
    if rest == [] {
      assert ms + rest == ms;
    } else {
      var rest' := rest[..|rest| - 1];
      HandleMessagesAppend(st, ms, rest');
      assert (ms + rest)[..|ms + rest| - 1] == ms + rest';
      var prev := HandleMessages(st, ms);
      if prev.1 {
        assert rest[..|rest| - 1] == rest';
      } else {
        // Both prefixes stop at the failure, which therefore propagates.
        assert HandleMessages(st, ms + rest') == prev;
      }
    }
  }

  /** One more message, handled only if every earlier one succeeded. */
  lemma HandleMessagesSnoc(st: BridgeState, ms: seq<Message>, m: Message)
    ensures HandleMessages(st, ms + [m])
         == (var prev := HandleMessages(st, ms); if prev.1 then HandleMessage(prev.0, m) else prev)
  {
    assert (ms + [m])[..|ms|] == ms;
  }

  /** One frame that raises drops every frame after it in the same transport
      message. */
  lemma FailureDropsSuccessors(st: BridgeState, ms: seq<Message>, rest: seq<Message>)
    requires !HandleMessages(st, ms).1
    ensures HandleMessages(st, ms + rest) == HandleMessages(st, ms)
  {
    HandleMessagesAppend(st, ms, rest);
  }

  /** Once the frames of the first `n` pieces of a transport message have
      raised, the pieces after them change nothing. */
  lemma FailureEndsTransport(st: BridgeState, pieces: seq<string>, n: nat)
    requires n <= |pieces|
    requires !HandleMessages(st, DecodePieces(pieces[..n])).1
    ensures HandleMessages(st, DecodePieces(pieces)) == HandleMessages(st, DecodePieces(pieces[..n]))
  {
    DecodePiecesAppend(pieces[..n], pieces[n..]);
    assert pieces[..n] + pieces[n..] == pieces;
    FailureDropsSuccessors(st, DecodePieces(pieces[..n]), DecodePieces(pieces[n..]));
  }

  /** A transport message holding only `pong` or unrecognised commands (the
      match is case-sensitive, so `PING` is one) changes nothing. */
  lemma {:induction false} InertCommandsChangeNothing(st: BridgeState, ms: seq<Message>)
    requires forall i :: 0 <= i < |ms| ==> ms[i].command != "ping" && ms[i].command != "gsf"
    ensures HandleMessages(st, ms) == (st, true)
  {
    if ms != [] {
      InertCommandsChangeNothing(st, ms[..|ms| - 1]);
    }
  }

  /** A transport message that decodes to one message is that message's
      handling. */
  lemma OnMessageOfOneFrame(st: BridgeState, transport: string)
    requires |Decode(transport)| == 1
    ensures OnMessage(st, transport) == HandleMessage(st, Decode(transport)[0]).0
  {
    var ms := Decode(transport);
    assert ms == [] + [ms[0]];
    HandleMessagesSnoc(st, [], ms[0]);
  }

  /** An encoded `ping` frame with clean parameters of any character width
      decodes to one `ping` message. */
  lemma PingFrameDecodes(parameters: seq<string>)
    requires forall i :: 0 <= i < |parameters| ==> IsClean(parameters[i])
    ensures |Decode(EncodeFrame("ping", parameters))| == 1
    ensures Decode(EncodeFrame("ping", parameters))[0].command == "ping"
  {
    if |parameters| == 0 {
      Latin1FrameHasTwoDigitChecksum("ping", parameters);
    }
    DecodeFrameCommand("ping", parameters);
  }

  /** Receiving an encoded `ping` frame, with any clean parameters of any
      character width, answers with one `PONG` frame. */
  lemma PingFrameIsAnswered(st: BridgeState, parameters: seq<string>)
    requires forall i :: 0 <= i < |parameters| ==> IsClean(parameters[i])
    ensures OnMessage(st, EncodeFrame("ping", parameters)) == Send(st, "PONG", [])
  {
    PingFrameDecodes(parameters);
    OnMessageOfOneFrame(st, EncodeFrame("ping", parameters));
  }

  /** A `gsf` with distinct ids handled twice: the second time the list does not
      change, no update is posted, and the handler succeeds or raises as it did
      the first time. */
  lemma GsfMessageIdempotent(st: BridgeState, m: Message)
    requires m.command == "gsf" && DistinctIds(m.records)
    ensures var once := HandleMessage(st, m);
      HandleMessage(once.0, m) == once
  {
    GsfIdempotent(st.devices, m.parameters, m.records);
    var once := HandleMessage(st, m).0;
    assert once.events + [] == once.events;
  }

  /** The body of the status-report scenario: command `gsf`, parameter `12`,
      one record with fields `3` and `1`. */
  const ScenarioBody: string := ['g', 's', 'f', FS, '1', '2', RS, '3', FS, '1']

  lemma ScenarioBodyRenders()
    ensures IsRenderable(Message("gsf", ["12"], [["3", "1"]]))
    ensures RenderBody(Message("gsf", ["12"], [["3", "1"]])) == ScenarioBody
  {
    assert IsClean("gsf") && IsClean("12") && IsClean("3") && IsClean("1");
    var head := "gsf" + [FS] + "12";
    var row := "3" + [FS] + "1";
    JoinCons("gsf", ["12"], FS);
    JoinCons("3", ["1"], FS);
    assert JoinEach([["3", "1"]], FS) == [row];
    JoinCons(head, [row], RS);
    assert head + [RS] + row == ScenarioBody;
  }

  lemma ScenarioFrameAvoidsEOT(checksum: string)
    requires |checksum| == 2 && EOT !in checksum
    ensures EOT !in [STX] + ScenarioBody + [ETX] + checksum
  {
    var q := [STX] + ScenarioBody + [ETX] + checksum;
    assert forall i :: 0 <= i < |q| - 2 ==> q[i] != EOT;
    assert q[|q| - 2] == checksum[0] && q[|q| - 1] == checksum[1];
  }

  /** The transport message of the status-report scenario decodes to one
      `gsf` message for class 12 with the single record ("3", "1"), whatever
      its two checksum characters. */
  lemma ScenarioDecodes(checksum: string)
    requires |checksum| == 2 && EOT !in checksum
    ensures Decode([STX] + ScenarioBody + [ETX] + checksum + [EOT])
         == [Message("gsf", ["12"], [["3", "1"]])]
  {
    var m := Message("gsf", ["12"], [["3", "1"]]);
    var q := [STX] + ScenarioBody + [ETX] + checksum;
    ScenarioBodyRenders();
    BodyOfFrame(ScenarioBody, checksum);
    ParseRenderedFrame(m, q);
    ScenarioFrameAvoidsEOT(checksum);
    DecodeSingleFrame(q);
  }

  /** Record ("3", "1") for class 12 on the freshly started list: device 3
      flips from 0 to 1 and exactly one update is posted for it. */
  lemma ScenarioDispatches(connected: bool)
    ensures var st := HandleMessage(InitialState(connected), Message("gsf", ["12"], [["3", "1"]]));
      var before := StaticDevices();
      st.1 &&
      st.0.devices == before[2 := before[2].(currentVal := 1)] &&
      st.0.events == [HubEvent(UpdateSensor, "binary_sensor.at_pt_rustico", "on", "Perimetrale rustico", "motion", 12)] &&
      st.0.sent == [] && st.0.connected == connected
  {
    ScenarioRecord();
    var before := StaticDevices();
    var after := before[2 := before[2].(currentVal := 1)];
    GsfSelectsClass(before, ["12"], [["3", "1"]]);
    assert GsfClass(["12"]) == 12;
    assert after[2] == Device(12, 3, "at_pt_rustico", "Perimetrale rustico", 1);
    ScenarioEvent();
  }

  /** The update posted for device 3 switched on. */
  lemma ScenarioEvent()
    ensures SensorEvent(UpdateSensor, Device(12, 3, "at_pt_rustico", "Perimetrale rustico", 1))
         == HubEvent(UpdateSensor, "binary_sensor.at_pt_rustico", "on", "Perimetrale rustico", "motion", 12)
  {
    assert HubState(1) == "on";
    assert "binary_sensor." + "at_pt_rustico" == "binary_sensor.at_pt_rustico";
  }

  /** The record loop of the scenario on the static list. */
  lemma ScenarioRecord()
    ensures var before := StaticDevices();
      var after := before[2 := before[2].(currentVal := 1)];
      ApplyRecords(before, 12, [["3", "1"]]) == GsfOutcome(after, [SensorEvent(UpdateSensor, after[2])], true)
  {
    var records := [["3", "1"]];
    ScenarioFields();
    ScenarioLookup();
    assert records[..0] == [] && records[..1] == records;
    ApplyRecordsStep(StaticDevices(), 12, records, 0, 3, 1);
  }

  /** The scenario's record reads as id 3, status 1. */
  lemma ScenarioFields()
    ensures ParseRecord(["3", "1"]) == Some((3, 1))
  {
    ParseIntString(3);
    ParseIntString(1);
  }

  /** Device 3 of class 12 is the third entry of the static list. */
  lemma ScenarioLookup()
    ensures FindIndex(StaticDevices(), 12, 3) == Some(2)
  {
    var before := StaticDevices();
    assert Matches(before[2], 12, 3) && !Matches(before[0], 12, 3) && !Matches(before[1], 12, 3);
  }

  /** The whole scenario through `on_message`. */
  lemma GsfScenario(connected: bool, checksum: string)
    requires |checksum| == 2 && EOT !in checksum
    ensures var transport := [STX] + ScenarioBody + [ETX] + checksum + [EOT];
      var st := OnMessage(InitialState(connected), transport);
      var before := StaticDevices();
      st.devices == before[2 := before[2].(currentVal := 1)] &&
      st.events == [HubEvent(UpdateSensor, "binary_sensor.at_pt_rustico", "on", "Perimetrale rustico", "motion", 12)] &&
      st.sent == [] && st.connected == connected
  {
    var m := Message("gsf", ["12"], [["3", "1"]]);
    ScenarioDecodes(checksum);
    ScenarioDispatches(connected);
    assert [m][..0] == [];
    assert HandleMessages(InitialState(connected), [m]) == HandleMessage(InitialState(connected), m);
  }
}
