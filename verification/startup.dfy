/** The running add-on: the module-level device list, the socket and the hub,
    with the handlers that update them in place. Each handler is proved to
    move the bridge from one state to the next exactly as the functions of
    module Dispatch say. */
module Startup {
  import opened Text
  import opened Checksum
  import opened FrameCodec
  import opened Registry
  import opened Dispatch

  class Bridge {
    /** The device list, whose `currentVal` entries `manage_gsf` overwrites. */
    var deviceList: seq<Device>
    /** Whether the socket is open (`ws.sock.connected`). */
    var connected: bool
    /** The frames handed to the socket, oldest first. */
    var sent: seq<string>
    /** The posts made to the hub, oldest first. */
    var hubEvents: seq<HubEvent>

    function State(): BridgeState
      reads this
    {
      BridgeState(deviceList, connected, sent, hubEvents)
    }

    /** Start-up: the static device list, nothing sent, nothing posted. */
    constructor (connected: bool)
      ensures State() == InitialState(connected)
    {
      deviceList := StaticDevices();
      this.connected := connected;
      sent := [];
      hubEvents := [];
    }

    /** `create_home_assistant_binary_sensors`: one creation post per device,
        in list order. */
    method CreateBinarySensors()
      modifies this
      ensures State() == old(State()).(events := old(hubEvents) + CreateEvents(deviceList))
    {
      var i := 0;
      while i < |deviceList|
        invariant 0 <= i <= |deviceList|
        invariant deviceList == old(deviceList) && connected == old(connected) && sent == old(sent)
        invariant hubEvents == old(hubEvents) + CreateEvents(deviceList[..i])
      {
        var device := deviceList[i];
        assert deviceList[..i + 1][..i] == deviceList[..i];
        hubEvents := hubEvents + [SensorEvent(CreateSensor, device)];
        i := i + 1;
      }
      assert deviceList[..i] == deviceList;
    }

    /** `send_ws_command`: build the payload, append its checksum and EOT, and
        hand the frame to the socket only if it is open. */
    method SendCommand(command: string, parameters: seq<string>)
      modifies this
      ensures State() == Send(old(State()), command, parameters)
    {
      var message := [STX] + command;
      if |parameters| > 0 {
        message := message + [FS] + Join(parameters, FS);
      }
      message := message + [ETX];
      var crc := BuildCrc(message);
      assert message == Payload(command, parameters);
      var fullMessage := message + crc + [EOT];
      assert fullMessage == EncodeFrame(command, parameters);
      if connected {
        sent := sent + [fullMessage];
      }
    }

    /** The body of the record loop of `manage_gsf`, once the record has
        parsed: the first device with this type and id takes the status if it
        differs, and then its update is posted. */
    method UpdateDevice(deviceType: int, deviceId: int, deviceStatus: int)
      modifies this
      ensures var step := ApplyRecord(old(deviceList), deviceType, deviceId, deviceStatus);
        deviceList == step.0 && hubEvents == old(hubEvents) + step.1
      ensures connected == old(connected) && sent == old(sent)
    {
      var found := FindIndex(deviceList, deviceType, deviceId);
      if found.Some? && deviceList[found.value].currentVal != deviceStatus {
        var device := deviceList[found.value].(currentVal := deviceStatus);
        deviceList := deviceList[found.value := device];
        hubEvents := hubEvents + [SensorEvent(UpdateSensor, device)];
      }
    }

    /** The record loop of `manage_gsf` for class `deviceType`: each record
        in turn updates the list; a record that does not parse (`int()`
        raises) ends the loop with `false`, keeping the updates already made. */
    method ApplyGsfRecords(deviceType: int, records: seq<seq<string>>) returns (ok: bool)
      modifies this
      ensures var outcome := ApplyRecords(old(deviceList), deviceType, records);
        deviceList == outcome.devices && hubEvents == old(hubEvents) + outcome.events && ok == outcome.ok
      ensures connected == old(connected) && sent == old(sent)
    {
      ghost var start, events0 := deviceList, hubEvents;
      ghost var done := ApplyRecords(start, deviceType, records[..0]);
      var i := 0;
      while i < |records|
        invariant 0 <= i <= |records|
        invariant connected == old(connected) && sent == old(sent)
        invariant done == ApplyRecords(start, deviceType, records[..i]) && done.ok
        invariant deviceList == done.devices && hubEvents == events0 + done.events
        decreases |records| - i
      {
        var parsed := ParseRecord(records[i]);
        if parsed.None? {
          ApplyRecordsFailStep(start, deviceType, records, i);
          return false;
        }
        var (deviceId, deviceStatus) := parsed.value;
        ApplyRecordsStep(start, deviceType, records, i, deviceId, deviceStatus);
        ghost var step := ApplyRecord(deviceList, deviceType, deviceId, deviceStatus);
        UpdateDevice(deviceType, deviceId, deviceStatus);
        done := GsfOutcome(step.0, done.events + step.1, true);
        i := i + 1;
      }
      assert records[..i] == records;
      return true;
    }

    /** `manage_gsf`: only the antitheft classes 7 and 12 are handled, other
        classes are ignored, and without parameters the lookup of the class
        raises (`false`). */
    method ManageGsf(parameters: seq<string>, records: seq<seq<string>>) returns (ok: bool)
      modifies this
      ensures var outcome := Gsf(old(deviceList), parameters, records);
        deviceList == outcome.devices && hubEvents == old(hubEvents) + outcome.events && ok == outcome.ok
      ensures connected == old(connected) && sent == old(sent)
    {
      if |parameters| == 0 {
        return false;
      }
      if parameters[0] != "7" && parameters[0] != "12" {
        return true;
      }
      var deviceType := if parameters[0] == "7" then 7 else 12;
      GsfSelectsClass(deviceList, parameters, records);
      ok := ApplyGsfRecords(deviceType, records);
    }

    /** `manage_commands`: `pong` is ignored, `ping` is answered with `PONG`,
        `gsf` is applied, and any other command is ignored. */
    method ManageCommands(command: string, parameters: seq<string>, records: seq<seq<string>>) returns (ok: bool)
      modifies this
      ensures (State(), ok) == HandleMessage(old(State()), Message(command, parameters, records))
    {
      ok := true;
      if command == "pong" {
      } else if command == "ping" {
        SendCommand("PONG", []);
      } else if command == "gsf" {
        ok := ManageGsf(parameters, records);
      }
    }

    /** `on_message`: split the transport message on EOT, skip pieces shorter
        than three characters, parse and dispatch the rest in order; the first
        frame whose handler raises ends the loop, and the error is swallowed. */
    method OnMessage(message: string)
      modifies this
      ensures State() == Dispatch.OnMessage(old(State()), message)
    {
      var messages := Split(message, EOT);
      ghost var st0 := State();
      ghost var handled: seq<Message> := [];
      var i := 0;
      while i < |messages|
        invariant 0 <= i <= |messages|
        invariant handled == DecodePieces(messages[..i])
        invariant HandleMessages(st0, handled) == (State(), true)
      {
        var msg := messages[i];
        DecodePiecesStep(messages, i);
        if |msg| >= 3 {
          var m := ParseFrame(msg);
          var ok := ManageCommands(m.command, m.parameters, m.records);
          HandleMessagesSnoc(st0, handled, m);
          handled := handled + [m];
          if !ok {
            FailureEndsTransport(st0, messages, i + 1);
            return;
          }
        }
        i := i + 1;
      }
      assert messages[..i] == messages;
    }
  }
}
