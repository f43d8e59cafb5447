# avews bridge core in Dafny

This project models the core of `avews/startup.py`. That script is a bridge between
an AVE domotics controller and a home-automation hub. The controller talks over a
WebSocket using delimiter-framed text frames:

- a frame is `STX command [FS p1 FS p2 ...] [RS f1 FS f2 ...]* ETX c1 c2 EOT`;
- `c1 c2` is a checksum: the XOR of the payload's character codes, subtracted from
  0xFF, each nibble rendered with Python's `hex()`. While the XOR is at most 0xFF
  (always so for 8-bit characters) that is two upper-case hex digits. Above 0xFF
  the difference is negative and the checksum has three or more characters.

The bridge does four things:

- it keeps a static list of eight antitheft sensors of class 12;
- it answers `ping` with `PONG`;
- it applies `gsf` bulk status reports to the list;
- it posts a binary-sensor state (`"off"` for 0, `"on"` otherwise) to the hub
  whenever a sensor's value changes.

The modules follow the script's structure:

- `Text`: the Python built-ins the protocol relies on. These are `str.split` with a
  one-character separator, `str.join`, `str(int)`, and `int()` on a field.
- `Checksum`: `build_crc` and `value_to_hex`.
  - `Crc` is a function on Python's unbounded integers.
  - `BuildCrc` is the loop, proved equal to `Crc`.
  - `Crc`'s contract gives the checksum's length and alphabet for every payload.
    Lemmas give its two-hex-digit shape when the XOR is at most 0xFF, and its
    boundary values.
- `FrameCodec`: frame building as in `send_ws_command`, and frame parsing as in
  `on_message`.
  - Decoding is proved to invert encoding, both for one frame and for a run of frames
    in one transport message, whenever each checksum is two characters. A frame
    with parameters decodes to its command whatever the checksum's width.
  - Parsing is proved to invert rendering for frames that carry records.
- `Registry`: the device list and the `gsf` record loop.
  - Hub posts are recorded as `HubEvent` values.
  - Its lemmas give the final value of every device, idempotence, that keys are kept,
    and the abort-on-bad-record behaviour.
- `Dispatch`: the script's global state as a `BridgeState` value. `HandleMessage`
  models `manage_commands` and `OnMessage` models `on_message`, as functions over
  that state. The lemmas are about batches, failures, `ping` and the status-report
  scenario.
- `Startup`: class `Bridge`, whose fields are the script's globals: the device list,
  socket state, frames sent and hub posts. Its methods perform the handlers' steps
  in place. Each one is proved to take the state exactly where the `Dispatch` and
  `Registry` functions say.

Where a handler raises in Python, the model returns `false`. `on_message` wraps its
whole loop in one `try`. A frame whose handler raises therefore ends the processing
of the transport message. The updates and posts made before it are kept, and every
later frame in the same transport message is dropped (`Dispatch.FailureDropsSuccessors`).
The code has no per-frame error isolation, and neither has the model.

`manage_commands` recognises exactly `pong`, `ping` and `gsf`; every other command
is ignored. `manage_gsf` handles only the classes `"7"` and `"12"`. The device list
is fixed at start-up; no device is ever added or removed.

## Model

| member | source | states |
|---|---|---|
| Text.Split | avews/startup.py:121 | `str.split` on one character: at least one piece, no piece holds the separator, and joining the pieces with it gives the input back |
| Text.SplitJoin | avews/startup.py:126-128 | splitting a join of separator-free pieces gives the pieces back, so command, parameters and fields are recovered exactly |
| Text.SplitAtFirstSeparator | avews/startup.py:121 | splitting stops at the first separator: `split(a + sep + b) == [a] + split(b)` when `a` has no separator |
| Text.JoinCons | avews/startup.py:136 | joining a piece in front of a non-empty list puts exactly one separator after it |
| Text.ParseIntString | avews/startup.py:100 | `int(str(n)) == n` for every integer, negative ones included |
| Text.ParseIntNeedsDigit | avews/startup.py:100 | `int()` raises on a field without a digit, e.g. the empty field |
| Checksum.BuildCrc | avews/startup.py:145-152 | the XOR loop over the payload followed by the nibble rendering computes exactly `Crc(s)` |
| Checksum.ValueToHex | avews/startup.py:154-155 | `hex(v)[2:].upper()` is never empty, holds only hex digits and `X` (the upper-cased `x` of the `0x` prefix, which `[2:]` keeps for a negative value because it drops `-0`), starts with `X` exactly for negative values, and is one character exactly for 0 to 15 |
| Checksum.Crc | avews/startup.py:145-155 | the checksum has at least two characters, all hex digits or `X`; it has exactly two when the accumulator is at most 0xFF, and starts with `X` otherwise |
| Checksum.ChecksumIsTwoHexDigits | avews/startup.py:145-155 | when the accumulator is at most 0xFF the checksum is two upper-case hex digits, high nibble first, spelling `0xFF - acc`, which equals `acc ^ 0xFF` |
| Checksum.ChecksumBoundaries | avews/startup.py:149-155 | accumulator 0 gives `FF`, 0xFF gives `00`, 0x0A gives `F5`: a zero nibble is one `0`, never empty |
| Checksum.ChecksumOfWideCharacter | avews/startup.py:149-155 | two examples with characters above 0xFF: the payload U+0100 has accumulator 0x100 and the three-character checksum `X1F`, while two U+0100 cancel and give `FF` |
| Checksum.HexDigitsValue | avews/startup.py:154-155 | the hex rendering reads back as the number it renders, and only 0 starts with `0` |
| Checksum.XorAllLatin1 | avews/startup.py:146-148 | XOR-ing 8-bit character codes keeps the accumulator below 256 |
| Checksum.XorAllOnes | avews/startup.py:149 | subtracting a k-bit value from the k-bit all-ones mask is XOR with the mask |
| FrameCodec.Payload | avews/startup.py:134-137 | the checksummed part starts with STX and ends with ETX |
| FrameCodec.EncodeFrame | avews/startup.py:134-139 | a built frame has at least five characters, starts with STX and ends with EOT |
| FrameCodec.Body | avews/startup.py:125 | `msg[1:-3]` is four characters shorter than the frame (empty for frames under four characters), and each of its characters is the frame's character one place further on |
| FrameCodec.ParseFrame | avews/startup.py:125-128 | the parsed command holds no FS |
| FrameCodec.ParseFrameShape | avews/startup.py:125-128 | no parsed parameter or field holds an FS, and every record has at least one field |
| FrameCodec.DecodePieces | avews/startup.py:122-128 | at most one message per piece |
| FrameCodec.DecodedCommandsAvoidFS | avews/startup.py:122-128 | no command decoded from the pieces holds an FS |
| FrameCodec.Decode | avews/startup.py:121-128 | at most one message per EOT-separated piece, none with an FS in its command |
| FrameCodec.SplitEach | avews/startup.py:128 | the list comprehension splits every record segment, in order, into its fields |
| FrameCodec.PayloadIsRenderedBody | avews/startup.py:134-137 | the checksummed payload is STX, command, FS-joined parameters (only when there are some), ETX |
| FrameCodec.EncodedFrameAvoidsEOT | avews/startup.py:134-139 | with clean command and parameters, nothing before the final EOT of a built frame is an EOT |
| FrameCodec.Latin1FrameHasTwoDigitChecksum | avews/startup.py:146-148 | a frame whose command and parameters are 8-bit characters has an accumulator of at most 0xFF |
| FrameCodec.EncodedFrameBody | avews/startup.py:125-139 | `msg[1:-3]` of a built frame whose accumulator is at most 0xFF is exactly its command and parameters, because its checksum is two characters |
| FrameCodec.CrcAvoidsRS | avews/startup.py:150-155 | no checksum character is RS |
| FrameCodec.ParseCommandBeforeFS | avews/startup.py:125-127 | a frame that starts with a clean command and an FS parses to that command, whatever `msg[1:-3]` cuts off its end |
| FrameCodec.ParsedCommandWithParameters | avews/startup.py:125-139 | a built frame with clean parameters parses to its command, whatever the checksum's width |
| FrameCodec.DecodeFrameCommand | avews/startup.py:121-139 | a built frame with clean parameters, or one with a two-character checksum, decodes to exactly one message carrying its command |
| FrameCodec.BodyOfFrame | avews/startup.py:125 | `msg[1:-3]` of any frame with a two-character checksum is what lies between STX and ETX |
| FrameCodec.ParseRenderedFrame | avews/startup.py:125-128 | parsing a frame whose body renders a message returns that message: command, parameters and every record's fields |
| FrameCodec.DecodeEncodeFrame | avews/startup.py:121-139 | one built frame with a two-character checksum, followed by any text, decodes to its message with no records, then to whatever the text decodes to |
| FrameCodec.DecodeOneFrame | avews/startup.py:121-139 | a single built frame with a two-character checksum decodes to exactly its message |
| FrameCodec.DecodeEncodeFrames | avews/startup.py:121-139 | any run of built frames with two-character checksums in one transport message decodes to their messages, one per frame, in order |
| FrameCodec.DecodeEmpty | avews/startup.py:121-124 | the empty transport message yields no frame: the single empty piece is skipped |
| FrameCodec.DecodeSinglePiece | avews/startup.py:122-128 | a piece of three or more characters yields its one parsed frame |
| FrameCodec.DecodeSingleFrame | avews/startup.py:121-128 | a frame without an inner EOT, terminated by EOT, decodes to its parsed frame alone (the trailing empty piece is skipped) |
| FrameCodec.DecodePiecesSnoc | avews/startup.py:122-124 | each further piece adds its frame if it has three or more characters, and nothing otherwise |
| FrameCodec.DecodePiecesStep | avews/startup.py:122-128 | the frames of the pieces up to piece `i` are those before it, then piece `i`'s frame if it has three or more characters |
| FrameCodec.DecodePiecesAppend | avews/startup.py:122-128 | decoding pieces distributes over concatenation: frames come out in transport order |
| FrameCodec.PongXor | avews/startup.py:145-148 | the payload STX `PONG` ETX XORs to 0x17 |
| FrameCodec.PongChecksum | avews/startup.py:145-155 | the checksum of the keep-alive reply is `E8` |
| FrameCodec.PongFrame | avews/startup.py:133-139 | the keep-alive reply is exactly STX `PONG` ETX `E8` EOT, with no FS because there are no parameters |
| Registry.HubState | avews/startup.py:67 | the posted state (computed the same way on line 41) is `"off"` exactly when the value is 0, and `"on"` otherwise |
| Registry.StaticDevices | avews/startup.py:25-34 | eight devices, all of class 12, with ids 1 to 8 in order, all at value 0, and no (type, id) pair repeated |
| Registry.CreateEvents | avews/startup.py:37-49 | one creation post per device, in list order, each carrying the device's entity id, state, nickname, class `motion` and type |
| Registry.SensorEvent | avews/startup.py:64-75 | the post names `binary_sensor.<entity id>`, is `"on"` exactly when the value is not zero, and carries the nickname, class `motion` and the device's type |
| Registry.ParseRecord | avews/startup.py:100 | a record parses exactly when it has two fields that `int()` accepts, and then to their two values |
| Registry.ParseRecordOfNumbers | avews/startup.py:100 | a record written as a decimal id and status, with any further fields, parses back to that id and status |
| Registry.FindIndex | avews/startup.py:101 | `next(...)` finds the first device with this id and type, and `None` means no device matches |
| Registry.FindIndexSameKeys | avews/startup.py:101-103 | a value update never changes which device the search finds |
| Registry.ApplyRecord | avews/startup.py:101-105 | only the first matching device can change, and only to the record's status; a post is made exactly when the list changes, and it is the update for the changed device |
| Registry.Gsf | avews/startup.py:97-98 | the list keeps its devices and keys; without parameters `parameters[0]` raises and nothing changes; a class other than `"7"` or `"12"` changes nothing |
| Registry.GsfSelectsClass | avews/startup.py:98-101 | for class `"7"` or `"12"` the reply is the record loop for that class |
| Registry.ApplyRecords | avews/startup.py:99-105 | each record posts at most one update, and every post of the loop is an update |
| Registry.ApplyRecordsSameKeys | avews/startup.py:99-103 | the record loop never adds, removes, reorders or renames devices |
| Registry.ApplyRecordsOk | avews/startup.py:99-100 | the loop runs to the end exactly when every record has two integer fields |
| Registry.ApplyRecordsStep | avews/startup.py:99-105 | a record that parses applies its update to the list produced by the records before it |
| Registry.ApplyRecordsFailStep | avews/startup.py:99-100 | the first record that does not parse ends the loop with the updates made so far |
| Registry.ApplyRecordsStopsAtFailure | avews/startup.py:99-100 | once a record has failed, later records change nothing |
| Registry.ApplyRecordsValues | avews/startup.py:99-105 | after a complete loop, every device holds its expected value: the first device with a given key takes the last status reported for its id, and every other device keeps its value |
| Registry.GsfValues | avews/startup.py:97-105 | the same for a whole `gsf` of class 7 or 12 that did not raise, which also means that every record parsed |
| Registry.LastStatusDistinct | avews/startup.py:99-100 | with distinct ids, the last status reported for a record's id is that record's status |
| Registry.ApplyRecordsNoChange | avews/startup.py:102 | records whose status every matching device already has change nothing and post nothing |
| Registry.FirstFailure | avews/startup.py:99-100 | when some record does not parse there is a first one, and every record before it parses |
| Registry.ApplyRecordsIdempotentWhenOk | avews/startup.py:99-105 | a loop that ran to the end, replayed with distinct ids on the list it produced, changes nothing, posts nothing and runs to the end |
| Registry.ApplyRecordsIdempotent | avews/startup.py:99-105 | the same for every loop, including one stopped by a record that does not parse: the replay stops at the same record with the same list |
| Registry.GsfIdempotent | avews/startup.py:97-105 | replaying the same `gsf` with distinct ids on the list it produced changes nothing, posts no update, and raises exactly when the first run raised |
| Registry.GsfKeepsUniqueKeys | avews/startup.py:97-105 | a `gsf` keeps (type, id) pairs unique |
| Dispatch.Send | avews/startup.py:140-143 | a frame is appended to the socket's output only when the socket is open; otherwise it is dropped and nothing else changes |
| Dispatch.HandleMessage | avews/startup.py:107-113 | only `ping` sends, only `gsf` touches the list or posts, every other command succeeds without effect, and posts are only ever appended |
| Dispatch.HandleMessages | avews/startup.py:122-131 | a batch keeps the socket state and the devices' keys, and only appends frames and posts |
| Dispatch.OnMessage | avews/startup.py:115-131 | the same for a whole transport message |
| Dispatch.PingSendsPong | avews/startup.py:110-111 | `ping` sends exactly the `PONG` frame when the socket is open, and touches nothing else |
| Dispatch.HandleMessagesSnoc | avews/startup.py:122-129 | a further frame is handled only if every earlier frame succeeded |
| Dispatch.HandleMessagesAppend | avews/startup.py:115-131 | handling a batch is handling a prefix and then the rest, unless the prefix raised |
| Dispatch.FailureDropsSuccessors | avews/startup.py:115-131 | a frame that raises drops every later frame of the same transport message |
| Dispatch.FailureEndsTransport | avews/startup.py:121-131 | once the frames of the first pieces have raised, the remaining pieces of the transport message change nothing |
| Dispatch.InertCommandsChangeNothing | avews/startup.py:107-113 | a batch of `pong` and unrecognised commands (matched case-sensitively) changes nothing |
| Dispatch.OnMessageOfOneFrame | avews/startup.py:115-131 | a transport message that decodes to one message has exactly that message's effect |
| Dispatch.PingFrameDecodes | avews/startup.py:121-139 | a built `ping` frame with clean parameters of any character width decodes to one `ping` message |
| Dispatch.PingFrameIsAnswered | avews/startup.py:107-131 | receiving a built `ping` frame with any clean parameters, of any character width, sends one `PONG` frame |
| Dispatch.GsfMessageIdempotent | avews/startup.py:97-113 | handling the same `gsf` with distinct ids twice: the second time changes nothing, posts nothing and succeeds or raises as the first time did |
| Dispatch.ScenarioBodyRenders | avews/startup.py:125-128 | the body `gsf` FS `12` RS `3` FS `1` renders the status report for class 12 with the single record (3, 1) |
| Dispatch.ScenarioFrameAvoidsEOT | avews/startup.py:121 | that frame has no EOT before its terminator |
| Dispatch.ScenarioDecodes | avews/startup.py:121-128 | that frame, with any two-character checksum, decodes to the one `gsf` message |
| Dispatch.ScenarioFields | avews/startup.py:100 | the scenario's record `3`, `1` parses to id 3 and status 1 |
| Dispatch.ScenarioLookup | avews/startup.py:101 | on the static list, the device of class 12 with id 3 is the third entry |
| Dispatch.ScenarioRecord | avews/startup.py:99-105 | on the static list the record (3, 1) flips device 3 of class 12 from 0 to 1 and posts one update |
| Dispatch.ScenarioEvent | avews/startup.py:64-75 | that update posts `binary_sensor.at_pt_rustico` as `on`, with nickname `Perimetrale rustico`, class `motion`, type 12 |
| Dispatch.ScenarioDispatches | avews/startup.py:97-113 | from start-up, the scenario message succeeds, changes only device 3, posts exactly that update and sends nothing |
| Dispatch.GsfScenario | avews/startup.py:97-131 | the whole scenario through `on_message` |
| Startup.Bridge.constructor | avews/startup.py:25-34 | the bridge starts with the static list, nothing sent and nothing posted |
| Startup.Bridge.CreateBinarySensors | avews/startup.py:37-62 | the loop appends one creation post per device, in order, and changes nothing else |
| Startup.Bridge.SendCommand | avews/startup.py:133-143 | building the frame step by step and computing the checksum by the loop gives exactly `Send`: the encoded frame goes out only on an open socket |
| Startup.Bridge.UpdateDevice | avews/startup.py:101-105 | the in-place update of the found device and its post agree with `ApplyRecord` |
| Startup.Bridge.ApplyGsfRecords | avews/startup.py:99-105 | the in-place record loop, including its early exit on a record that does not parse, ends in the state `ApplyRecords` gives |
| Startup.Bridge.ManageGsf | avews/startup.py:97-105 | the handler ends in the list, posts and result of `Gsf` |
| Startup.Bridge.ManageCommands | avews/startup.py:107-113 | the handler's new state and result are those of `HandleMessage` |
| Startup.Bridge.OnMessage | avews/startup.py:115-131 | the split-skip-parse-dispatch loop, stopping at the first frame that raises, ends in the state `OnMessage` gives |

## Left out

- Loading `/data/options.json`, the environment token and the options it sets. `VERBOSE` only affects logging.
- `log_with_timestamp` and every `print`.
- The HTTP posts to the hub. Each post is recorded as a `HubEvent` with the URL's entity id and the body's state and attributes. HTTP failures are caught and logged by the source, so they change no state.
- `connect_websocket` and its callbacks `on_open`, `on_close` and `on_error`, the reconnect delay, the polling thread (`send_ws_command("GSF", ["12"])` every `POLL_INTERVAL` seconds) and `__main__`. Threads, timing and the socket's life cycle are outside a sequential model. The socket state is the field `Bridge.connected`.
- UTF-8 decoding of a `bytes` message in `on_message`. The model receives the decoded text.
- Text.ParseInt: accepts ASCII digits only. Python's `int()` also accepts other Unicode decimal digits, which the model rejects.
- Text.ParseInt: has no limit on the number of digits. From Python 3.11 on, `int()` raises on a decimal string of more than 4300 digits, which the model accepts.
- FrameCodec.DecodeEncodeFrame: the round trip is stated for commands and parameters free of EOT, FS and RS whose accumulator is at most 0xFF, which every frame of 8-bit characters meets. When the accumulator exceeds 0xFF the checksum has at least three characters (0x1000 gives `XF1F`), so `msg[1:-3]` leaves ETX at the end of the body, followed by all but the last three checksum characters when the checksum is four or more characters long. A frame with parameters still decodes to its command (`FrameCodec.DecodeFrameCommand`), but its last parameter carries that tail; a frame without parameters carries it in its command.
- Checksum validation on receipt: the source never checks the received checksum, and neither does the model.
