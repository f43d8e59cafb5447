/** The controller's wire format. A frame is
    STX, command, [FS, parameters joined by FS], ETX, checksum, EOT, where the
    checksum is two hex digits whenever the payload's XOR is at most 0xFF;
    an inbound frame body may also carry records, each introduced by RS and made
    of FS-separated fields. Several frames may share one transport message. */
module FrameCodec {
  import opened Text
  import opened Checksum

  const STX: char := 0x02 as char  // start of frame
  const ETX: char := 0x03 as char  // end of payload, the checksum follows
  const EOT: char := 0x04 as char  // end of frame
  const FS: char := 0x1D as char   // between command, parameters and fields
  const RS: char := 0x1E as char   // before each record

  /** A decoded frame. */
  datatype Message = Message(command: string, parameters: seq<string>, records: seq<seq<string>>)

  // ---------------------------------------------------------------------
  // Encoding (`send_ws_command`)

  /** The characters the checksum covers: everything up to and including ETX.
      The parameter part is present only for a non-empty parameter list. */
  function Payload(command: string, parameters: seq<string>): (r: string)
    ensures |r| >= 2 && r[0] == STX && r[|r| - 1] == ETX
  {
    [STX] + command + (if |parameters| > 0 then [FS] + Join(parameters, FS) else []) + [ETX]
  }

  /** The complete outbound frame: at least STX, ETX, two checksum characters
      and EOT. */
  function EncodeFrame(command: string, parameters: seq<string>): (r: string)
    ensures |r| >= 5 && r[0] == STX && r[|r| - 1] == EOT
  {
    var payload := Payload(command, parameters);
    payload + Crc(payload) + [EOT]
  }

  /** Several frames sent back to back in one transport message. */
  function EncodeFrames(frames: seq<(string, seq<string>)>): string
  {
    if frames == [] then ""
    else EncodeFrame(frames[0].0, frames[0].1) + EncodeFrames(frames[1..])
  }

  // ---------------------------------------------------------------------
  // Decoding (the parsing inside `on_message`)

  /** `msg[1:-3]`: the frame without its start marker, ETX and checksum. A
      Python slice never fails; a frame of three characters leaves nothing. */
  function Body(frame: string): (r: string)
    ensures |r| == if |frame| >= 4 then |frame| - 4 else 0
    ensures forall i :: 0 <= i < |r| ==> r[i] == frame[i + 1]
  {
    if |frame| >= 4 then frame[1..|frame| - 3] else ""
  }

  /** Splits every segment on `sep`. */
  function SplitEach(segments: seq<string>, sep: char): (r: seq<seq<string>>)
    ensures |r| == |segments|
    ensures forall i :: 0 <= i < |r| ==> r[i] == Split(segments[i], sep)
  {
    if segments == [] then [] else [Split(segments[0], sep)] + SplitEach(segments[1..], sep)
  }

  /** One frame: the first RS segment is the command and its parameters, every
      later segment is a record. The checksum is not verified. The command
      holds no FS. */
  function ParseFrame(frame: string): (r: Message)
    ensures FS !in r.command
  {
    var segments := Split(Body(frame), RS);
    var head := Split(segments[0], FS);
    Message(head[0], head[1..], SplitEach(segments[1..], FS))
  }

  /** No parsed parameter or field holds an FS, and every record has at
      least one field. */
  lemma ParseFrameShape(frame: string)
    ensures var r := ParseFrame(frame);
      (forall i :: 0 <= i < |r.parameters| ==> FS !in r.parameters[i]) &&
      (forall i :: 0 <= i < |r.records| ==> |r.records[i]| >= 1) &&
      (forall i, j :: 0 <= i < |r.records| && 0 <= j < |r.records[i]| ==> FS !in r.records[i][j])
  {
  }

  /** The frames of a transport message, in order; pieces shorter than three
      characters (such as the empty piece after the final EOT) are skipped. */
  function DecodePieces(pieces: seq<string>): (r: seq<Message>)
    ensures |r| <= |pieces|
  {
    if pieces == [] then []
    else
      var last := pieces[|pieces| - 1];
      DecodePieces(pieces[..|pieces| - 1]) + (if |last| < 3 then [] else [ParseFrame(last)])
  }

  /** At most one message per EOT-separated piece, and no decoded command
      holds an FS. */
  function Decode(transport: string): (r: seq<Message>)
    ensures |r| <= |Split(transport, EOT)|
    ensures forall i :: 0 <= i < |r| ==> FS !in r[i].command
  {
    DecodedCommandsAvoidFS(Split(transport, EOT));
    DecodePieces(Split(transport, EOT))
  }

  /** No command decoded from a list of pieces holds an FS. */
  lemma {:induction false} DecodedCommandsAvoidFS(pieces: seq<string>)
    ensures forall i :: 0 <= i < |DecodePieces(pieces)| ==> FS !in DecodePieces(pieces)[i].command
  {
    if pieces != [] {
      DecodedCommandsAvoidFS(pieces[..|pieces| - 1]);
    }
  }

  // ---------------------------------------------------------------------
  // Rendering a message body, the reference the decoder is proved against

  /** Free of the three characters that delimit frames, records and fields. */
  predicate IsClean(s: string)
  {
    EOT !in s && FS !in s && RS !in s
  }

  function JoinEach(records: seq<seq<string>>, sep: char): (r: seq<string>)
    ensures |r| == |records|
    ensures forall i :: 0 <= i < |r| ==> r[i] == Join(records[i], sep)
  {
    if records == [] then [] else [Join(records[0], sep)] + JoinEach(records[1..], sep)
  }

  /** The body a sender writes for `m`. */
  function RenderBody(m: Message): string
  {
    Join([Join([m.command] + m.parameters, FS)] + JoinEach(m.records, FS), RS)
  }

  /** A message a frame can carry: clean command, parameters and fields, and
      every record with at least one field (a split never yields fewer). */
  predicate IsRenderable(m: Message)
  {
    IsClean(m.command) &&
    (forall i :: 0 <= i < |m.parameters| ==> IsClean(m.parameters[i])) &&
    (forall i :: 0 <= i < |m.records| ==> |m.records[i]| >= 1) &&
    (forall i, j :: 0 <= i < |m.records| && 0 <= j < |m.records[i]| ==> IsClean(m.records[i][j]))
  }

  /** A character that no piece holds and that is not the separator is not in the join. */
  lemma {:induction false} JoinAvoids(xs: seq<string>, sep: char, c: char)
    requires c != sep
    requires forall i :: 0 <= i < |xs| ==> c !in xs[i]
    ensures c !in Join(xs, sep)
  {
    if |xs| > 1 {
      JoinAvoids(xs[1..], sep, c);
    }
  }

  /** Joining 8-bit pieces with an 8-bit separator stays 8-bit. */
  lemma {:induction false} JoinLatin1(xs: seq<string>, sep: char)
    requires sep as int < 256
    requires forall i :: 0 <= i < |xs| ==> IsLatin1(xs[i])
    ensures IsLatin1(Join(xs, sep))
  {
    if |xs| > 1 {
      JoinLatin1(xs[1..], sep);
    }
  }

  /** The head segment of a rendered message holds no RS. */
  lemma HeadAvoidsRS(m: Message)
    requires IsRenderable(m)
    ensures RS !in Join([m.command] + m.parameters, FS)
  {
    var xs := [m.command] + m.parameters;
    assert forall i :: 0 <= i < |xs| ==> RS !in xs[i] by {
      forall i | 0 <= i < |xs| ensures RS !in xs[i] {
        if i > 0 { assert xs[i] == m.parameters[i - 1]; }
      }
    }
    JoinAvoids(xs, FS, RS);
  }

  /** Parsing a frame whose body was rendered from `m` gives back `m`:
      command, parameters and records. */
  lemma ParseRenderedFrame(m: Message, frame: string)
    requires IsRenderable(m)
    requires |frame| >= 4 && Body(frame) == RenderBody(m)
    ensures ParseFrame(frame) == m
  {
    var head := [m.command] + m.parameters;
    var rows := JoinEach(m.records, FS);
    var segments := [Join(head, FS)] + rows;
    HeadAvoidsRS(m);
    forall i | 0 <= i < |rows| ensures RS !in rows[i] {
      JoinAvoids(m.records[i], FS, RS);
    }
    assert forall i :: 0 <= i < |segments| ==> RS !in segments[i] by {
      forall i | 0 <= i < |segments| ensures RS !in segments[i] {
        if i > 0 { assert segments[i] == rows[i - 1]; }
      }
    }
    SplitJoin(segments, RS);
    assert forall i :: 0 <= i < |head| ==> FS !in head[i] by {
      forall i | 0 <= i < |head| ensures FS !in head[i] {
        if i > 0 { assert head[i] == m.parameters[i - 1]; }
      }
    }
    SplitJoin(head, FS);
    var records := SplitEach(segments[1..], FS);
    forall i | 0 <= i < |records| ensures records[i] == m.records[i] {
      SplitJoin(m.records[i], FS);
    }
  }

  /** The checksummed payload is STX, the rendered body of a record-less
      message, ETX. */
  lemma PayloadIsRenderedBody(command: string, parameters: seq<string>)
    ensures Payload(command, parameters)
         == [STX] + RenderBody(Message(command, parameters, [])) + [ETX]
  {
    var m := Message(command, parameters, []);
    assert RenderBody(m) == Join([command] + parameters, FS);
    if |parameters| > 0 {
      JoinCons(command, parameters, FS);
    }
  }

  /** Encoding, up to the EOT, never contains EOT. */
  lemma EncodedFrameAvoidsEOT(command: string, parameters: seq<string>)
    requires IsClean(command)
    requires forall i :: 0 <= i < |parameters| ==> IsClean(parameters[i])
    ensures EOT !in Payload(command, parameters) + Crc(Payload(command, parameters))
  {
    JoinAvoids(parameters, FS, EOT);
  }

  /** The payload's accumulator fits in 8 bits, so its checksum is two
      characters. */
  predicate HasTwoDigitChecksum(command: string, parameters: seq<string>)
  {
    XorAll(Payload(command, parameters)) <= 0xFF
  }

  /** Every frame of 8-bit characters has a two-character checksum. */
  lemma Latin1FrameHasTwoDigitChecksum(command: string, parameters: seq<string>)
    requires IsLatin1(command)
    requires forall i :: 0 <= i < |parameters| ==> IsLatin1(parameters[i])
    ensures HasTwoDigitChecksum(command, parameters)
  {
    JoinLatin1(parameters, FS);
    assert IsLatin1(Payload(command, parameters));
    XorAllLatin1(Payload(command, parameters));
  }

  /** Cutting the start marker and the last three characters off an encoded
      frame leaves the rendered body: with a two-character checksum,
      `msg[1:-3]` removes exactly ETX and it. */
  lemma EncodedFrameBody(command: string, parameters: seq<string>)
    requires HasTwoDigitChecksum(command, parameters)
    ensures var payload := Payload(command, parameters);
      |payload + Crc(payload)| >= 4 &&
      Body(payload + Crc(payload)) == RenderBody(Message(command, parameters, []))
  {
    var payload := Payload(command, parameters);
    PayloadIsRenderedBody(command, parameters);
    var q := payload + Crc(payload);
    assert q[1..|q| - 3] == payload[1..|payload| - 1];
  }

  /** Decoding the empty transport message gives no frame. */
  lemma DecodeEmpty()
    ensures Decode("") == []
  {
    assert Split("", EOT) == [""];
    assert [""][..0] == [];
  }

  /** One encoded frame decodes to exactly one message: the same command, the
      same parameters (none if none were given) and no records; decoding then
      carries on with whatever follows the frame's EOT. */
  lemma {:induction false} DecodeEncodeFrame(command: string, parameters: seq<string>, rest: string)
    requires IsClean(command) && HasTwoDigitChecksum(command, parameters)
    requires forall i :: 0 <= i < |parameters| ==> IsClean(parameters[i])
    ensures Decode(EncodeFrame(command, parameters) + rest)
         == [Message(command, parameters, [])] + Decode(rest)
  {
    var m := Message(command, parameters, []);
    var payload := Payload(command, parameters);
    var q := payload + Crc(payload);
    var pieces := Split(rest, EOT);
    EncodedFrameAvoidsEOT(command, parameters);
    assert EncodeFrame(command, parameters) + rest == q + [EOT] + rest;
    SplitAtFirstSeparator(q, rest, EOT);
    assert Split(EncodeFrame(command, parameters) + rest, EOT) == [q] + pieces;
    EncodedFrameBody(command, parameters);
    ParseRenderedFrame(m, q);
    DecodeSinglePiece(q);
    DecodePiecesAppend([q], pieces);
  }

  /** A piece of three or more characters decodes to its one message. */
  lemma DecodeSinglePiece(q: string)
    requires |q| >= 3
    ensures DecodePieces([q]) == [ParseFrame(q)]
  {
    assert [q][..0] == [];
  }

  /** `msg[1:-3]` of a frame with a two-character checksum is what lies
      between the start marker and ETX. */
  lemma BodyOfFrame(body: string, checksum: string)
    requires |checksum| == 2
    ensures Body([STX] + body + [ETX] + checksum) == body
  {
    var q := [STX] + body + [ETX] + checksum;
    assert q[1..|q| - 3] == body;
  }

  /** A transport message holding one frame decodes to that frame's message. */
  lemma DecodeSingleFrame(q: string)
    requires EOT !in q && |q| >= 3
    ensures Decode(q + [EOT]) == [ParseFrame(q)]
  {
    SplitAtFirstSeparator(q, "", EOT);
    assert q + [EOT] == q + [EOT] + "";
    DecodeEmpty();
    DecodeSinglePiece(q);
    DecodePiecesAppend([q], Split("", EOT));
  }

  /** One more piece of the transport message: a frame if it has three or
      more characters, nothing otherwise. */
  lemma DecodePiecesSnoc(pieces: seq<string>, piece: string)
    ensures DecodePieces(pieces + [piece])
         == DecodePieces(pieces) + (if |piece| < 3 then [] else [ParseFrame(piece)])
  {
    assert (pieces + [piece])[..|pieces|] == pieces;
  }

  /** The pieces up to and including piece `i`: those before it, and then
      piece `i`'s frame if it has three or more characters. */
  lemma DecodePiecesStep(pieces: seq<string>, i: nat)
    requires i < |pieces|
    ensures DecodePieces(pieces[..i + 1])
         == DecodePieces(pieces[..i]) + (if |pieces[i]| < 3 then [] else [ParseFrame(pieces[i])])
  {
    assert pieces[..i + 1] == pieces[..i] + [pieces[i]];
    DecodePiecesSnoc(pieces[..i], pieces[i]);
  }

  /** Decoding distributes over concatenated pieces. */
  lemma {:induction false} DecodePiecesAppend(a: seq<string>, b: seq<string>)
    ensures DecodePieces(a + b) == DecodePieces(a) + DecodePieces(b)
    decreases |b|
  {
    if b == [] {
      assert a + b == a;
    } else {
      var b', last := b[..|b| - 1], b[|b| - 1];
      var tail := if |last| < 3 then [] else [ParseFrame(last)];
      assert DecodePieces(b) == DecodePieces(b') + tail;
      assert DecodePieces(a + b) == DecodePieces(a + b') + tail by {
        assert (a + b)[..|a + b| - 1] == a + b';
        assert (a + b)[|a + b| - 1] == last;
      }
      DecodePiecesAppend(a, b');
    }
  }

  /** A single encoded frame decodes to its message. */
  lemma DecodeOneFrame(command: string, parameters: seq<string>)
    requires IsClean(command) && HasTwoDigitChecksum(command, parameters)
    requires forall i :: 0 <= i < |parameters| ==> IsClean(parameters[i])
    ensures Decode(EncodeFrame(command, parameters)) == [Message(command, parameters, [])]
  {
    DecodeEncodeFrame(command, parameters, "");
    DecodeEmpty();
    assert EncodeFrame(command, parameters) + "" == EncodeFrame(command, parameters);
  }

  /** Whatever the width of its checksum, a frame with parameters decodes to
      one message carrying its command: the characters the Python slice
      `msg[1:-3]` leaves over from a long checksum fall after the first FS.
      Without parameters the checksum must be two characters. */
  lemma DecodeFrameCommand(command: string, parameters: seq<string>)
    requires IsClean(command)
    requires forall i :: 0 <= i < |parameters| ==> IsClean(parameters[i])
    requires |parameters| > 0 || HasTwoDigitChecksum(command, parameters)
    ensures |Decode(EncodeFrame(command, parameters))| == 1
    ensures Decode(EncodeFrame(command, parameters))[0].command == command
  {
    if |parameters| == 0 {
      DecodeOneFrame(command, parameters);
    } else {
      var payload := Payload(command, parameters);
      EncodedFrameAvoidsEOT(command, parameters);
      DecodeSingleFrame(payload + Crc(payload));
      ParsedCommandWithParameters(command, parameters);
    }
  }

  /** A frame with parameters parses to its command. */
  lemma ParsedCommandWithParameters(command: string, parameters: seq<string>)
    requires IsClean(command) && |parameters| > 0
    requires forall i :: 0 <= i < |parameters| ==> IsClean(parameters[i])
    ensures var payload := Payload(command, parameters);
      ParseFrame(payload + Crc(payload)).command == command
  {
    var payload := Payload(command, parameters);
    var crc := Crc(payload);
    var tail := Join(parameters, FS) + [ETX] + crc;
    assert payload + crc == [STX] + command + [FS] + tail;
    JoinAvoids(parameters, FS, RS);
    CrcAvoidsRS(payload);
    assert RS !in tail;
    ParseCommandBeforeFS(command, tail);
  }

  /** No checksum character is RS. */
  lemma CrcAvoidsRS(s: string)
    ensures RS !in Crc(s)
  {
    var r := Crc(s);
    forall i | 0 <= i < |r| ensures r[i] != RS {
      assert IsHexDigit(r[i]) || r[i] == 'X';
    }
  }

  /** A frame that starts with a command and an FS parses to that command,
      whatever `msg[1:-3]` cuts off its end. */
  lemma ParseCommandBeforeFS(command: string, tail: string)
    requires IsClean(command) && RS !in tail && |tail| >= 3
    ensures ParseFrame([STX] + command + [FS] + tail).command == command
  {
    var q := [STX] + command + [FS] + tail;
    var rest := tail[..|tail| - 3];
    assert q[1..|q| - 3] == command + [FS] + rest;
    assert Body(q) == command + [FS] + rest;
    assert RS !in Body(q) by {
      assert RS !in command + [FS] + rest;
    }
    SplitWithoutSeparator(Body(q), RS);
    SplitAtFirstSeparator(command, rest, FS);
  }

  /** Decode is a left inverse of encode for any run of frames sent in one
      transport message. */
  lemma {:induction false} DecodeEncodeFrames(frames: seq<(string, seq<string>)>)
    requires forall k :: 0 <= k < |frames| ==>
      IsClean(frames[k].0) && HasTwoDigitChecksum(frames[k].0, frames[k].1) &&
      forall i :: 0 <= i < |frames[k].1| ==> IsClean(frames[k].1[i])
    ensures |Decode(EncodeFrames(frames))| == |frames|
    ensures forall k :: 0 <= k < |frames| ==>
      Decode(EncodeFrames(frames))[k] == Message(frames[k].0, frames[k].1, [])
  {
    if frames == [] {
      DecodeEmpty();
    } else {
      DecodeEncodeFrames(frames[1..]);
      DecodeEncodeFrame(frames[0].0, frames[0].1, EncodeFrames(frames[1..]));
    }
  }

  /** The checksum of the keep-alive reply: the codes of STX, P, O, N, G and
      ETX XOR to 0x17, and 0xFF - 0x17 is 0xE8. */
  lemma PongChecksum()
    ensures Crc([STX] + "PONG" + [ETX]) == "E8"
  {
    PongXor();
    assert HexDigits(14) == "E";
    assert HexDigits(8) == "8";
  }

  lemma PongXor()
    ensures XorAll([STX] + "PONG" + [ETX]) == 0x17
  {
    PongXorPrefix();
    XorAllSnoc([STX, 'P', 'O'], 'N');
    assert [STX, 'P', 'O'] + ['N'] == [STX, 'P', 'O', 'N'];
    assert Xor(0x1D, 0x4E) == 0x53;
    XorAllSnoc([STX, 'P', 'O', 'N'], 'G');
    assert [STX, 'P', 'O', 'N'] + ['G'] == [STX, 'P', 'O', 'N', 'G'];
    assert Xor(0x53, 0x47) == 0x14;
    XorAllSnoc([STX, 'P', 'O', 'N', 'G'], ETX);
    assert Xor(0x14, 0x03) == 0x17;
    assert [STX] + "PONG" + [ETX] == [STX, 'P', 'O', 'N', 'G'] + [ETX];
  }

  lemma PongXorPrefix()
    ensures XorAll([STX, 'P', 'O']) == 0x1D
  {
    XorAllSnoc([], STX);
    assert [] + [STX] == [STX];
    assert Xor(0, 2) == 2;
    XorAllSnoc([STX], 'P');
    assert Xor(2, 0x50) == 0x52;
    XorAllSnoc([STX, 'P'], 'O');
    assert [STX, 'P'] + ['O'] == [STX, 'P', 'O'];
    assert Xor(0x52, 0x4F) == 0x1D;
  }

  /** The keep-alive reply frame: STX, "PONG", ETX, checksum "E8", EOT. */
  lemma PongFrame()
    ensures EncodeFrame("PONG", []) == [STX] + "PONG" + [ETX] + "E8" + [EOT]
  {
    assert Payload("PONG", []) == [STX] + "PONG" + [ETX];
    PongChecksum();
  }
}
