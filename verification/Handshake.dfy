/**
  The handshake: the first byte decides the format, the bytes already taken are replayed to the codec.
*/
module Handshake {
  import opened Bytes
  import opened Readers
  import opened Framing
  import opened JsonLines

  datatype Format = Json | Protobuf

  function Name(f: Format): string {
    match f
    case Json => "json"
    case Protobuf => "protobuf"
  }

  datatype HandshakeRequest = HandshakeRequest(version: string, format: string)

  datatype HandshakeResponse = HandshakeResponse(status: string, version: string, format: string, errorMessage: string)

  /** encoding/json, left open: decoding is any partial function, encoding any function. */
  datatype Marshal = Marshal(decode: seq<byte> -> Option<HandshakeRequest>, encode: HandshakeResponse -> seq<byte>)

  const PROTOCOL_VERSION := "1.0"

  // The scanner of JSONCodec.ReadHandshake keeps bufio's defaults.
  const START_SCAN: nat := 4096
  const MAX_SCAN: nat := 65536

  /** The error validateHandshake returns, if any. */
  function Validate(req: HandshakeRequest): Option<string> {
    if req.version == "" then Some("version is required")
    else if req.format != Name(Json) && req.format != Name(Protobuf) then Some("unsupported format: " + req.format)
    else None
  }

  /** What the server makes of a handshake: drop it, refuse it with a reply, or welcome it. */
  datatype Verdict = Silent | Refused(reply: HandshakeResponse) | Welcome(reply: HandshakeResponse)

  function Judge(req: Option<HandshakeRequest>, format: Format): Verdict {
    match req
    case None => Silent
    case Some(r) =>
      match Validate(r)
      case Some(msg) => Refused(HandshakeResponse("error", "", "", msg))
      case None => Welcome(HandshakeResponse("ok", PROTOCOL_VERSION, Name(format), ""))
  }

  /** One encoded message as the format puts it on the wire. */
  function Wire(format: Format, body: seq<byte>): seq<byte> {
    match format
    case Json => body + [NEWLINE]
    case Protobuf => WriteFrame(body)
  }

  /** WriteHandshake and WriteResponse after marshalling. */
  method WriteMessage(conn: Conn, format: Format, body: seq<byte>) returns (ok: bool)
    modifies conn`sent, conn`room
    ensures ok <==> |Wire(format, body)| <= old(conn.room)
    ensures conn.sent == old(conn.sent) + Wire(format, body)[..Min(|Wire(format, body)|, old(conn.room))]
    ensures conn.room == old(conn.room) - Min(|Wire(format, body)|, old(conn.room))
  {
    match format {
      case Json => ok := conn.Write(body + [NEWLINE]);
      case Protobuf => ok := WriteLengthPrefixed(conn, body);
    }
  }

  /** How a verdict shows on the connection, and what performHandshake returns for it. */
  predicate Answered(v: Verdict, format: Format, m: Marshal, sent: seq<byte>, room: nat,
                     sent': seq<byte>, room': nat, res: Option<Format>)
  {
    if v.Silent? then
      res == None && sent' == sent && room' == room
    else
      var wire := Wire(format, m.encode(v.reply));
      && sent' == sent + wire[..Min(|wire|, room)]
      && room' == room - Min(|wire|, room)
      && res == if v.Welcome? && |wire| <= room then Some(format) else None
  }

  // ---------- What a client is promised ----------

  predicate Acceptable(req: HandshakeRequest) {
    req.version != "" && (req.format == "json" || req.format == "protobuf")
  }

  /** A message that is no handshake request gets no reply and no connection; one that names no version or no
      known format is told so, and gets none; any other gets one, if the peer takes the whole welcome. */
  predicate Settled(req: Option<HandshakeRequest>, format: Format, m: Marshal, sent: seq<byte>, room: nat,
                    sent': seq<byte>, res: Option<Format>)
  {
    match req
    case None => res == None && sent' == sent
    case Some(r) =>
      if Acceptable(r) then
        var wire := Wire(format, m.encode(HandshakeResponse("ok", "1.0", if format == Json then "json" else "protobuf", "")));
        && sent' == sent + wire[..Min(|wire|, room)]
        && res == if |wire| <= room then Some(format) else None
      else
        var msg := if r.version == "" then "version is required" else "unsupported format: " + r.format;
        var wire := Wire(format, m.encode(HandshakeResponse("error", "", "", msg)));
        && sent' == sent + wire[..Min(|wire|, room)]
        && res == None
  }

  lemma JudgeSettles(req: Option<HandshakeRequest>, format: Format, m: Marshal, sent: seq<byte>, room: nat,
                     sent': seq<byte>, room': nat, res: Option<Format>)
    requires Answered(Judge(req, format), format, m, sent, room, sent', room', res)
    ensures Settled(req, format, m, sent, room, sent', res)
  {
    hide Wire;
  }

  method Answer(conn: Conn, m: Marshal, req: Option<HandshakeRequest>, format: Format) returns (res: Option<Format>)
    modifies conn`sent, conn`room
    ensures Answered(Judge(req, format), format, m, old(conn.sent), old(conn.room), conn.sent, conn.room, res)
    ensures Settled(req, format, m, old(conn.sent), old(conn.room), conn.sent, res)
  {
    hide Wire, Settled;
    match Judge(req, format) {
      case Silent =>
        res := None;
      case Refused(reply) =>
        var ok := WriteMessage(conn, format, m.encode(reply));
        res := None;
      case Welcome(reply) =>
        var ok := WriteMessage(conn, format, m.encode(reply));
        res := if ok then Some(format) else None;
    }
    JudgeSettles(req, format, m, old(conn.sent), old(conn.room), conn.sent, conn.room, res);
  }

  /** Judge, without its name. */
  lemma Judgement(req: Option<HandshakeRequest>, format: Format)
    ensures req == None ==> Judge(req, format).Silent?
    ensures req.Some? ==> (Judge(req, format).Welcome? <==> Acceptable(req.value)) && !Judge(req, format).Silent?
    ensures req.Some? && Acceptable(req.value) ==>
              Judge(req, format).reply == HandshakeResponse("ok", "1.0", if format == Json then "json" else "protobuf", "")
  {
  }

  // ---------- What the codecs would make of the untouched stream ----------

  /** The message on the stream itself: the first line, or the body of the first frame. */
  function JsonMessage(ps: Pieces, ending: ReadErr): Option<seq<byte>>
    requires NonEmptyPieces(ps)
  {
    var res := ScanLine([], START_SCAN, MAX_SCAN, ps, ending).0;
    if res.Line? then Some(res.text) else None
  }

  function ProtobufMessage(s: seq<byte>, ending: ReadErr): Option<seq<byte>> {
    var parsed := ParseFrame(s, ending).0;
    if parsed.Frame? then Some(parsed.body) else None
  }

  /** The request in it. */
  function RequestIn(m: Marshal, message: Option<seq<byte>>): Option<HandshakeRequest> {
    if message.Some? then m.decode(message.value) else None
  }

  /** ProtobufCodec.ReadHandshake on the stream itself, then validation. */
  function ProtobufVerdict(s: seq<byte>, ending: ReadErr, m: Marshal): Verdict {
    Judge(RequestIn(m, ProtobufMessage(s, ending)), Protobuf)
  }

  /** JSONCodec.ReadHandshake on the stream itself, the first byte arriving as a piece of its own. */
  function JsonHandshake(ps: Pieces, ending: ReadErr, m: Marshal): (Verdict, Pieces)
    requires NonEmptyPieces(ps)
  {
    (Judge(RequestIn(m, JsonMessage(ps, ending)), Json), ScanLine([], START_SCAN, MAX_SCAN, ps, ending).1)
  }

  method JsonBranch(conn: Conn, first: byte, m: Marshal) returns (res: Option<Format>)
    requires conn.Valid()
    modifies conn
    ensures conn.Valid() && NonEmptyPieces([[first]] + old(conn.chunks))
    ensures var (v, rest) := JsonHandshake([[first]] + old(conn.chunks), conn.ending, m);
      && conn.chunks == rest
      && Answered(v, Json, m, old(conn.sent), old(conn.room), conn.sent, conn.room, res)
  {
    hide ScanLine;
    var reader := new MultiReader(OneByte(first), conn);
    var line := Scan(reader, START_SCAN, MAX_SCAN);
    assert reader.Ahead() == [] + conn.chunks == conn.chunks;
    var req := if line.Line? then m.decode(line.text) else None;
    res := Answer(conn, m, req, Json);
  }

  /** The codec reads through the replaying reader and finds the frame that was already taken. */
  method ReplayFrame(conn: Conn, lenBuf: seq<byte>, data: seq<byte>) returns (parsed: FrameRead)
    requires conn.Valid() && |lenBuf| == 4 && UintLE(lenBuf) == |data| <= MAX_MESSAGE
    modifies conn`chunks
    ensures parsed == Frame(data) && conn.chunks == old(conn.chunks) && conn.Valid()
  {
    hide UintLE, ParseFrame;
    var replay := new LengthPrefixedReader(lenBuf, data);
    var reader := new MultiReader(Replay(replay), conn);
    ghost var front, chunks := reader.HeadPieces(), conn.chunks;
    assert front == [lenBuf] + OnePiece(data);
    FrontBytes(lenBuf, data, chunks);
    ReplayedFrame(lenBuf, data, Flatten(chunks), conn.ending);
    parsed := ReadLengthPrefixed(reader);
  }

  lemma FrontBytes(lenBuf: seq<byte>, data: seq<byte>, chunks: Pieces)
    ensures Flatten([lenBuf] + OnePiece(data)) == lenBuf + data
    ensures Flatten([lenBuf] + OnePiece(data) + chunks) == lenBuf + data + Flatten(chunks)
  {
    var front := [lenBuf] + OnePiece(data);
    assert front[1..] == OnePiece(data);
    if data != [] {
      assert OnePiece(data)[1..] == [];
      assert Flatten(OnePiece(data)) == data;
    }
    FlattenConcat(front, chunks);
  }

  lemma ReplayedFrame(lenBuf: seq<byte>, data: seq<byte>, rest: seq<byte>, ending: ReadErr)
    requires |lenBuf| == 4 && UintLE(lenBuf) == |data| <= MAX_MESSAGE
    ensures ParseFrame(lenBuf + data + rest, ending) == (Frame(data), 4 + |data|)
  {
    hide UintLE;
    var s := lenBuf + data + rest;
    assert s[..4] == lenBuf && s[4..4 + |data|] == data;
  }

  /** The handshake's own reads: three more length bytes, then the body. */
  method TakeFrame(conn: Conn, first: byte, ghost ps: Pieces) returns (taken: Option<(seq<byte>, seq<byte>)>)
    requires conn.Valid() && NonEmptyPieces(ps) && ps != []
    requires first == Flatten(ps)[0] && conn.chunks == Consume(ps, 1)
    modifies conn`chunks
    ensures conn.Valid()
    ensures var (parsed, used) := ParseFrame(Flatten(ps), conn.ending);
      && conn.chunks == Consume(ps, used)
      && (taken.Some? <==> parsed.Frame?)
      && (taken.Some? ==> var (lenBuf, data) := taken.value;
            parsed == Frame(data) && |lenBuf| == 4 && UintLE(lenBuf) == |data| <= MAX_MESSAGE)
  {
    hide Filled, ParseFrame, UintLE, HandLength, Consume, Flatten, ShortErr, Min;
    ghost var ending := conn.ending;
    var remaining := new byte[3];
    var n, err := ReadFullSocket(conn, remaining);
    ghost var ps1 := conn.chunks;
    ThreeMore(ps, ps1, ending, first, remaining[..n], err);
    if err != Complete {
      HeaderCut(ps, ps1, ending, [first] + remaining[..n], ShortErr(1 + n, ending));
      return None;
    }
    FilledCompletely(Consume(ps, 1), ps1, ending, 3, remaining[..n]);
    var lenBuf := [first, remaining[0], remaining[1], remaining[2]];
    assert [first] + remaining[..n] == lenBuf;
    var msgLen := HandLength(lenBuf);
    if msgLen > MAX_MESSAGE {
      HeaderTooLarge(ps, ps1, ending, lenBuf);
      return None;
    }
    var msgBuf := new byte[msgLen];
    n, err := ReadFullSocket(conn, msgBuf);
    HeaderThenBody(ps, ps1, conn.chunks, ending, lenBuf, msgBuf[..n], err);
    if err != Complete {
      return None;
    }
    FilledCompletely(ps1, conn.chunks, ending, msgLen, msgBuf[..n]);
    assert msgBuf[..n] == msgBuf[..];
    taken := Some((lenBuf, msgBuf[..]));
  }

  /** The bytes already taken are replayed to the codec; nothing shows of it. */
  method ProtobufBranch(conn: Conn, first: byte, m: Marshal, ghost ps: Pieces) returns (res: Option<Format>)
    requires conn.Valid() && NonEmptyPieces(ps) && ps != []
    requires first == Flatten(ps)[0] && conn.chunks == Consume(ps, 1)
    modifies conn
    ensures conn.Valid()
    ensures conn.chunks == Consume(ps, ParseFrame(Flatten(ps), conn.ending).1)
    ensures Answered(ProtobufVerdict(Flatten(ps), conn.ending, m), Protobuf, m,
                     old(conn.sent), old(conn.room), conn.sent, conn.room, res)
  {
    hide ParseFrame, Answered, Judge, UintLE;
    var taken := TakeFrame(conn, first, ps);
    match taken
    case None =>
      Dropped(m, conn.sent, conn.room);
      res := None;
    case Some((lenBuf, data)) =>
      var parsed := ReplayFrame(conn, lenBuf, data);
      res := Answer(conn, m, m.decode(parsed.body), Protobuf);
  }

  /** performHandshake returns an error without a reply. */
  lemma Dropped(m: Marshal, sent: seq<byte>, room: nat)
    ensures Answered(Judge(None, Protobuf), Protobuf, m, sent, room, sent, room, None)
  {
  }

  /** The first byte and the three read after it are the four bytes a codec would have read at once. */
  lemma ThreeMore(ps: Pieces, ps1: Pieces, ending: ReadErr, first: byte, got: seq<byte>, err: FullErr)
    requires NonEmptyPieces(ps) && ps != [] && first == Flatten(ps)[0]
    requires Filled(Consume(ps, 1), ps1, ending, 3, got, err)
    ensures |got| <= 3
    ensures Filled(ps, ps1, ending, 4, [first] + got, if err == Complete then Complete else ShortErr(1 + |got|, ending))
  {
    FlattenEmpty(ps);
    ConsumeFlatten(ps, 1);
    ConsumeConsume(ps, 1, |got|);
    var s := Flatten(ps);
    assert s[1..][..|got|] == s[1..1 + |got|];
    assert [first] + got == s[..1 + |got|];
  }

  /** performHandshake. */
  method PerformHandshake(conn: Conn, m: Marshal) returns (res: Option<Format>)
    requires conn.Valid()
    modifies conn
    ensures conn.Valid()
    ensures old(conn.chunks) == [] ==> res == None && conn.sent == old(conn.sent) && conn.chunks == []
    ensures old(conn.chunks) != [] ==>
      var ps, s := old(conn.chunks), Flatten(old(conn.chunks));
      if s[0] == BRACE then
        var ps' := [[BRACE]] + Consume(ps, 1);
        && NonEmptyPieces(ps')
        && Answered(JsonHandshake(ps', conn.ending, m).0, Json, m, old(conn.sent), old(conn.room), conn.sent, conn.room, res)
        && conn.chunks == JsonHandshake(ps', conn.ending, m).1
        && Settled(RequestIn(m, JsonMessage(ps', conn.ending)), Json, m, old(conn.sent), old(conn.room), conn.sent, res)
      else
        && Answered(ProtobufVerdict(s, conn.ending, m), Protobuf, m, old(conn.sent), old(conn.room), conn.sent, conn.room, res)
        && conn.chunks == Consume(ps, ParseFrame(s, conn.ending).1)
        && Settled(RequestIn(m, ProtobufMessage(s, conn.ending)), Protobuf, m, old(conn.sent), old(conn.room), conn.sent, res)
  {
    hide Filled, ParseFrame, Answered, ScanLine, Judge, JsonMessage, ProtobufMessage, RequestIn, Settled;
    ghost var ps, ending, sent, room := conn.chunks, conn.ending, conn.sent, conn.room;
    var firstByte := new byte[1];
    var n, err := ReadFullSocket(conn, firstByte);
    OneRead(ps, conn.chunks, conn.ending, firstByte[..n], err);
    if err != Complete {
      return None;
    }
    assert firstByte[..n] == [firstByte[0]];
    if firstByte[0] == BRACE {
      res := JsonBranch(conn, firstByte[0], m);
      ghost var ps' := [[BRACE]] + Consume(ps, 1);
      JudgeSettles(RequestIn(m, JsonMessage(ps', ending)), Json, m, sent, room, conn.sent, conn.room, res);
    } else {
      res := ProtobufBranch(conn, firstByte[0], m, ps);
      JudgeSettles(RequestIn(m, ProtobufMessage(Flatten(ps), ending)), Protobuf, m, sent, room, conn.sent, conn.room, res);
    }
  }

  lemma OneRead(ps: Pieces, ps': Pieces, ending: ReadErr, got: seq<byte>, err: FullErr)
    requires NonEmptyPieces(ps) && Filled(ps, ps', ending, 1, got, err)
    ensures err != Complete <==> ps == []
    ensures ps == [] ==> ps' == []
    ensures ps != [] ==> Flatten(ps) != [] && got == [Flatten(ps)[0]] && ps' == Consume(ps, 1)
  {
    FlattenEmpty(ps);
  }

  // ---------- The handshake of a client that frames its request ----------

  /** A frame of at most MAX_MESSAGE bytes, in whatever pieces, goes to the Protobuf branch exactly when
      its length is not 123 modulo 256. */
  lemma FormatDetection(p: seq<byte>, rest: seq<byte>, ps: Pieces)
    requires Flatten(ps) == WriteFrame(p) + rest
    ensures Flatten(ps)[0] != BRACE <==> |p| % 256 != 123
  {
    hide PutUintLE;
    FirstByteOfFrame(p);
  }

  /** In that branch the message is the payload, and the connection stands right after the frame. */
  lemma FramedHandshake(p: seq<byte>, rest: seq<byte>, ps: Pieces, ending: ReadErr)
    requires NonEmptyPieces(ps) && Flatten(ps) == WriteFrame(p) + rest && |p| <= MAX_MESSAGE
    ensures ProtobufMessage(Flatten(ps), ending) == Some(p)
    ensures Flatten(Consume(ps, ParseFrame(Flatten(ps), ending).1)) == rest
  {
    hide ParseFrame, WriteFrame;
    FrameRoundTrip(p, rest, ending);
    FrameLength(p);
    ConsumeFlatten(ps, 4 + |p|);
  }
}
