/**
  Length-prefixed frames: a four-byte little-endian length, then the body.
*/
module Framing {
  import opened Bytes
  import opened Readers

  /** MaxMessageSize, 1 << 20. */
  const MAX_MESSAGE: nat := 1048576

  /** What readLengthPrefixed returns. */
  datatype FrameRead = Frame(body: seq<byte>) | TooLarge | Cut(err: FullErr)

  /** The outcome of reading one frame off a stream, with the number of bytes taken. */
  function ParseFrame(s: seq<byte>, ending: ReadErr): (FrameRead, nat) {
    if |s| < 4 then (Cut(ShortErr(|s|, ending)), |s|)
    else
      var len := UintLE(s[..4]);
      if len > MAX_MESSAGE then (TooLarge, 4)
      else if |s| - 4 < len then (Cut(ShortErr(|s| - 4, ending)), |s|)
      else (Frame(s[4..4 + len]), 4 + len)
  }

  /** What writeLengthPrefixed puts on the wire; the length is converted to 32 bits. */
  function WriteFrame(data: seq<byte>): seq<byte> {
    PutUintLE(|data| % WORD) + data
  }

  lemma HeaderCut(ps: Pieces, ps': Pieces, ending: ReadErr, got: seq<byte>, err: FullErr)
    requires Filled(ps, ps', ending, 4, got, err) && err != Complete
    ensures ParseFrame(Flatten(ps), ending) == (Cut(err), |got|) && ps' == Consume(ps, |got|)
  {
  }

  lemma HeaderTooLarge(ps: Pieces, ps': Pieces, ending: ReadErr, got: seq<byte>)
    requires Filled(ps, ps', ending, 4, got, Complete) && UintLE(got) > MAX_MESSAGE
    ensures ParseFrame(Flatten(ps), ending) == (TooLarge, 4) && ps' == Consume(ps, 4)
  {
    hide UintLE;
  }

  lemma AfterHeader(ps: Pieces, ps': Pieces, ending: ReadErr, header: seq<byte>)
    requires NonEmptyPieces(ps) && Filled(ps, ps', ending, 4, header, Complete)
    ensures ps' == Consume(ps, 4) && |Flatten(ps)| >= 4
    ensures Flatten(ps)[..4] == header && Flatten(ps') == Flatten(ps)[4..]
  {
    ConsumeFlatten(ps, 4);
  }

  lemma HeaderThenBody(ps: Pieces, ps': Pieces, ps'': Pieces, ending: ReadErr,
                       header: seq<byte>, body: seq<byte>, err: FullErr)
    requires NonEmptyPieces(ps)
    requires Filled(ps, ps', ending, 4, header, Complete) && UintLE(header) <= MAX_MESSAGE
    requires Filled(ps', ps'', ending, UintLE(header), body, err)
    ensures ParseFrame(Flatten(ps), ending) == (if err == Complete then Frame(body) else Cut(err), 4 + |body|)
    ensures ps'' == Consume(ps, 4 + |body|)
  {
    hide UintLE, ParseFrame, Flatten, Consume;
    AfterHeader(ps, ps', ending, header);
    ConsumeConsume(ps, 4, |body|);
    ParseFrameBody(Flatten(ps), ending);
    BodyBytes(Flatten(ps), |body|);
  }

  lemma BodyBytes(s: seq<byte>, n: nat)
    requires 4 + n <= |s|
    ensures s[4..][..n] == s[4..4 + n]
  {
  }

  lemma ParseFrameBody(s: seq<byte>, ending: ReadErr)
    requires |s| >= 4 && UintLE(s[..4]) <= MAX_MESSAGE
    ensures var len := UintLE(s[..4]);
      ParseFrame(s, ending) == if |s| - 4 < len then (Cut(ShortErr(|s| - 4, ending)), |s|) else (Frame(s[4..4 + len]), 4 + len)
  {
    hide UintLE;
  }

  /** readLengthPrefixed: in-place reads into a header buffer and a body buffer. */
  method ReadLengthPrefixed(r: MultiReader) returns (res: FrameRead)
    requires r.Valid()
    modifies r.Repr() - {r.conn}, r.conn`chunks
    ensures r.Valid() && r.Repr() <= old(r.Repr())
    ensures var (parsed, used) := ParseFrame(Flatten(old(r.Ahead())), r.conn.ending);
      && res == parsed
      && r.Ahead() == Consume(old(r.Ahead()), used)
      && (res.Frame? && used <= |Flatten(old(r.HeadPieces()))| ==>
            r.conn.chunks == old(r.conn.chunks) && r.HeadPieces() == Consume(old(r.HeadPieces()), used))
    ensures old(r.head) == NoHead ==> r.head == NoHead
  {
    hide Filled, UintLE, ParseFrame, ShortErr, Consume, Flatten, Min;
    ghost var ahead, front := r.Ahead(), r.HeadPieces();
    var lenBuf, err := ReadBuffer(r, 4);
    ghost var ahead1 := r.Ahead();
    if err != Complete {
      HeaderCut(ahead, ahead1, r.conn.ending, lenBuf, err);
      return Cut(err);
    }
    var msgLen := UintLE(lenBuf);
    if msgLen > MAX_MESSAGE {
      HeaderTooLarge(ahead, ahead1, r.conn.ending, lenBuf);
      return TooLarge;
    }
    var buf;
    buf, err := ReadBuffer(r, msgLen);
    HeaderThenBody(ahead, ahead1, r.Ahead(), r.conn.ending, lenBuf, buf, err);
    if err != Complete {
      return Cut(err);
    }
    if 4 + msgLen <= |Flatten(front)| {
      FrontConsumed(front, msgLen);
    }
    res := Frame(buf);
  }

  lemma FrontConsumed(front: Pieces, len: nat)
    requires NonEmptyPieces(front) && 4 + len <= |Flatten(front)|
    ensures |Flatten(Consume(front, 4))| >= len
    ensures Consume(Consume(front, 4), len) == Consume(front, 4 + len)
  {
    ConsumeFlatten(front, 4);
    ConsumeConsume(front, 4, len);
  }

  lemma FilledCompletely(ps: Pieces, ps': Pieces, ending: ReadErr, len: nat, got: seq<byte>)
    requires Filled(ps, ps', ending, len, got, Complete)
    ensures |got| == len
  {
  }

  /** Succeeds exactly when the peer takes the whole frame; otherwise a prefix of the frame is out. */
  method WriteLengthPrefixed(conn: Conn, data: seq<byte>) returns (ok: bool)
    modifies conn`sent, conn`room
    ensures ok <==> |WriteFrame(data)| <= old(conn.room)
    ensures conn.sent == old(conn.sent) + WriteFrame(data)[..Min(|WriteFrame(data)|, old(conn.room))]
    ensures conn.room == old(conn.room) - Min(|WriteFrame(data)|, old(conn.room))
  {
    hide UintLE, PutUintLE;
    ghost var room := conn.room;
    ghost var sent := conn.sent;
    var lenBuf := PutUintLE(|data| % WORD);
    ghost var frame := lenBuf + data;
    ok := conn.Write(lenBuf);
    if !ok {
      assert lenBuf[..room] == frame[..room];
      return;
    }
    assert lenBuf[..4] == lenBuf;
    ok := conn.Write(data);
    assert sent + lenBuf + data[..Min(|data|, room - 4)] == sent + frame[..Min(|frame|, room)];
  }

  // ---------- One frame ----------

  /** A written frame is read back, from whatever stream it begins, exactly when its payload is at most
      2^20 bytes: a larger one is refused, or, from 2^32 bytes on, may be read as another frame. */
  lemma FrameRoundTrip(p: seq<byte>, rest: seq<byte>, ending: ReadErr)
    ensures ParseFrame(WriteFrame(p) + rest, ending) == (Frame(p), 4 + |p|) <==> |p| <= 1048576
  {
    hide UintLE, PutUintLE;
    var s := WriteFrame(p) + rest;
    assert s[..4] == PutUintLE(|p| % WORD);
    LittleEndianRoundTrip(|p| % WORD);
    if |p| <= MAX_MESSAGE {
      assert s[4..4 + |p|] == p;
    }
  }

  lemma FrameLength(p: seq<byte>)
    ensures |WriteFrame(p)| == 4 + |p|
  {
  }

  /** Which error a read of one frame reports: a length beyond the limit is refused at once; a stream that ends
      before the header or right behind it ends cleanly for the reader, elsewhere unexpectedly. */
  lemma FrameErrors(s: seq<byte>, ending: ReadErr)
    requires ending != NoErr
    ensures var res, short := ParseFrame(s, ending).0,
                              |s| < 4 || (UintLE(s[..4]) <= 1048576 && |s| < 4 + UintLE(s[..4]));
      && (res == TooLarge <==> |s| >= 4 && UintLE(s[..4]) > 1048576)
      && (res == Cut(ReadFailed) <==> short && ending == Failed)
      && (res == Cut(CleanEOF) <==> short && ending == EOF && (|s| == 0 || |s| == 4))
      && (res == Cut(UnexpectedEOF) <==> short && ending == EOF && |s| != 0 && |s| != 4)
      && (res.Frame? ==> !short && |s| >= 4 && res.body == s[4..4 + UintLE(s[..4])])
  {
    hide UintLE;
  }

  // ---------- Telling the two formats apart ----------

  /** '{' */
  const BRACE: byte := 123

  /** The first byte of a frame is '{' exactly when its length is 123 modulo 256. */
  lemma FirstByteOfFrame(p: seq<byte>)
    ensures WriteFrame(p)[0] == BRACE <==> |p| % 256 == 123
  {
    var v := |p| % WORD;
    assert v % 256 == |p| % 256;
    ByteRoundTrip(v % 256);
    assert BRACE as int == 123;
    assert WriteFrame(p)[0] == (v % 256) as byte;
  }
}
