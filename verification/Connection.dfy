/**
  One connection from its first byte to its last: the handshake, then the request loop.
*/
module Connection {
  import opened Bytes
  import opened Readers
  import opened Framing
  import opened FrameStreams
  import opened JsonLines
  import opened Handshake
  import opened Session

  /** What the handshake makes of a connection that sends anything: its format, the verdict, and the pieces
      left for the request loop. */
  function Opening(ps: Pieces, ending: ReadErr, m: Marshal): (r: (Format, Verdict, Pieces))
    requires NonEmptyPieces(ps) && ps != []
    ensures NonEmptyPieces(r.2)
  {
    FlattenEmpty(ps);
    ConsumeNonEmpty(ps, 1);
    if Flatten(ps)[0] == BRACE then
      var (v, rest) := JsonHandshake([[BRACE]] + Consume(ps, 1), ending, m);
      (Json, v, rest)
    else
      ConsumeNonEmpty(ps, ParseFrame(Flatten(ps), ending).1);
      (Protobuf, ProtobufVerdict(Flatten(ps), ending, m), Consume(ps, ParseFrame(Flatten(ps), ending).1))
  }

  function Greeting(v: Verdict, format: Format, m: Marshal): seq<byte> {
    if v.Silent? then [] else Wire(format, m.encode(v.reply))
  }

  /** The messages of the request loop: none without a welcome. */
  function BodiesOn(m: Marshal, ps: Pieces, ending: ReadErr): seq<seq<byte>>
    requires NonEmptyPieces(ps)
  {
    if ps == [] then []
    else
      var (format, v, rest) := Opening(ps, ending, m);
      if v.Welcome? then Bodies(format, rest, ending) else []
  }

  /** The exchanges of a connection: none without a welcome. */
  function ExchangesOn<S>(svc: Service<S>, m: Marshal, s0: S, ps: Pieces, ending: ReadErr): seq<Exchange>
    requires NonEmptyPieces(ps)
  {
    if ps == [] then []
    else
      var (format, v, rest) := Opening(ps, ending, m);
      if v.Welcome? then Exchanges(svc, format, s0, Bodies(format, rest, ending)) else []
  }

  /** All a connection is sent: the answer to its handshake, then the answers to its requests. */
  function Transcript<S>(svc: Service<S>, m: Marshal, s0: S, ps: Pieces, ending: ReadErr): seq<byte>
    requires NonEmptyPieces(ps)
  {
    if ps == [] then []
    else
      var (format, v, _) := Opening(ps, ending, m);
      Greeting(v, format, m) + WireOf(ExchangesOn(svc, m, s0, ps, ending))
  }

  lemma {:induction false} WireOfPrefix(xs: seq<Exchange>, n: nat)
    requires n <= |xs|
    ensures WireOf(xs[..n]) <= WireOf(xs)
    decreases |xs| - n
  {
    if n < |xs| {
      WireOfSnoc(xs, n);
      WireOfPrefix(xs, n + 1);
    } else {
      assert xs[..n] == xs;
    }
  }

  lemma Greeted(v: Verdict, f: Format, m: Marshal, sent: seq<byte>, room: nat, sent': seq<byte>, room': nat, res: Option<Format>)
    requires Answered(v, f, m, sent, room, sent', room', res)
    ensures var g := Greeting(v, f, m);
      && sent' == sent + g[..Min(|g|, room)] && room' == room - Min(|g|, room)
      && res == if v.Welcome? && |g| <= room then Some(f) else None
  {
  }

  /** The handshake, as an opening and a greeting. */
  method Open(conn: Conn, m: Marshal) returns (res: Option<Format>)
    requires conn.Valid()
    modifies conn
    ensures conn.Valid()
    ensures old(conn.chunks) == [] ==> res == None && conn.sent == old(conn.sent)
    ensures old(conn.chunks) != [] ==>
      var (f, v, rest) := Opening(old(conn.chunks), conn.ending, m);
      var g := Greeting(v, f, m);
      && conn.chunks == rest
      && conn.sent == old(conn.sent) + g[..Min(|g|, old(conn.room))] && conn.room == old(conn.room) - Min(|g|, old(conn.room))
      && res == if v.Welcome? && |g| <= old(conn.room) then Some(f) else None
  {
    hide ParseFrame, ProtobufVerdict, JsonHandshake, Answered, Greeting;
    ghost var ps, sent, room := conn.chunks, conn.sent, conn.room;
    res := PerformHandshake(conn, m);
    if ps != [] {
      var (f, v, _) := Opening(ps, conn.ending, m);
      Greeted(v, f, m, sent, room, conn.sent, conn.room, res);
    }
  }

  /** What Serve leaves on the wire. */
  lemma ServedPart(xs: seq<Exchange>, served: nat, exit: Exit, sent: seq<byte>, room: nat, sent': seq<byte>)
    requires served <= |xs|
    requires exit != WriteFailed ==> sent' == sent + WireOf(xs[..served])
    requires exit == WriteFailed ==>
      served < |xs| && |WireOf(xs[..served + 1])| > room && sent' == sent + WireOf(xs[..served + 1])[..room]
    requires exit != WriteFailed && exit != Cancelled ==> served == |xs|
    ensures sent <= sent' <= sent + WireOf(xs)
    ensures |WireOf(xs)| <= room && exit != Cancelled ==> sent' == sent + WireOf(xs) && served == |xs|
  {
    WireOfPrefix(xs, served);
    if exit == WriteFailed { WireOfPrefix(xs, served + 1); }
    if served == |xs| { assert xs[..served] == xs; }
  }

  /** handleConn: whatever arrives, in whatever pieces, what is sent is always a beginning of the transcript;
      it is all of it when the peer takes that much and no check stops the loop. */
  method HandleConn<S>(conn: Conn, m: Marshal, svc: Service<S>, s0: S, stopped: nat -> bool) returns (s: S, served: nat)
    requires conn.Valid()
    modifies conn
    ensures conn.Valid()
    ensures var xs, out := ExchangesOn(svc, m, s0, old(conn.chunks), conn.ending),
                           Transcript(svc, m, s0, old(conn.chunks), conn.ending);
      && old(conn.sent) <= conn.sent <= old(conn.sent) + out
      && served <= |xs|
      && (exists n :: served <= n <= served + 1 && s == StateAfter(svc, s0, BodiesOn(m, old(conn.chunks), conn.ending), n))
      && (|out| <= old(conn.room) && (forall k: nat | k <= |xs| :: !stopped(k)) ==>
            conn.sent == old(conn.sent) + out && served == |xs|)
  {
    hide Opening, Greeting, Exchanges, Bodies, WireOf, StateAfter;
    ghost var ps, sent0, room0 := conn.chunks, conn.sent, conn.room;
    s, served := s0, 0;
    var format := Open(conn, m);
    WireOfNone();
    assert s == StateAfter(svc, s0, BodiesOn(m, ps, conn.ending), 0) by { Unmoved(svc, s0, BodiesOn(m, ps, conn.ending)); }
    if format != None {
      ghost var rest, sent1, room1 := conn.chunks, conn.sent, conn.room;
      var exit;
      s, served, exit := Serve(conn, format.value, svc, s0, stopped);
      ghost var xs := Exchanges(svc, format.value, s0, Bodies(format.value, rest, conn.ending));
      ServedPart(xs, served, exit, sent1, room1, conn.sent);
    }
  }

  lemma Unmoved<S>(svc: Service<S>, s: S, bodies: seq<seq<byte>>)
    ensures StateAfter(svc, s, bodies, 0) == s
  {
  }

  lemma WireOfNone()
    ensures WireOf([]) == []
  {
  }

  /** For a framed handshake whose length is not 123 modulo 256, followed by requests pipelined in frames,
      all of it in any pieces: the transcript is the welcome and then one answer per request, in order and
      under its id, and a client reading it in frames gets just these. */
  lemma FramedConversation<S(!new)>(svc: Service<S>, m: Marshal, s0: S, p: seq<byte>, bodies: seq<seq<byte>>,
                                    ps: Pieces, ending: ReadErr)
    requires NonEmptyPieces(ps) && Flatten(ps) == WriteFrame(p) + WriteFrames(bodies)
    requires |p| <= 1048576 && |p| % 256 != 123 && m.decode(p).Some? && Acceptable(m.decode(p).value) && Sendable(bodies)
    requires Echoes(svc) && Decodable(svc, bodies) && AlwaysEncodes(svc)
    ensures var xs := ExchangesOn(svc, m, s0, ps, ending);
      var answers := [m.encode(HandshakeResponse("ok", "1.0", "protobuf", ""))] + Encoded(svc, xs);
      && |xs| == |bodies|
      && InTurn(svc, s0, bodies, xs)
      && (forall i | 0 <= i < |xs| :: xs[i].resp.requestId == xs[i].req.requestId)
      && Transcript(svc, m, s0, ps, ending) == WriteFrames(answers)
      && (Sendable(answers) ==> ReadFrames(Transcript(svc, m, s0, ps, ending), ending) == answers)
  {
    hide ParseFrame, WriteFrame, Judge, Consume, ReadFrames, Exchanges, Encoded, WireOf, Echoes, Decodable, AlwaysEncodes;
    hide InTurn, Acceptable;
    FramedOpening(m, p, bodies, ps, ending);
    Judgement(m.decode(p), Protobuf);
    ExchangesInTurn(svc, Protobuf, s0, bodies);
    var rest := Opening(ps, ending, m).2;
    FrameStreamRoundTrip(bodies, rest, ending);
    hide Opening;
    ExchangesInOrder(svc, Protobuf, s0, bodies);
    WireIsFrames(svc, s0, bodies);
    var xs, first := Exchanges(svc, Protobuf, s0, bodies), m.encode(HandshakeResponse("ok", "1.0", "protobuf", ""));
    FramesCons(first, Encoded(svc, xs));
    if Sendable([first] + Encoded(svc, xs)) { AllFramesBack([first] + Encoded(svc, xs), ending); }
  }

  lemma FramedOpening(m: Marshal, p: seq<byte>, bodies: seq<seq<byte>>, ps: Pieces, ending: ReadErr)
    requires NonEmptyPieces(ps) && Flatten(ps) == WriteFrame(p) + WriteFrames(bodies)
    requires |p| <= MAX_MESSAGE && |p| % 256 != 123
    ensures ps != []
    ensures var (f, v, rest) := Opening(ps, ending, m);
      f == Protobuf && v == Judge(m.decode(p), Protobuf) && Flatten(rest) == WriteFrames(bodies)
  {
    hide ParseFrame, WriteFrame, Judge, Consume;
    FrameLength(p);
    FlattenEmpty(ps);
    FormatDetection(p, WriteFrames(bodies), ps);
    FramedHandshake(p, WriteFrames(bodies), ps, ending);
  }

  lemma FramesCons(p: seq<byte>, ps: seq<seq<byte>>)
    ensures WriteFrames([p] + ps) == WriteFrame(p) + WriteFrames(ps)
  {
    assert ([p] + ps)[1..] == ps;
  }

  lemma AllFramesBack(ps: seq<seq<byte>>, ending: ReadErr)
    requires Sendable(ps)
    ensures ReadFrames(WriteFrames(ps), ending) == ps
  {
    hide ReadFrames, WriteFrames;
    var whole := [WriteFrames(ps)];
    assert Flatten(whole) == WriteFrames(ps) + Flatten(whole[1..]) == WriteFrames(ps);
    FrameStreamRoundTrip(ps, whole, ending);
  }

  lemma {:induction false} WireIsLines<S>(svc: Service<S>, s: S, bodies: seq<seq<byte>>)
    ensures var xs := Exchanges(svc, Json, s, bodies);
      WireOf(xs) == JoinLines(Encoded(svc, xs))
    decreases |bodies|
  {
    hide Handle, Encoded;
    if bodies != [] && svc.decode(bodies[0]).Some? {
      var (s', resp) := Handle(svc, s, svc.decode(bodies[0]).value);
      if svc.encode(resp).Some? {
        var out := svc.encode(resp).value;
        var x, rest := Exchange(svc.decode(bodies[0]).value, resp, out + [NEWLINE]), Exchanges(svc, Json, s', bodies[1..]);
        WireIsLines(svc, s', bodies[1..]);
        EncodedCons(svc, x, rest);
        LinesCons(out, Encoded(svc, rest));
        assert ([x] + rest)[1..] == rest;
        return;
      }
    }
    EncodedNil(svc);
  }

  lemma LinesCons(l: seq<byte>, ls: seq<seq<byte>>)
    ensures JoinLines([l] + ls) == l + [NEWLINE] + JoinLines(ls)
  {
    assert ([l] + ls)[1..] == ls;
  }

  lemma AlignedAppend(ps: Pieces, qs: Pieces)
    requires Aligned(ps) && Aligned(qs)
    ensures Aligned(ps + qs)
  {
  }

  /** The first byte taken and put back as a piece of its own changes neither bytes nor alignment. */
  lemma PutBack(ps: Pieces, first: byte)
    requires NonEmptyPieces(ps) && ps != [] && Flatten(ps)[0] == first != NEWLINE && Aligned(ps)
    ensures var ps' := [[first]] + Consume(ps, 1);
      NonEmptyPieces(ps') && Flatten(ps') == Flatten(ps) && Aligned(ps')
  {
    FlattenEmpty(ps);
    assert ps[0][0] == Flatten(ps)[0];
    assert ps[0][..1] == [first];
    ConsumeNonEmpty(ps, 1);
    ConsumeFlatten(ps, 1);
    AlignedConsume(ps, 1);
    hide Consume;
    assert Flatten([[first]] + Consume(ps, 1)) == [first] + Flatten(Consume(ps, 1)) by {
      assert ([[first]] + Consume(ps, 1))[1..] == Consume(ps, 1);
    }
    assert Aligned([[first]]);
    AlignedAppend([[first]], Consume(ps, 1));
  }

  lemma LineOpening(m: Marshal, h: seq<byte>, tail: seq<byte>, ps: Pieces, ending: ReadErr)
    requires NonEmptyPieces(ps) && Aligned(ps) && Flatten(ps) == h + [NEWLINE] + tail
    requires NEWLINE !in h && h != [] && h[0] == BRACE && |h| + 1 <= MAX_SCAN
    ensures ps != []
    ensures var (f, v, rest) := Opening(ps, ending, m);
      f == Json && v == Judge(m.decode(DropReturn(h)), Json) && Flatten(rest) == tail && Aligned(rest)
  {
    hide Judge, Consume, ScanLine, Aligned, DropReturn;
    FlattenEmpty(ps);
    PutBack(ps, BRACE);
    ScanAlignedLine([], START_SCAN, MAX_SCAN, h, tail, [[BRACE]] + Consume(ps, 1), ending);
  }

  /** For a handshake line that begins with '{' and leaves room for its newline in the scanner's 64 KiB,
      followed by requests of a lock-step client, in any pieces: the transcript is the welcome and then one
      answer per request, in order and under its id, each as a line. */
  lemma LineConversation<S(!new)>(svc: Service<S>, m: Marshal, s0: S, h: seq<byte>, hp: Pieces, bodies: seq<seq<byte>>,
                                  cs: seq<Pieces>, ending: ReadErr)
    requires NonEmptyPieces(hp) && Flatten(hp) == h + [10] && 10 !in h
    requires h != [] && h[0] == 123 && |h| + 1 <= 65536 && h[|h| - 1] != 13
    requires m.decode(h).Some? && Acceptable(m.decode(h).value)
    requires Messages(bodies) && LockStep(cs, bodies)
    requires Echoes(svc) && Decodable(svc, bodies) && AlwaysEncodes(svc)
    ensures NonEmptyPieces(hp + Concat(cs))
    ensures var xs := ExchangesOn(svc, m, s0, hp + Concat(cs), ending);
      && |xs| == |bodies|
      && InTurn(svc, s0, bodies, xs)
      && (forall i | 0 <= i < |xs| :: xs[i].resp.requestId == xs[i].req.requestId)
      && Transcript(svc, m, s0, hp + Concat(cs), ending) ==
         JoinLines([m.encode(HandshakeResponse("ok", "1.0", "json", ""))] + Encoded(svc, xs))
  {
    hide Judge, Consume, ScanLine, Aligned, DropReturn, Exchanges, Encoded, WireOf, Echoes, Decodable, AlwaysEncodes;
    hide ReadLines, JoinLines, InTurn, Acceptable;
    var ps := hp + Concat(cs);
    LockStepAligned(hp, h);
    LockStepConcat(cs, bodies);
    AlignedAppend(hp, Concat(cs));
    FlattenConcat(hp, Concat(cs));
    LineOpening(m, h, JoinLines(bodies), ps, ending);
    NoReturnDropped(h);
    Judgement(m.decode(h), Json);
    ExchangesInTurn(svc, Json, s0, bodies);
    var rest := Opening(ps, ending, m).2;
    hide Opening;
    JsonDeliveryIffAligned(bodies, rest, ending);
    ExchangesInOrder(svc, Json, s0, bodies);
    WireIsLines(svc, s0, bodies);
    LinesCons(m.encode(HandshakeResponse("ok", "1.0", "json", "")), Encoded(svc, Exchanges(svc, Json, s0, bodies)));
  }
}
