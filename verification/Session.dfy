/**
  The request loop of one connection after its handshake, in both formats.
*/
module Session {
  import opened Bytes
  import opened Readers
  import opened Framing
  import opened FrameStreams
  import opened JsonLines
  import opened Handshake

  datatype Request = Request(action: string, payload: seq<byte>, requestId: string)

  datatype Response = Response(status: string, payload: seq<byte>, requestId: string, error: string)

  /** The registered handlers over a service state S, and encoding/json left open: both directions may fail. */
  datatype Service<!S> = Service(
    handlers: map<string, (S, seq<byte>, string) -> (S, Response)>,
    decode: seq<byte> -> Option<Request>,
    encode: Response -> Option<seq<byte>>)

  /** HandlerRegistry.Handle. */
  function Handle<S>(svc: Service<S>, s: S, req: Request): (S, Response) {
    if req.action in svc.handlers then svc.handlers[req.action](s, req.payload, req.requestId)
    else (s, Response("error", [], req.requestId, "unknown action: " + req.action))
  }

  /** Every registered handler answers under the request id it was given. */
  ghost predicate Echoes<S(!new)>(svc: Service<S>) {
    forall a, s, p, id | a in svc.handlers :: svc.handlers[a](s, p, id).1.requestId == id
  }

  /** One request with its answer and the bytes of that answer on the wire. */
  datatype Exchange = Exchange(req: Request, resp: Response, wire: seq<byte>)

  /** The exchanges the given messages lead to, up to the first that cannot be decoded or answered. */
  function Exchanges<S>(svc: Service<S>, format: Format, s: S, bodies: seq<seq<byte>>): seq<Exchange> {
    if bodies == [] then []
    else
      match svc.decode(bodies[0])
      case None => []
      case Some(req) =>
        var (s', resp) := Handle(svc, s, req);
        match svc.encode(resp)
        case None => []
        case Some(out) => [Exchange(req, resp, Wire(format, out))] + Exchanges(svc, format, s', bodies[1..])
  }

  /** The service state after the first n messages have been executed. */
  function StateAfter<S>(svc: Service<S>, s: S, bodies: seq<seq<byte>>, n: nat): S {
    if n == 0 || bodies == [] then s
    else
      match svc.decode(bodies[0])
      case None => s
      case Some(req) => StateAfter(svc, Handle(svc, s, req).0, bodies[1..], n - 1)
  }

  function WireOf(xs: seq<Exchange>): seq<byte> {
    if xs == [] then [] else xs[0].wire + WireOf(xs[1..])
  }

  lemma {:induction false} WireOfSnoc(xs: seq<Exchange>, n: nat)
    requires n < |xs|
    ensures WireOf(xs[..n + 1]) == WireOf(xs[..n]) + xs[n].wire
    decreases n
  {
    if n == 0 {
      assert xs[..1] == [xs[0]] && [xs[0]][1..] == [];
    } else {
      assert xs[..n][1..] == xs[1..][..n - 1] && xs[..n + 1][1..] == xs[1..][..n];
      WireOfSnoc(xs[1..], n - 1);
    }
  }

  /** The messages the codec will read off the connection. */
  function Bodies(format: Format, ps: Pieces, ending: ReadErr): seq<seq<byte>>
    requires NonEmptyPieces(ps)
  {
    match format
    case Json => ReadLines(ps, ending)
    case Protobuf => ReadFrames(Flatten(ps), ending)
  }

  /** ReadRequest up to the message body. */
  method ReadBody(conn: Conn, format: Format) returns (body: Option<seq<byte>>)
    requires conn.Valid()
    modifies conn`chunks
    ensures conn.Valid()
    ensures var bodies := Bodies(format, old(conn.chunks), conn.ending);
      if bodies == [] then body == None
      else body == Some(bodies[0]) && Bodies(format, conn.chunks, conn.ending) == bodies[1..]
    ensures body.Some? ==> |Flatten(conn.chunks)| < |Flatten(old(conn.chunks))|
  {
    hide ScanLine, ParseFrame, Consume;
    ghost var ps := conn.chunks;
    var direct := new MultiReader(NoHead, conn);
    assert direct.Ahead() == [] + conn.chunks == conn.chunks;
    match format {
      case Json =>
        var line := Scan(direct, MAX_JSON, MAX_JSON);
        assert direct.Ahead() == [] + conn.chunks == conn.chunks;
        body := if line.Line? then Some(line.text) else None;
      case Protobuf =>
        var parsed := ReadLengthPrefixed(direct);
        assert direct.Ahead() == [] + conn.chunks == conn.chunks;
        FrameUses(ps, conn.ending);
        body := if parsed.Frame? then Some(parsed.body) else None;
    }
  }

  lemma FrameUses(ps: Pieces, ending: ReadErr)
    requires NonEmptyPieces(ps)
    ensures var (parsed, used) := ParseFrame(Flatten(ps), ending);
      && used <= |Flatten(ps)|
      && (parsed.Frame? ==> used >= 4)
      && Flatten(Consume(ps, used)) == Flatten(ps)[used..]
  {
    hide UintLE, Consume;
    ConsumeFlatten(ps, ParseFrame(Flatten(ps), ending).1);
  }

  datatype Exit = Cancelled | ReadEnded | Undecodable | Unencodable | WriteFailed

  /** The request loop of handleConn. `stopped` is what the check of the ctx and of the close channel finds
      at the start of each iteration. */
  method Serve<S>(conn: Conn, format: Format, svc: Service<S>, s0: S, stopped: nat -> bool)
    returns (s: S, served: nat, exit: Exit)
    requires conn.Valid()
    modifies conn
    ensures conn.Valid()
    ensures var bodies := Bodies(format, old(conn.chunks), conn.ending);
      var xs := Exchanges(svc, format, s0, bodies);
      && served <= |xs|
      && (exit != WriteFailed ==> conn.sent == old(conn.sent) + WireOf(xs[..served]))
      && (exit == WriteFailed ==>
            && served < |xs| && |WireOf(xs[..served + 1])| > old(conn.room)
            && conn.sent == old(conn.sent) + WireOf(xs[..served + 1])[..old(conn.room)])
      && (forall k: nat | k < served :: !stopped(k))
      && (exit == Cancelled <==> stopped(served))
      && (exit == ReadEnded ==> served == |xs| == |bodies|)
      && (exit == Undecodable || exit == Unencodable ==> served == |xs| < |bodies|)
      && s == StateAfter(svc, s0, bodies, served + if exit == WriteFailed || exit == Unencodable then 1 else 0)
  {
    hide Wire, Handle, Bodies, Exchanges, StateAfter, WireOf;
    ghost var bodies := Bodies(format, conn.chunks, conn.ending);
    ghost var xs := Exchanges(svc, format, s0, bodies);
    ghost var sent0, room0 := conn.sent, conn.room;
    s, served := s0, 0;
    NothingYet(svc, s0, bodies, xs);
    while true
      invariant conn.Valid() && served <= |xs| && served <= |bodies| && forall k: nat | k < served :: !stopped(k)
      invariant Bodies(format, conn.chunks, conn.ending) == bodies[served..]
      invariant s == StateAfter(svc, s0, bodies, served)
      invariant conn.sent == sent0 + WireOf(xs[..served])
      invariant conn.room == room0 - |WireOf(xs[..served])|
      decreases |Flatten(conn.chunks)|
    {
      if stopped(served) {
        exit := Cancelled;
        return;
      }
      NextExchange(svc, format, s0, bodies, served);
      var body := ReadBody(conn, format);
      if body == None {
        exit := ReadEnded;
        return;
      }
      assert bodies[served..][0] == bodies[served] && bodies[served..][1..] == bodies[served + 1..];
      var decoded := svc.decode(body.value);
      if decoded == None {
        exit := Undecodable;
        return;
      }
      var (s', resp) := Handle(svc, s, decoded.value);
      s := s';
      var encoded := svc.encode(resp);
      if encoded == None {
        exit := Unencodable;
        return;
      }
      WireOfSnoc(xs, served);
      var ok := WriteMessage(conn, format, encoded.value);
      if !ok {
        CutWire(sent0, WireOf(xs[..served]), xs[served].wire, room0);
        exit := WriteFailed;
        return;
      }
      served := served + 1;
    }
  }

  lemma CutWire(sent: seq<byte>, before: seq<byte>, wire: seq<byte>, room: nat)
    requires |before| <= room < |before| + |wire|
    ensures sent + before + wire[..room - |before|] == sent + (before + wire)[..room]
  {
  }

  lemma NothingYet<S>(svc: Service<S>, s0: S, bodies: seq<seq<byte>>, xs: seq<Exchange>)
    ensures StateAfter(svc, s0, bodies, 0) == s0 && WireOf(xs[..0]) == []
  {
  }

  /** What the n-th message leads to after n complete exchanges. */
  lemma {:induction false} NextExchange<S>(svc: Service<S>, format: Format, s0: S, bodies: seq<seq<byte>>, n: nat)
    requires n <= |Exchanges(svc, format, s0, bodies)|
    ensures var xs, s := Exchanges(svc, format, s0, bodies), StateAfter(svc, s0, bodies, n);
      if n >= |bodies| then |xs| == n == |bodies|
      else if svc.decode(bodies[n]) == None then |xs| == n
      else
        var req := svc.decode(bodies[n]).value;
        var (s', resp) := Handle(svc, s, req);
        && StateAfter(svc, s0, bodies, n + 1) == s'
        && (if svc.encode(resp) == None then |xs| == n
            else n < |xs| && xs[n] == Exchange(req, resp, Wire(format, svc.encode(resp).value)))
    decreases n
  {
    hide Handle, Wire;
    if n > 0 {
      var s1 := Handle(svc, s0, svc.decode(bodies[0]).value).0;
      assert Exchanges(svc, format, s0, bodies)[1..] == Exchanges(svc, format, s1, bodies[1..]);
      NextExchange(svc, format, s1, bodies[1..], n - 1);
    }
  }

  // ---------- Ordered request and response ----------

  ghost predicate Decodable<S>(svc: Service<S>, bodies: seq<seq<byte>>) {
    forall i | 0 <= i < |bodies| :: svc.decode(bodies[i]).Some?
  }

  ghost predicate AlwaysEncodes<S>(svc: Service<S>) {
    forall r :: svc.encode(r).Some?
  }

  lemma HandleEchoes<S(!new)>(svc: Service<S>, s: S, req: Request)
    requires Echoes(svc)
    ensures Handle(svc, s, req).1.requestId == req.requestId
  {
  }

  /** A registered action is answered by its handler, which takes the service from s to s'; any other action
      is answered with an error and leaves the service as it is. */
  predicate Dispatched<S(==)>(svc: Service<S>, s: S, req: Request, s': S, resp: Response) {
    if req.action in svc.handlers then (s', resp) == svc.handlers[req.action](s, req.payload, req.requestId)
    else s' == s && resp == Response("error", [], req.requestId, "unknown action: " + req.action)
  }

  /** Each message is decoded, executed on the state its predecessor left, and answered. */
  ghost predicate InTurn<S>(svc: Service<S>, s: S, bodies: seq<seq<byte>>, xs: seq<Exchange>) {
    && |xs| <= |bodies|
    && StateAfter(svc, s, bodies, 0) == s
    && forall i | 0 <= i < |xs| ::
         && svc.decode(bodies[i]) == Some(xs[i].req)
         && Dispatched(svc, StateAfter(svc, s, bodies, i), xs[i].req, StateAfter(svc, s, bodies, i + 1), xs[i].resp)
  }

  /** The message after the last exchange, if there is one, could not be decoded, or has been executed but its
      answer could not be encoded. */
  ghost predicate StoppedAt<S>(svc: Service<S>, s: S, bodies: seq<seq<byte>>, n: nat) {
    n < |bodies| && svc.decode(bodies[n]).Some? ==>
      exists resp ::
        && Dispatched(svc, StateAfter(svc, s, bodies, n), svc.decode(bodies[n]).value, StateAfter(svc, s, bodies, n + 1), resp)
        && svc.encode(resp) == None
  }

  lemma HandleDispatches<S>(svc: Service<S>, s: S, req: Request)
    ensures Dispatched(svc, s, req, Handle(svc, s, req).0, Handle(svc, s, req).1)
  {
  }

  /** The exchanges run the messages one after the other on the service, starting from its state s. */
  lemma ExchangesInTurn<S>(svc: Service<S>, format: Format, s: S, bodies: seq<seq<byte>>)
    ensures var xs := Exchanges(svc, format, s, bodies);
      InTurn(svc, s, bodies, xs) && StoppedAt(svc, s, bodies, |xs|)
  {
    hide Handle, Wire, Exchanges, StateAfter, Dispatched;
    var xs := Exchanges(svc, format, s, bodies);
    NothingYet(svc, s, bodies, xs);
    ExchangesWithin(svc, format, s, bodies);
    forall i: nat | i <= |xs| && i < |bodies| && svc.decode(bodies[i]).Some?
      ensures Dispatched(svc, StateAfter(svc, s, bodies, i), svc.decode(bodies[i]).value, StateAfter(svc, s, bodies, i + 1),
                         Handle(svc, StateAfter(svc, s, bodies, i), svc.decode(bodies[i]).value).1)
    {
      NextExchange(svc, format, s, bodies, i);
      HandleDispatches(svc, StateAfter(svc, s, bodies, i), svc.decode(bodies[i]).value);
    }
    forall i: nat | i <= |xs| ensures i < |xs| ==> i < |bodies| && svc.decode(bodies[i]) == Some(xs[i].req)
    {
      NextExchange(svc, format, s, bodies, i);
    }
    forall i | 0 <= i < |xs|
      ensures svc.decode(bodies[i]) == Some(xs[i].req)
      ensures Dispatched(svc, StateAfter(svc, s, bodies, i), xs[i].req, StateAfter(svc, s, bodies, i + 1), xs[i].resp)
    {
      NextExchange(svc, format, s, bodies, i);
    }
    NextExchange(svc, format, s, bodies, |xs|);
  }

  lemma {:induction false} ExchangesWithin<S>(svc: Service<S>, format: Format, s: S, bodies: seq<seq<byte>>)
    ensures |Exchanges(svc, format, s, bodies)| <= |bodies|
    decreases |bodies|
  {
    hide Handle, Wire;
    if bodies != [] && svc.decode(bodies[0]).Some? {
      ExchangesWithin(svc, format, Handle(svc, s, svc.decode(bodies[0]).value).0, bodies[1..]);
    }
  }

  /** Exchanges pair the i-th message with the i-th answer, under the same request id; and every decodable
      message is answered when marshalling does not fail. */
  lemma {:induction false} ExchangesInOrder<S(!new)>(svc: Service<S>, format: Format, s: S, bodies: seq<seq<byte>>)
    requires Echoes(svc)
    ensures var xs := Exchanges(svc, format, s, bodies);
      && |xs| <= |bodies|
      && (forall i | 0 <= i < |xs| ::
            svc.decode(bodies[i]) == Some(xs[i].req) && xs[i].resp.requestId == xs[i].req.requestId)
      && (Decodable(svc, bodies) && AlwaysEncodes(svc) ==> |xs| == |bodies|)
    decreases |bodies|
  {
    hide Wire;
    if bodies != [] && svc.decode(bodies[0]).Some? {
      var req := svc.decode(bodies[0]).value;
      var (s', resp) := Handle(svc, s, req);
      HandleEchoes(svc, s, req);
      hide Handle, Echoes;
      if svc.encode(resp).Some? {
        ExchangesInOrder(svc, format, s', bodies[1..]);
        var rest := Exchanges(svc, format, s', bodies[1..]);
        var xs := Exchanges(svc, format, s, bodies);
        assert xs[1..] == rest;
        assert forall i | 0 < i < |xs| :: xs[i] == rest[i - 1] && bodies[i] == bodies[1..][i - 1];
        assert Decodable(svc, bodies) ==> Decodable(svc, bodies[1..]);
      }
    }
  }

  /** The client's side of the connection: pipelined frames in any pieces, or lock-step JSON lines. */
  ghost predicate SentBy(format: Format, bodies: seq<seq<byte>>, ps: Pieces) {
    match format
    case Protobuf => Sendable(bodies) && Flatten(ps) == WriteFrames(bodies)
    case Json => Messages(bodies) && exists cs :: LockStep(cs, bodies) && ps == Concat(cs)
  }

  lemma BodiesArrive(format: Format, bodies: seq<seq<byte>>, ps: Pieces, ending: ReadErr)
    requires NonEmptyPieces(ps) && SentBy(format, bodies, ps)
    ensures Bodies(format, ps, ending) == bodies
  {
    match format
    case Protobuf => FrameStreamRoundTrip(bodies, ps, ending);
    case Json =>
      var cs :| LockStep(cs, bodies) && ps == Concat(cs);
      LockStepDelivery(cs, bodies, ending);
  }

  /** For every list of well-formed requests and every cutting into pieces, the loop's exchanges are one
      per request, executed in order, each answered under its own request id. */
  lemma OneAnswerPerRequest<S(!new)>(svc: Service<S>, format: Format, s: S, bodies: seq<seq<byte>>, ps: Pieces, ending: ReadErr)
    requires NonEmptyPieces(ps) && SentBy(format, bodies, ps)
    requires Echoes(svc) && Decodable(svc, bodies) && AlwaysEncodes(svc)
    ensures var xs := Exchanges(svc, format, s, Bodies(format, ps, ending));
      && |xs| == |bodies|
      && InTurn(svc, s, bodies, xs)
      && forall i | 0 <= i < |bodies| :: xs[i].resp.requestId == xs[i].req.requestId
  {
    BodiesArrive(format, bodies, ps, ending);
    ExchangesInTurn(svc, format, s, bodies);
    ExchangesInOrder(svc, format, s, bodies);
  }

  /** The encoded answers themselves. */
  function Encoded<S>(svc: Service<S>, xs: seq<Exchange>): seq<seq<byte>> {
    seq(|xs|, i requires 0 <= i < |xs| => svc.encode(xs[i].resp).GetOr([]))
  }

  /** A Protobuf client that reads the answer stream, however it arrives, gets the encoded answers one by
      one, provided each is at most MAX_MESSAGE bytes: the writer does not check this, the reader does. */
  lemma ClientReadsAnswers<S>(svc: Service<S>, s: S, bodies: seq<seq<byte>>, ps: Pieces, ending: ReadErr)
    requires var xs := Exchanges(svc, Protobuf, s, bodies);
      Sendable(Encoded(svc, xs)) && Flatten(ps) == WireOf(xs)
    ensures ReadFrames(Flatten(ps), ending) == Encoded(svc, Exchanges(svc, Protobuf, s, bodies))
  {
    WireIsFrames(svc, s, bodies);
    FrameStreamRoundTrip(Encoded(svc, Exchanges(svc, Protobuf, s, bodies)), ps, ending);
  }

  lemma EncodedCons<S>(svc: Service<S>, x: Exchange, rest: seq<Exchange>)
    ensures Encoded(svc, [x] + rest) == [svc.encode(x.resp).GetOr([])] + Encoded(svc, rest)
  {
  }

  lemma {:induction false} WireIsFrames<S>(svc: Service<S>, s: S, bodies: seq<seq<byte>>)
    ensures var xs := Exchanges(svc, Protobuf, s, bodies);
      WireOf(xs) == WriteFrames(Encoded(svc, xs))
    decreases |bodies|
  {
    hide Handle, WriteFrame, Encoded;
    if bodies != [] && svc.decode(bodies[0]).Some? {
      var req := svc.decode(bodies[0]).value;
      var (s', resp) := Handle(svc, s, req);
      if svc.encode(resp).Some? {
        var out := svc.encode(resp).value;
        var x, rest := Exchange(req, resp, WriteFrame(out)), Exchanges(svc, Protobuf, s', bodies[1..]);
        WireIsFrames(svc, s', bodies[1..]);
        EncodedCons(svc, x, rest);
        assert ([x] + rest)[1..] == rest && ([out] + Encoded(svc, rest))[1..] == Encoded(svc, rest);
        assert Exchanges(svc, Protobuf, s, bodies) == [x] + rest;
        return;
      }
    }
    assert Exchanges(svc, Protobuf, s, bodies) == [];
    EncodedNil(svc);
  }

  lemma EncodedNil<S>(svc: Service<S>)
    ensures Encoded(svc, []) == []
  {
  }
}
