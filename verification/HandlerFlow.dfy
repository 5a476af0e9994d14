/**
  What one handler does over a whole run: for each place in handleConn, how often it is entered and left,
  and so what becomes of the requests it reads.
*/
module HandlerFlow {
  import opened ServerLifecycle

  /** The places of handleConn.  Whether a check lets the loop go on or ends it depends on the state, so the
      two places behind it are counted together. */
  datatype Stage =
    | AtHandshake | AtReject | AtStore | AtCountUp | AtCheck | AtReadOrDelete | AtHandle | AtWrite
    | AtCountDown | AtClose | AtCloseWait | AtFinish | AtEnd

  predicate Stands(st: Stage, pc: HandlerPc) {
    match st
    case AtHandshake => pc.Handshaking?
    case AtReject => pc.Rejecting?
    case AtStore => pc.Storing?
    case AtCountUp => pc.CountingUp?
    case AtCheck => pc.Checking?
    case AtReadOrDelete => pc.Reading? || pc.Deleting?
    case AtHandle => pc.Handling?
    case AtWrite => pc.Writing?
    case AtCountDown => pc.CountingDown?
    case AtClose => pc.Closing?
    case AtCloseWait => pc.AwaitingClose?
    case AtFinish => pc.Finishing?
    case AtEnd => pc.Gone?
  }

  /** The actions that lead to the place. */
  predicate Into(st: Stage, act: HandlerAct) {
    match st
    case AtHandshake => false
    case AtReject => act.HandshakeFail?
    case AtStore => act.HandshakeOk?
    case AtCountUp => act.StoreConn?
    case AtCheck => act.CountUp? || act.WriteOk?
    case AtReadOrDelete => act.CheckCtx? || act.WriteFail?
    case AtHandle => act.ReadOk?
    case AtWrite => act.HandleReq?
    case AtCountDown => act.DeleteConn?
    case AtClose => act.CountDown?
    case AtCloseWait => act.CloseOwn?
    case AtFinish => act.RejectClose? || act.CloseReturns?
    case AtEnd => act.HandlerDone?
  }

  /** The actions that leave it. */
  predicate OutOf(st: Stage, act: HandlerAct) {
    match st
    case AtHandshake => act.HandshakeOk? || act.HandshakeFail?
    case AtReject => act.RejectClose?
    case AtStore => act.StoreConn?
    case AtCountUp => act.CountUp?
    case AtCheck => act.CheckCtx?
    case AtReadOrDelete => act.ReadOk? || act.DeleteConn?
    case AtHandle => act.HandleReq?
    case AtWrite => act.WriteOk? || act.WriteFail?
    case AtCountDown => act.CountDown?
    case AtClose => act.CloseOwn?
    case AtCloseWait => act.CloseReturns?
    case AtFinish => act.HandlerDone?
    case AtEnd => false
  }

  function Entries(es: seq<Event>, h: nat, st: Stage): nat {
    if es == [] then 0 else One(es[0].HandlerDo? && es[0].h == h && Into(st, es[0].act)) + Entries(es[1..], h, st)
  }

  function Departures(es: seq<Event>, h: nat, st: Stage): nat {
    if es == [] then 0 else One(es[0].HandlerDo? && es[0].h == h && OutOf(st, es[0].act)) + Departures(es[1..], h, st)
  }

  function Spawned(s: State, h: nat): nat {
    One(h < |s.handlers|)
  }

  function At(s: State, h: nat, st: Stage): nat {
    One(h < |s.handlers| && Stands(st, s.handlers[h].pc))
  }

  lemma StageStep(s: State, e: Event, h: nat, st: Stage)
    requires Enabled(s, e)
    ensures var s' := Apply(s, e);
      One(e.HandlerDo? && e.h == h && Into(st, e.act)) + At(s, h, st)
        + (if st == AtHandshake then Spawned(s', h) - Spawned(s, h) else 0)
      == One(e.HandlerDo? && e.h == h && OutOf(st, e.act)) + At(s', h, st)
  {
  }

  /** In every run each place of handleConn is left as often as it is entered, but for the handler that
      still stands there; a handler enters its handshake once, when it is spawned. */
  lemma {:induction false} StagesBalance(s: State, es: seq<Event>, h: nat, st: Stage)
    requires Legal(s, es)
    ensures Entries(es, h, st) + At(s, h, st)
              + (if st == AtHandshake then Spawned(Exec(s, es), h) - Spawned(s, h) else 0)
         == Departures(es, h, st) + At(Exec(s, es), h, st)
    decreases |es|
  {
    hide Apply, Enabled, At, Spawned, Into, OutOf;
    if es != [] {
      StageStep(s, es[0], h, st);
      StagesBalance(Apply(s, es[0]), es[1..], h, st);
    }
  }

  /** A handler can take every action that leaves its place, whatever the rest of the server does: a read may
      also fail, and only the end of its own close is waited for. */
  lemma EveryOutcome(x: Handler, st: Stage, act: HandlerAct)
    requires Stands(st, x.pc) && !act.FinishClose?
    ensures HandlerEnabled(x, act) <==>
      && (OutOf(st, act) || (act.ReadFail? && x.pc == Reading))
      && (act.ReadOk? ==> x.pc == Reading)
      && (act.DeleteConn? ==> x.pc == Deleting)
      && (act.CloseReturns? ==> x.once == Finished)
  {
  }

  // ---------- Requests ----------

  function Times(es: seq<Event>, h: nat, act: HandlerAct): nat {
    if es == [] then 0 else One(es[0] == HandlerDo(h, act)) + Times(es[1..], h, act)
  }

  function Standing(s: State, h: nat, pc: HandlerPc): nat {
    One(h < |s.handlers| && s.handlers[h].pc == pc)
  }

  lemma RequestStep(s: State, e: Event, h: nat)
    requires Enabled(s, e)
    ensures var s' := Apply(s, e);
      && One(e == HandlerDo(h, ReadOk)) + Standing(s, h, Handling) ==
         One(e == HandlerDo(h, HandleReq)) + Standing(s', h, Handling)
      && One(e == HandlerDo(h, HandleReq)) + Standing(s, h, Writing) ==
         One(e == HandlerDo(h, WriteOk)) + One(e == HandlerDo(h, WriteFail)) + Standing(s', h, Writing)
  {
  }

  lemma {:induction false} RequestsBalance(s: State, es: seq<Event>, h: nat)
    requires Legal(s, es)
    ensures var t := Exec(s, es);
      && Times(es, h, ReadOk) + Standing(s, h, Handling) == Times(es, h, HandleReq) + Standing(t, h, Handling)
      && Times(es, h, HandleReq) + Standing(s, h, Writing) ==
         Times(es, h, WriteOk) + Times(es, h, WriteFail) + Standing(t, h, Writing)
    decreases |es|
  {
    hide Apply, Enabled, Standing;
    if es != [] {
      RequestStep(s, es[0], h);
      RequestsBalance(Apply(s, es[0]), es[1..], h);
    }
  }

  /** In every run from Start each request a handler has read has been handled, except one it is about to
      handle; and for each handled request the response has been written, or failed to be, except one it is
      about to write. */
  lemma RequestsAnswered(configured: int, es: seq<Event>, h: nat)
    requires Legal(Initial(configured), es)
    ensures var t := Exec(Initial(configured), es);
      && Times(es, h, ReadOk) == Times(es, h, HandleReq) + Standing(t, h, Handling)
      && Times(es, h, HandleReq) == Times(es, h, WriteOk) + Times(es, h, WriteFail) + Standing(t, h, Writing)
  {
    RequestsBalance(Initial(configured), es, h);
  }

  /** One iteration of the request loop. */
  function Round(h: nat): seq<Event> {
    [HandlerDo(h, ReadOk), HandlerDo(h, HandleReq), HandlerDo(h, WriteOk), HandlerDo(h, CheckCtx)]
  }

  /** The handler alone has moved. */
  function With(s: State, h: nat, pc: HandlerPc): State
    requires h < |s.handlers|
  {
    s.(handlers := s.handlers[h := s.handlers[h].(pc := pc)])
  }

  lemma NoEvents(s: State)
    ensures Legal(s, []) && Exec(s, []) == s
  {
  }

  lemma StandsStill(s: State, h: nat)
    requires h < |s.handlers|
    ensures Legal(s, []) && Exec(s, []) == With(s, h, s.handlers[h].pc)
  {
  }

  /** One more action of a handler in its request loop, at the end of a run that has only moved it. */
  lemma Moves(s: State, es: seq<Event>, h: nat, from: HandlerPc, act: HandlerAct, to: HandlerPc)
    requires h < |s.handlers| && Legal(s, es) && Exec(s, es) == With(s, h, from)
    requires match act
             case ReadOk => from == Reading && to == Handling
             case HandleReq => from == Handling && to == Writing
             case WriteOk => from == Writing && to == Checking
             case CheckCtx =>
               from == Checking && to == if s.cancelled || s.handlers[h].once != Untouched then Deleting else Reading
             case _ => false
    ensures Legal(s, es + [HandlerDo(h, act)]) && Exec(s, es + [HandlerDo(h, act)]) == With(s, h, to)
  {
    hide Legal, Exec;
    assert Apply(With(s, h, from), HandlerDo(h, act)) == With(s, h, to);
    ExecSnoc(s, es, HandlerDo(h, act));
  }

  /** A handler that waits for a request can read it, handle it and answer it; then it waits for the next one,
      exactly if nobody has cancelled or begun to close its connection. */
  lemma OneMoreRound(s: State, h: nat)
    requires h < |s.handlers| && s.handlers[h].pc == Reading
    ensures Legal(s, Round(h))
    ensures Exec(s, Round(h)) == With(s, h, if s.cancelled || s.handlers[h].once != Untouched then Deleting else Reading)
  {
    hide Legal, Exec, With;
    var r := Round(h);
    assert r[..0] == [] && r[..1] == r[..0] + [r[0]] && r[..2] == r[..1] + [r[1]];
    assert r[..3] == r[..2] + [r[2]] && r == r[..3] + [r[3]];
    StandsStill(s, h);
    Moves(s, r[..0], h, Reading, ReadOk, Handling);
    Moves(s, r[..1], h, Handling, HandleReq, Writing);
    Moves(s, r[..2], h, Writing, WriteOk, Checking);
    Moves(s, r[..3], h, Checking, CheckCtx, if s.cancelled || s.handlers[h].once != Untouched then Deleting else Reading);
  }

  // ---------- The accept loop ----------

  lemma AcceptOne(s: State, es: seq<Event>, t: State, a: AcceptAct) returns (t': State)
    requires Legal(s, es) && Exec(s, es) == t && AcceptEnabled(t, a)
    ensures t' == AcceptApply(t, a) && Legal(s, es + [AcceptDo(a)]) && Exec(s, es + [AcceptDo(a)]) == t'
  {
    hide Legal, Exec, AcceptApply, AcceptEnabled;
    ExecSnoc(s, es, AcceptDo(a));
    t' := AcceptApply(t, a);
  }

  /** A connection accepted below the limit gets a handler of its own; at the limit it gets none, and the loop
      accepts the next one. */
  lemma AcceptRound(s: State) returns (es: seq<Event>)
    requires s.accept == Accepting && s.listenerOpen
    ensures es == [AcceptDo(Accept), AcceptDo(LimitCheck)]
               + if s.connCount >= s.maxConns then [] else [AcceptDo(GroupAdd), AcceptDo(Spawn)]
    ensures Legal(s, es)
    ensures Exec(s, es) == if s.connCount >= s.maxConns then s
                           else s.(handlers := s.handlers + [Handler(Handshaking, 0, Untouched)], wg := s.wg + 1)
  {
    hide Legal, Exec;
    NoEvents(s);
    var t := AcceptOne(s, [], s, Accept);
    t := AcceptOne(s, [] + [AcceptDo(Accept)], t, LimitCheck);
    es := [] + [AcceptDo(Accept)] + [AcceptDo(LimitCheck)];
    if s.connCount < s.maxConns {
      t := AcceptOne(s, es, t, GroupAdd);
      t := AcceptOne(s, es + [AcceptDo(GroupAdd)], t, Spawn);
      es := es + [AcceptDo(GroupAdd)] + [AcceptDo(Spawn)];
    }
  }

  /** A failed accept ends the loop exactly if the server has been cancelled. */
  lemma AcceptErrorRound(s: State)
    requires s.accept == Accepting
    ensures var es := [AcceptDo(AcceptError)] + [AcceptDo(AfterAcceptError)];
      Legal(s, es) && Exec(s, es) == s.(accept := if s.cancelled then LeavingAccept else Accepting)
  {
    hide Legal, Exec;
    NoEvents(s);
    assert [] + [AcceptDo(AcceptError)] == [AcceptDo(AcceptError)];
    var t := AcceptOne(s, [], s, AcceptError);
    t := AcceptOne(s, [AcceptDo(AcceptError)], t, AfterAcceptError);
  }
}
