/**
  Shutting the UDS server down: nobody is left behind, the remaining work is bounded, and the
  shutdown can always be driven to its end without help from any client.
*/
module Shutdown {
  import opened ServerLifecycle

  // ---------- Safety: what holds once Stop has ranged over the map ----------

  ghost predicate Swept(s: State) {
    s.stop.AwaitingGroup? || s.stop.Stopped?
  }

  lemma SweptIsSafe(s: State)
    requires Accounted(s) && Covered(s) && Swept(s)
    ensures forall h | 0 <= h < |s.handlers| && PastCheck(s.handlers[h].pc) :: s.handlers[h].once == Finished
    ensures forall h | 0 <= h < |s.handlers| && s.handlers[h].pc == Checking ::
              Enabled(s, HandlerDo(h, CheckCtx)) && Apply(s, HandlerDo(h, CheckCtx)).handlers[h].pc == Deleting
  {
    forall h | 0 <= h < |s.handlers| && PastCheck(s.handlers[h].pc)
      ensures s.handlers[h].once == Finished
    {
      assert !StillToClose(s.stop, h, s.handlers[h].id);
    }
  }

  /** Whatever the interleaving, once Stop's Range is over every handler inside a request iteration has
      a closed socket, and every handler standing at its ctx check can only leave. */
  lemma NobodyStranded(configured: int, es: seq<Event>)
    requires Legal(Initial(configured), es) && DistinctIds(Initial(configured), es)
    requires Swept(Exec(Initial(configured), es))
    ensures var s := Exec(Initial(configured), es);
      && (forall h | 0 <= h < |s.handlers| && PastCheck(s.handlers[h].pc) :: s.handlers[h].once == Finished)
      && (forall h | 0 <= h < |s.handlers| && s.handlers[h].pc == Checking ::
            Enabled(s, HandlerDo(h, CheckCtx)) && Apply(s, HandlerDo(h, CheckCtx)).handlers[h].pc == Deleting)
  {
    hide Apply, Enabled, Legal, Exec, Accounted, Covered, Indexed, Swept;
    StartsWell(configured);
    IndexedAlways(Initial(configured), es);
    SweptIsSafe(Exec(Initial(configured), es));
  }

  // ---------- After cancel nobody starts a new request ----------

  function RequestsRead(es: seq<Event>, h: nat): nat {
    if es == [] then 0 else One(es[0] == HandlerDo(h, ReadOk)) + RequestsRead(es[1..], h)
  }

  predicate MayRead(s: State, h: nat) {
    h < |s.handlers| && s.handlers[h].pc == Reading
  }

  lemma CancelledStep(s: State, e: Event, h: nat)
    requires s.cancelled && Enabled(s, e)
    ensures Apply(s, e).cancelled
    ensures One(e == HandlerDo(h, ReadOk)) + One(MayRead(Apply(s, e), h)) <= One(MayRead(s, h))
  {
  }

  /** After cancel, in every continuation, each handler reads at most one more request, and only the
      request whose read had already begun. */
  lemma {:induction false} AtMostOneMoreRequest(s: State, es: seq<Event>, h: nat)
    requires s.cancelled && Legal(s, es)
    ensures RequestsRead(es, h) + One(MayRead(Exec(s, es), h)) <= One(MayRead(s, h))
    decreases |es|
  {
    hide Apply, Enabled, MayRead;
    if es != [] {
      CancelledStep(s, es[0], h);
      AtMostOneMoreRequest(Apply(s, es[0]), es[1..], h);
    }
  }

  // ---------- A rank for the work left ----------

  function HandlerRank(pc: HandlerPc): nat {
    match pc
    case Handshaking => 10
    case Rejecting => 2
    case Storing => 8
    case CountingUp => 7
    case Checking => 6
    case Reading => 9
    case Handling => 8
    case Writing => 7
    case Deleting => 5
    case CountingDown => 4
    case Closing => 3
    case AwaitingClose => 2
    case Finishing => 1
    case Gone => 0
  }

  function OnceRank(o: Once): nat {
    match o
    case Untouched => 2
    case Running => 1
    case Finished => 0
  }

  function Weight(x: Handler): nat { HandlerRank(x.pc) + OnceRank(x.once) }

  function Total(hs: seq<Handler>): nat {
    if hs == [] then 0 else Weight(hs[0]) + Total(hs[1..])
  }

  lemma {:induction false} TotalUpdate(hs: seq<Handler>, h: nat, x: Handler)
    requires h < |hs|
    ensures Total(hs[h := x]) == Total(hs) - Weight(hs[h]) + Weight(x)
    decreases |hs|
  {
    if h == 0 {
      assert hs[h := x][1..] == hs[1..];
    } else {
      assert hs[h := x][1..] == hs[1..][h - 1 := x];
      TotalUpdate(hs[1..], h - 1, x);
    }
  }

  lemma {:induction false} TotalAppend(hs: seq<Handler>, x: Handler)
    ensures Total(hs + [x]) == Total(hs) + Weight(x)
    decreases |hs|
  {
    if hs == [] {
      assert [x][1..] == [];
    } else {
      assert (hs + [x])[1..] == hs[1..] + [x];
      TotalAppend(hs[1..], x);
    }
  }

  /** An accept loop about to spawn carries the rank of the handler it will start. */
  function AcceptRank(a: AcceptPc): nat {
    match a
    case AtLimitCheck => 18
    case AddingToGroup => 17
    case Spawning => 16
    case Accepting => 3
    case AcceptErred => 2
    case LeavingAccept => 1
    case AcceptGone => 0
  }

  function IdleRank(i: IdlePc): nat {
    match i
    case LeavingIdle => 1
    case IdleGone => 0
    case _ => 2
  }

  function Rank(s: State): nat {
    Total(s.handlers) + AcceptRank(s.accept) + IdleRank(s.idle) + One(s.stop.AwaitingGroup?)
  }

  /** The idle checker's ticker rounds: the only server steps that need not bring the end closer. */
  predicate IdleRound(e: Event) {
    e.IdleDo? && (e.i.IdleTick? || e.i.IdleVisit? || e.i.IdleSkip? || e.i.IdleNext? || e.i.IdleRangeEnd?)
  }

  lemma LocalRank(x: Handler, act: HandlerAct)
    requires HandlerEnabled(x, act)
    ensures Weight(Local(x, true, act)) < Weight(x)
  {
  }

  lemma RankHandlerStep(s: State, h: nat, act: HandlerAct)
    requires Accounted(s) && Swept(s) && h < |s.handlers| && HandlerEnabled(s.handlers[h], act)
    ensures Swept(HandlerApply(s, h, act)) && Rank(HandlerApply(s, h, act)) < Rank(s)
  {
    LocalRank(s.handlers[h], act);
    TotalUpdate(s.handlers, h, Local(s.handlers[h], true, act));
    assert s.cancelled;
    hide Local, Weight, Total, HandlerEnabled, Accounted;
  }

  lemma RankIdleStep(s: State, i: IdleAct)
    requires Accounted(s) && Swept(s) && IdleEnabled(s, i)
    ensures Swept(IdleApply(s, i)) && Rank(IdleApply(s, i)) <= Rank(s)
    ensures !IdleRound(IdleDo(i)) && !i.IdleClose? ==> Rank(IdleApply(s, i)) < Rank(s)
    ensures i.IdleClose? && s.handlers[s.idle.seen].once == Untouched ==> Rank(IdleApply(s, i)) < Rank(s)
  {
    if i.IdleClose? {
      TotalUpdate(s.handlers, s.idle.seen, BeginClose(s.handlers, s.idle.seen)[s.idle.seen]);
    }
  }

  lemma RankAcceptStep(s: State, a: AcceptAct)
    requires Accounted(s) && Swept(s) && AcceptEnabled(s, a)
    ensures Swept(AcceptApply(s, a)) && Rank(AcceptApply(s, a)) < Rank(s)
  {
    TotalAppend(s.handlers, Handler(Handshaking, 0, Untouched));
  }

  /** After the Range every event keeps the rank from growing, and every event of a handler, of the
      accept loop or of Stop lowers it. */
  lemma RankStep(s: State, e: Event)
    requires Accounted(s) && Swept(s) && Enabled(s, e)
    ensures Swept(Apply(s, e)) && Rank(Apply(s, e)) <= Rank(s)
    ensures !e.IdleDo? ==> Rank(Apply(s, e)) < Rank(s)
  {
    match e
    case AcceptDo(a) => RankAcceptStep(s, a);
    case HandlerDo(h, act) => RankHandlerStep(s, h, act);
    case IdleDo(i) => RankIdleStep(s, i);
    case StopDo(t) =>
  }

  function BusySteps(es: seq<Event>): nat {
    if es == [] then 0 else One(!es[0].IdleDo?) + BusySteps(es[1..])
  }

  /** Every continuation after the Range, however long, holds at most Rank(s) steps of handlers, accept
      loop and Stop together. */
  lemma {:induction false} ShutdownWorkBounded(s: State, es: seq<Event>)
    requires Accounted(s) && Swept(s) && Legal(s, es)
    ensures BusySteps(es) + Rank(Exec(s, es)) <= Rank(s)
    decreases |es|
  {
    hide Apply, Enabled, Accounted, Swept, Rank;
    if es != [] {
      RankStep(s, es[0]);
      AccountedStep(s, es[0]);
      ShutdownWorkBounded(Apply(s, es[0]), es[1..]);
    }
  }

  // ---------- Liveness: the server can finish on its own ----------

  /** The event needs nothing from a client: no bytes arriving, no new connection, no hang-up.  A read
      returns only because the socket was closed; handshakes and writes may run into their deadlines. */
  predicate Unaided(s: State, e: Event) {
    match e
    case AcceptDo(a) => !a.Accept?
    case HandlerDo(h, act) =>
      !act.HandshakeOk? && !act.ReadOk? && !act.WriteOk?
      && (act.ReadFail? ==> h < |s.handlers| && s.handlers[h].once == Finished)
    case _ => true
  }

  predicate AllUnaided(s: State, es: seq<Event>)
    requires Legal(s, es)
    decreases |es|
  {
    es == [] || (Unaided(s, es[0]) && AllUnaided(Apply(s, es[0]), es[1..]))
  }

  /** The next unaided step of a handler that still has to finish. */
  function Ahead(x: Handler): HandlerAct {
    match x.pc
    case Handshaking => HandshakeFail
    case Rejecting => RejectClose
    case Storing => StoreConn
    case CountingUp => CountUp
    case Checking => CheckCtx
    case Reading => if x.once == Finished then ReadFail else FinishClose
    case Handling => HandleReq
    case Writing => WriteFail
    case Deleting => DeleteConn
    case CountingDown => CountDown
    case Closing => CloseOwn
    case AwaitingClose => if x.once == Finished then CloseReturns else FinishClose
    case Finishing => HandlerDone
    case Gone => FinishClose
  }

  /** The handler waits in a read, and nobody has begun to close its socket. */
  predicate OpenReader(x: Handler) {
    x.pc == Reading && x.once == Untouched
  }

  /** Before it is gone, a handler has a step of its own that needs nothing from its client exactly if it
      is not reading from a socket whose close has not begun. */
  lemma HandlerNotBlocked(s: State, h: nat)
    requires Accounted(s) && h < |s.handlers| && s.handlers[h].pc != Gone
    ensures (exists act :: Enabled(s, HandlerDo(h, act)) && Unaided(s, HandlerDo(h, act))) <==> !OpenReader(s.handlers[h])
    ensures !OpenReader(s.handlers[h]) ==>
      var e := HandlerDo(h, Ahead(s.handlers[h])); Enabled(s, e) && Unaided(s, e)
  {
    var e := HandlerDo(h, Ahead(s.handlers[h]));
    assert !OpenReader(s.handlers[h]) ==> Enabled(s, e) && Unaided(s, e);
  }

  /** How far the idle checker is from its select, for states where the rank stands still. */
  function IdlePhase(i: IdlePc): nat {
    match i
    case IdleSaw(_) => 2
    case IdleClosing(_) => 2
    case IdleSweeping => 1
    case _ => 0
  }

  /** Only the idle checker, about to close it, still knows of an open reader. */
  ghost predicate OpenReadersSeen(s: State) {
    forall h | 0 <= h < |s.handlers| && OpenReader(s.handlers[h]) :: s.idle == IdleSaw(h)
  }

  lemma IdleAhead(s: State) returns (e: Event)
    requires Accounted(s) && Swept(s) && OpenReadersSeen(s) && s.idle != IdleGone
    ensures Enabled(s, e) && Unaided(s, e) && OpenReadersSeen(Apply(s, e))
    ensures Rank(Apply(s, e)) < Rank(s)
         || (Rank(Apply(s, e)) == Rank(s) && IdlePhase(Apply(s, e).idle) < IdlePhase(s.idle))
  {
    match s.idle
    case IdleWaiting => e := IdleDo(IdleSeesCancel); RankIdleStep(s, IdleSeesCancel);
    case LeavingIdle => e := IdleDo(IdleDone); RankIdleStep(s, IdleDone);
    case IdleSweeping => e := IdleDo(IdleRangeEnd);
    case IdleSaw(t) =>
      e := IdleDo(if s.handlers[t].once == Untouched then IdleClose else IdleSkip);
      RankIdleStep(s, e.i);
    case IdleClosing(t) =>
      if s.handlers[t].once == Finished {
        e := IdleDo(IdleNext);
      } else {
        e := HandlerDo(t, FinishClose);
        RankHandlerStep(s, t, FinishClose);
      }
  }

  function AcceptAhead(a: AcceptPc): AcceptAct {
    match a
    case Accepting => AcceptError
    case AcceptErred => AfterAcceptError
    case AtLimitCheck => LimitCheck
    case AddingToGroup => GroupAdd
    case Spawning => Spawn
    case LeavingAccept => AcceptDone
    case AcceptGone => AcceptDone
  }

  lemma HandlerAhead(s: State, h: nat) returns (e: Event)
    requires Accounted(s) && Swept(s) && OpenReadersSeen(s) && s.idle == IdleGone
    requires h < |s.handlers| && In(Alive, s.handlers[h].pc)
    ensures Enabled(s, e) && Unaided(s, e) && OpenReadersSeen(Apply(s, e)) && Rank(Apply(s, e)) < Rank(s)
  {
    HandlerNotBlocked(s, h);
    e := HandlerDo(h, Ahead(s.handlers[h]));
    RankHandlerStep(s, h, e.act);
    hide Rank, Accounted, Unaided;
  }

  /** While Stop is still waiting, some unaided event brings the end closer. */
  lemma SomethingAhead(s: State) returns (e: Event)
    requires Accounted(s) && OpenReadersSeen(s) && s.stop.AwaitingGroup?
    ensures Enabled(s, e) && Unaided(s, e) && OpenReadersSeen(Apply(s, e))
    ensures Rank(Apply(s, e)) < Rank(s)
         || (Rank(Apply(s, e)) == Rank(s) && IdlePhase(Apply(s, e).idle) < IdlePhase(s.idle))
  {
    CountZero(s.handlers, Alive);
    if s.wg == 0 {
      e := StopDo(WaitReturns);
    } else if s.idle != IdleGone {
      e := IdleAhead(s);
    } else if s.accept != AcceptGone {
      e := AcceptDo(AcceptAhead(s.accept));
      RankAcceptStep(s, e.a);
    } else {
      var h: nat :| h < |s.handlers| && In(Alive, s.handlers[h].pc);
      e := HandlerAhead(s, h);
    }
  }

  lemma {:induction false} DriveToEnd(s: State) returns (es: seq<Event>)
    requires Accounted(s) && OpenReadersSeen(s) && Swept(s)
    ensures Legal(s, es) && AllUnaided(s, es) && Exec(s, es).stop == Stopped
    decreases Rank(s), IdlePhase(s.idle)
  {
    hide Apply, Enabled, Accounted, OpenReadersSeen, Unaided, Rank, IdlePhase;
    if s.stop.Stopped? {
      es := [];
    } else {
      var e := SomethingAhead(s);
      AccountedStep(s, e);
      RankStep(s, e);
      var rest := DriveToEnd(Apply(s, e));
      es := [e] + rest;
      assert es[1..] == rest;
    }
  }

  /** With distinct ids there is, from every reachable state after the Range, a run of server-only events
      in which Stop returns: clients that stay connected and silent cannot hold the shutdown up. */
  lemma ShutdownCompletes(configured: int, es: seq<Event>)
    requires Legal(Initial(configured), es) && DistinctIds(Initial(configured), es)
    requires Swept(Exec(Initial(configured), es))
    ensures exists more :: Legal(Exec(Initial(configured), es), more)
                        && AllUnaided(Exec(Initial(configured), es), more)
                        && Exec(Exec(Initial(configured), es), more).stop == Stopped
  {
    hide Apply, Enabled, Legal, Exec, Accounted, Covered, Indexed, Swept;
    StartsWell(configured);
    IndexedAlways(Initial(configured), es);
    SweptIsSafe(Exec(Initial(configured), es));
    var more := DriveToEnd(Exec(Initial(configured), es));
  }

  // ---------- Whatever the ids: exactly when the shutdown can complete ----------

  /** Every map entry leads to a handler that has its key as id, and that has a closed socket or is still
      on the Range's list if it is past its check.  This needs no distinct ids. */
  ghost predicate Enlisted(s: State) {
    forall k | k in s.connections :: EntryOk(s, k, s.connections[k])
  }

  ghost predicate EntryOk(s: State, k: ConnId, h: nat) {
    && h < |s.handlers| && s.handlers[h].pc != Handshaking && s.handlers[h].id == k
    && (PastCheck(s.handlers[h].pc) && s.handlers[h].once != Finished ==> StillToClose(s.stop, h, k))
  }

  lemma EnlistedHandlerStep(s: State, g: nat, act: HandlerAct)
    requires Enlisted(s) && Flags(s) && g < |s.handlers| && HandlerEnabled(s.handlers[g], act)
    ensures Enlisted(HandlerApply(s, g, act))
  {
    var x, y := s.handlers[g], Local(s.handlers[g], s.cancelled, act);
    assert x.pc != Handshaking ==> y.pc != Handshaking && y.id == x.id;
    assert PastCheck(y.pc) && y.once != Finished ==> x.once != Finished && (PastCheck(x.pc) || !s.cancelled);
    assert act.StoreConn? ==> y.pc == CountingUp && y.id == x.id;
    hide Local, HandlerEnabled;
  }

  lemma EnlistedIdleStep(s: State, i: IdleAct)
    requires Enlisted(s) && IdleEnabled(s, i)
    ensures Enlisted(IdleApply(s, i))
  {
  }

  lemma EnlistedStopStep(s: State, t: StopAct)
    requires Enlisted(s) && StopEnabled(s, t)
    ensures Enlisted(StopApply(s, t))
  {
  }

  lemma EnlistedAcceptStep(s: State, a: AcceptAct)
    requires Enlisted(s) && AcceptEnabled(s, a)
    ensures Enlisted(AcceptApply(s, a))
  {
  }

  lemma EnlistedStep(s: State, e: Event)
    requires Enlisted(s) && Accounted(s) && Enabled(s, e)
    ensures Enlisted(Apply(s, e))
  {
    hide Enlisted, HandlerApply, AcceptApply, IdleApply, StopApply, Numbers, Flags, References;
    match e
    case AcceptDo(a) => EnlistedAcceptStep(s, a);
    case HandlerDo(h, act) => EnlistedHandlerStep(s, h, act);
    case IdleDo(i) => EnlistedIdleStep(s, i);
    case StopDo(t) => EnlistedStopStep(s, t);
  }

  lemma {:induction false} EnlistedAlways(s: State, es: seq<Event>)
    requires Enlisted(s) && Accounted(s) && Legal(s, es)
    ensures Enlisted(Exec(s, es)) && Accounted(Exec(s, es))
    decreases |es|
  {
    hide Apply, Enabled, Accounted, Enlisted;
    if es != [] {
      EnlistedStep(s, es[0]);
      AccountedStep(s, es[0]);
      EnlistedAlways(Apply(s, es[0]), es[1..]);
    }
  }

  /** Handler h waits on an open socket that no other actor knows about. */
  predicate Forgotten(s: State, h: nat) {
    && h < |s.handlers| && OpenReader(s.handlers[h])
    && (forall k | k in s.connections :: s.connections[k] != h)
    && !(s.idle.IdleSaw? && s.idle.seen == h) && !(s.idle.IdleClosing? && s.idle.closing == h)
    && s.stop.AwaitingGroup?
  }

  lemma ForgottenHandlerStep(s: State, g: nat, act: HandlerAct, h: nat)
    requires Forgotten(s, h) && Enabled(s, HandlerDo(g, act)) && Unaided(s, HandlerDo(g, act))
    ensures Forgotten(HandlerApply(s, g, act), h)
  {
    if act.StoreConn? { assert g != h; }
  }

  lemma ForgottenStep(s: State, e: Event, h: nat)
    requires Accounted(s) && Forgotten(s, h) && Enabled(s, e) && Unaided(s, e)
    ensures Forgotten(Apply(s, e), h)
  {
    match e
    case AcceptDo(a) =>
    case HandlerDo(g, act) => ForgottenHandlerStep(s, g, act, h);
    case IdleDo(i) =>
    case StopDo(t) => CountZero(s.handlers, Alive);
  }

  /** A forgotten handler keeps Stop waiting for as long as its client neither sends nor hangs up. */
  lemma {:induction false} ForgottenForever(s: State, es: seq<Event>, h: nat)
    requires Accounted(s) && Forgotten(s, h) && Legal(s, es) && AllUnaided(s, es)
    ensures Forgotten(Exec(s, es), h)
    decreases |es|
  {
    hide Apply, Enabled, Accounted, Forgotten, Unaided;
    if es != [] {
      ForgottenStep(s, es[0], h);
      AccountedStep(s, es[0]);
      ForgottenForever(Apply(s, es[0]), es[1..], h);
    }
  }

  lemma ForgottenOrSeen(s: State)
    requires Accounted(s) && Enlisted(s) && s.stop.AwaitingGroup?
    ensures (forall h: nat :: !Forgotten(s, h)) ==> OpenReadersSeen(s)
  {
    forall h: nat | h < |s.handlers| && OpenReader(s.handlers[h]) && !Forgotten(s, h)
      ensures s.idle == IdleSaw(h)
    {
      assert forall k | k in s.connections :: EntryOk(s, k, s.connections[k]);
    }
  }

  /** In every run, colliding ids or not: when Stop waits for the wait group, it can return without help
      from any client if and only if no handler has been forgotten. */
  lemma ShutdownCompletesIff(configured: int, es: seq<Event>)
    requires Legal(Initial(configured), es) && Exec(Initial(configured), es).stop.AwaitingGroup?
    ensures var s := Exec(Initial(configured), es);
      (exists more :: Legal(s, more) && AllUnaided(s, more) && Exec(s, more).stop == Stopped)
        <==> forall h: nat :: !Forgotten(s, h)
  {
    hide Apply, Enabled, Legal, Exec, Accounted, Enlisted, Forgotten, AllUnaided, OpenReadersSeen;
    StartsEnlisted(configured);
    EnlistedAlways(Initial(configured), es);
    var s := Exec(Initial(configured), es);
    ForgottenOrSeen(s);
    if forall h: nat :: !Forgotten(s, h) {
      var more := DriveToEnd(s);
    } else {
      var h: nat :| Forgotten(s, h);
      forall more | Legal(s, more) && AllUnaided(s, more) ensures Exec(s, more).stop != Stopped {
        NeverStops(s, more, h);
      }
    }
  }

  lemma StartsEnlisted(configured: int)
    ensures Accounted(Initial(configured)) && Enlisted(Initial(configured))
  {
  }

  lemma NeverStops(s: State, more: seq<Event>, h: nat)
    requires Accounted(s) && Forgotten(s, h) && Legal(s, more) && AllUnaided(s, more)
    ensures Exec(s, more).stop != Stopped
  {
    hide Legal, Exec, AllUnaided, Accounted;
    ForgottenForever(s, more, h);
  }

  /** A forgotten handler always means that ids collided. */
  lemma ForgottenMeansCollision(configured: int, es: seq<Event>, h: nat)
    requires Legal(Initial(configured), es) && Forgotten(Exec(Initial(configured), es), h)
    ensures !DistinctIds(Initial(configured), es)
  {
    hide Apply, Enabled, Legal, Exec, Accounted, Covered, Indexed;
    if DistinctIds(Initial(configured), es) {
      NobodyStranded(configured, es);
    }
  }

  // ---------- A collision that does strand a connection ----------

  /** One more event at the end of a run that has reached t. */
  lemma Play(s: State, es: seq<Event>, t: State, e: Event) returns (es': seq<Event>, t': State)
    requires Legal(s, es) && Exec(s, es) == t && Enabled(t, e)
    ensures es' == es + [e] && t' == Apply(t, e)
    ensures Legal(s, es') && Exec(s, es') == t'
  {
    hide Apply, Enabled;
    ExecSnoc(s, es, e);
    es', t' := es + [e], Apply(t, e);
  }

  /** Two connections whose clock-derived ids collide, the second stored over the first. */
  function Collided(first: HandlerPc, second: HandlerPc, connections: map<ConnId, nat>, count: int): State {
    Initial(0).(handlers := [Handler(first, 7, Untouched), Handler(second, 7, Untouched)],
                connections := connections, connCount := count, wg := 4)
  }

  lemma AcceptOneMore(es: seq<Event>, t: State) returns (es': seq<Event>, t': State)
    requires Legal(Initial(0), es) && Exec(Initial(0), es) == t
    requires t.accept == Accepting && t.listenerOpen && t.connCount < t.maxConns
    ensures Legal(Initial(0), es') && Exec(Initial(0), es') == t'
    ensures t' == t.(handlers := t.handlers + [Handler(Handshaking, 0, Untouched)], wg := t.wg + 1)
  {
    hide Legal, Exec;
    es', t' := es, t;
    es', t' := Play(Initial(0), es', t', AcceptDo(Accept));
    es', t' := Play(Initial(0), es', t', AcceptDo(LimitCheck));
    es', t' := Play(Initial(0), es', t', AcceptDo(GroupAdd));
    es', t' := Play(Initial(0), es', t', AcceptDo(Spawn));
  }

  lemma CollisionAccepted() returns (es: seq<Event>)
    ensures Legal(Initial(0), es) && Exec(Initial(0), es) == Collided(Storing, Storing, map[], 0)
  {
    var t := Initial(0);
    var x, y := Handler(Handshaking, 0, Untouched), Handler(Storing, 7, Untouched);
    es := [];
    assert Legal(Initial(0), es) && Exec(Initial(0), es) == t;
    hide Legal, Exec;
    es, t := AcceptOneMore(es, t);
    assert t.handlers == [x];
    es, t := AcceptOneMore(es, t);
    assert t.handlers == [x, x];
    es, t := Play(Initial(0), es, t, HandlerDo(0, HandshakeOk(7)));
    assert t.handlers == [y, x];
    es, t := Play(Initial(0), es, t, HandlerDo(1, HandshakeOk(7)));
    assert t.handlers == [y, y];
  }

  /** One of the two handlers takes a step while the server is running. */
  lemma CollidedMoves(es: seq<Event>, x: HandlerPc, y: HandlerPc, m: map<ConnId, nat>, c: int, h: nat, act: HandlerAct)
    returns (es': seq<Event>)
    requires Legal(Initial(0), es) && Exec(Initial(0), es) == Collided(x, y, m, c) && h < 2
    requires act.StoreConn? || act.CountUp? || act.CheckCtx?
    requires HandlerEnabled(Handler(if h == 0 then x else y, 7, Untouched), act)
    ensures var z := Local(Handler(if h == 0 then x else y, 7, Untouched), false, act).pc;
      && Legal(Initial(0), es')
      && Exec(Initial(0), es') == Collided(if h == 0 then z else x, if h == 0 then y else z,
                                           MapAfter(m, h, 7, act), c + One(act.CountUp?))
  {
    hide Legal, Exec, MapAfter;
    var t, e := Collided(x, y, m, c), HandlerDo(h, act);
    CollidedStep(x, y, m, c, h, act);
    hide Apply, Collided;
    var t';
    es', t' := Play(Initial(0), es, t, e);
  }

  lemma CollidedStep(x: HandlerPc, y: HandlerPc, m: map<ConnId, nat>, c: int, h: nat, act: HandlerAct)
    requires h < 2 && (act.StoreConn? || act.CountUp? || act.CheckCtx?)
    requires HandlerEnabled(Handler(if h == 0 then x else y, 7, Untouched), act)
    ensures var t, z := Collided(x, y, m, c), Local(Handler(if h == 0 then x else y, 7, Untouched), false, act).pc;
      && Enabled(t, HandlerDo(h, act))
      && Apply(t, HandlerDo(h, act)) == Collided(if h == 0 then z else x, if h == 0 then y else z,
                                                 MapAfter(m, h, 7, act), c + One(act.CountUp?))
  {
    hide MapAfter;
  }

  lemma CollisionReading() returns (es: seq<Event>)
    ensures Legal(Initial(0), es) && Exec(Initial(0), es) == Collided(Reading, Reading, map[7 := 1], 2)
  {
    hide Legal, Exec, Apply, Collided;
    es := CollisionAccepted();
    es := CollidedMoves(es, Storing, Storing, map[], 0, 0, StoreConn);
    es := CollidedMoves(es, CountingUp, Storing, map[7 := 0], 0, 1, StoreConn);
    assert map[7 := 0][7 := 1] == map[7 := 1];
    es := CollidedMoves(es, CountingUp, CountingUp, map[7 := 1], 0, 0, CountUp);
    es := CollidedMoves(es, Checking, CountingUp, map[7 := 1], 1, 1, CountUp);
    es := CollidedMoves(es, Checking, Checking, map[7 := 1], 2, 0, CheckCtx);
    es := CollidedMoves(es, Reading, Checking, map[7 := 1], 2, 1, CheckCtx);
  }

  /** The collided server while Stop is at work; only the second connection can be found in the map. */
  function CollidedStopping(second: Once, stop: StopPc): State {
    Collided(Reading, Reading, map[7 := 1], 2).(
      handlers := [Handler(Reading, 7, Untouched), Handler(Reading, 7, second)],
      cancelled := true, listenerOpen := false, stop := stop)
  }

  lemma CollisionRanging() returns (es: seq<Event>)
    ensures Legal(Initial(0), es) && Exec(Initial(0), es) == CollidedStopping(Untouched, Ranging({7}))
  {
    var s0 := Initial(0);
    es := CollisionReading();
    hide Legal, Exec;
    var t := Collided(Reading, Reading, map[7 := 1], 2);
    es, t := Play(s0, es, t, StopDo(Cancel));
    es, t := Play(s0, es, t, StopDo(CloseListener));
    es, t := Play(s0, es, t, StopDo(RangeBegin));
    assert t.connections.Keys == {7};
  }

  lemma CollisionClosing() returns (es: seq<Event>)
    ensures Legal(Initial(0), es) && Exec(Initial(0), es) == CollidedStopping(Running, ClosingVisited({}, 1))
  {
    hide Legal, Exec;
    es := CollisionRanging();
    var t := CollidedStopping(Untouched, Ranging({7}));
    assert {7} - {7} == {};
    es, t := Play(Initial(0), es, t, StopDo(RangeVisit(7)));
    assert t == CollidedStopping(Untouched, Visited({}, 1));
    es, t := Play(Initial(0), es, t, StopDo(RangeClose));
    assert t == CollidedStopping(Running, ClosingVisited({}, 1));
  }

  lemma SecondCloses(t: State)
    requires |t.handlers| == 2 && t.handlers[1].once == Running
    ensures Enabled(t, HandlerDo(1, FinishClose))
    ensures Apply(t, HandlerDo(1, FinishClose)) == t.(handlers := [t.handlers[0], t.handlers[1].(once := Finished)])
  {
  }

  lemma CollisionClosed() returns (es: seq<Event>)
    ensures Legal(Initial(0), es) && Exec(Initial(0), es) == CollidedStopping(Finished, ClosingVisited({}, 1))
  {
    hide Legal, Exec, Apply, Enabled, Initial;
    es := CollisionClosing();
    var t := CollidedStopping(Running, ClosingVisited({}, 1));
    SecondCloses(t);
    es, t := Play(Initial(0), es, t, HandlerDo(1, FinishClose));
  }

  lemma CollisionSwept() returns (es: seq<Event>)
    ensures Legal(Initial(0), es) && Exec(Initial(0), es) == CollidedStopping(Finished, AwaitingGroup)
  {
    hide Legal, Exec;
    es := CollisionClosed();
    var t := CollidedStopping(Finished, ClosingVisited({}, 1));
    es, t := Play(Initial(0), es, t, StopDo(RangeNext));
    es, t := Play(Initial(0), es, t, StopDo(RangeEnd));
    assert t == CollidedStopping(Finished, AwaitingGroup);
  }

  /** Two equal ids can do it: a run in which Stop waits for a handler that reads from an open socket, so
      that no server-only continuation lets it return. */
  lemma CollidingIdsStrand() returns (es: seq<Event>)
    ensures Legal(Initial(0), es) && !DistinctIds(Initial(0), es)
    ensures Forgotten(Exec(Initial(0), es), 0)
    ensures forall more | Legal(Exec(Initial(0), es), more) && AllUnaided(Exec(Initial(0), es), more) ::
              Exec(Exec(Initial(0), es), more).stop != Stopped
  {
    hide Apply, Enabled, Legal, Exec, Accounted, AllUnaided;
    es := CollisionSwept();
    ForgottenMeansCollision(0, es, 0);
    ShutdownCompletesIff(0, es);
  }
}
