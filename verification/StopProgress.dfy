/**
  Stop, from its call to its return: the Range over the map always finds its way to the end.
*/
module StopProgress {
  import opened ServerLifecycle
  import opened Shutdown

  /** Every connection the Range still has to visit is in the map: a deleted one is taken off its list. */
  ghost predicate OnList(s: State) {
    match s.stop
    case Ranging(must) => must <= s.connections.Keys
    case Visited(must, _) => must <= s.connections.Keys
    case ClosingVisited(must, _) => must <= s.connections.Keys
    case _ => true
  }

  lemma OnListStep(s: State, e: Event)
    requires OnList(s) && Enabled(s, e)
    ensures OnList(Apply(s, e))
  {
  }

  /** How far Stop is from its wait: the phase, the entries still to visit, the stage of the visit. */
  function StopPhase(p: StopPc): nat {
    match p
    case NotStopped => 4
    case ClosingListener => 3
    case BeforeRange => 2
    case Ranging(_) => 1
    case Visited(_, _) => 1
    case ClosingVisited(_, _) => 1
    case _ => 0
  }

  function EntriesLeft(p: StopPc): nat {
    if p.Ranging? || p.Visited? || p.ClosingVisited? then |p.must| else 0
  }

  function VisitStage(s: State): nat {
    match s.stop
    case Visited(_, _) => 3
    case ClosingVisited(_, t) => if t < |s.handlers| && s.handlers[t].once == Finished then 1 else 2
    case _ => 0
  }

  predicate Nearer(s: State, s': State) {
    var p, p' := s.stop, s'.stop;
    || StopPhase(p') < StopPhase(p)
    || (StopPhase(p') == StopPhase(p) && EntriesLeft(p') < EntriesLeft(p))
    || (StopPhase(p') == StopPhase(p) && EntriesLeft(p') == EntriesLeft(p) && VisitStage(s') < VisitStage(s))
  }

  /** Until it waits for the wait group, Stop, or the close it waits for, has a step that needs no client. */
  lemma StopAhead(s: State) returns (e: Event)
    requires Accounted(s) && OnList(s) && !Swept(s)
    ensures Enabled(s, e) && Unaided(s, e) && FreshId(s, e) && Nearer(s, Apply(s, e))
  {
    match s.stop
    case NotStopped => e := StopDo(Cancel);
    case ClosingListener => e := StopDo(CloseListener);
    case BeforeRange => e := StopDo(RangeBegin);
    case Ranging(must) =>
      if must == {} {
        e := StopDo(RangeEnd);
      } else {
        var k :| k in must;
        e := StopDo(RangeVisit(k));
        assert must == must - {k} + {k};
      }
    case Visited(_, _) => e := StopDo(RangeClose);
    case ClosingVisited(_, t) =>
      e := if s.handlers[t].once == Finished then StopDo(RangeNext) else HandlerDo(t, FinishClose);
  }

  lemma {:induction false} DriveStop(s: State) returns (es: seq<Event>)
    requires Accounted(s) && Indexed(s) && Covered(s) && OnList(s)
    ensures Legal(s, es) && AllUnaided(s, es)
    ensures Accounted(Exec(s, es)) && Covered(Exec(s, es)) && Swept(Exec(s, es))
    decreases StopPhase(s.stop), EntriesLeft(s.stop), VisitStage(s)
  {
    hide Apply, Enabled, Accounted, Indexed, Covered, OnList, Unaided, FreshId;
    hide StopPhase, EntriesLeft, VisitStage;
    if Swept(s) {
      es := [];
    } else {
      var e := StopAhead(s);
      AccountedStep(s, e);
      IndexedStep(s, e);
      CoveredStep(s, e);
      OnListStep(s, e);
      var rest := DriveStop(Apply(s, e));
      es := [e] + rest;
      assert es[1..] == rest;
    }
  }

  lemma {:induction false} UnaidedAppend(s: State, xs: seq<Event>, ys: seq<Event>)
    requires Legal(s, xs) && AllUnaided(s, xs) && Legal(Exec(s, xs), ys) && AllUnaided(Exec(s, xs), ys)
    ensures Legal(s, xs + ys) && AllUnaided(s, xs + ys) && Exec(s, xs + ys) == Exec(Exec(s, xs), ys)
    decreases |xs|
  {
    hide Apply, Enabled, Unaided;
    ExecAppend(s, xs, ys);
    if xs == [] {
      assert xs + ys == ys;
    } else {
      UnaidedAppend(Apply(s, xs[0]), xs[1..], ys);
      assert (xs + ys)[1..] == xs[1..] + ys;
    }
  }

  lemma {:induction false} OnListAlways(s: State, es: seq<Event>)
    requires OnList(s) && Legal(s, es)
    ensures OnList(Exec(s, es))
    decreases |es|
  {
    hide Apply, Enabled, OnList;
    if es != [] {
      OnListStep(s, es[0]);
      OnListAlways(Apply(s, es[0]), es[1..]);
    }
  }

  /** With distinct ids: at whatever moment Stop is called, and however far it has come, server-only events can
      bring it to its return. */
  lemma StopCompletes(configured: int, es: seq<Event>) returns (more: seq<Event>)
    requires Legal(Initial(configured), es) && DistinctIds(Initial(configured), es)
    ensures var s := Exec(Initial(configured), es);
      Legal(s, more) && AllUnaided(s, more) && Exec(s, more).stop == Stopped
  {
    hide Apply, Enabled, Legal, Exec, Accounted, Covered, Indexed, AllUnaided, OpenReadersSeen;
    var s := Exec(Initial(configured), es);
    StartsWell(configured);
    IndexedAlways(Initial(configured), es);
    OnListAlways(Initial(configured), es);
    var first := DriveStop(s);
    SweptIsSafe(Exec(s, first));
    NoOpenReaders(Exec(s, first));
    var rest := DriveToEnd(Exec(s, first));
    UnaidedAppend(s, first, rest);
    more := first + rest;
  }

  lemma NoOpenReaders(s: State)
    requires forall h | 0 <= h < |s.handlers| && PastCheck(s.handlers[h].pc) :: s.handlers[h].once == Finished
    ensures OpenReadersSeen(s)
  {
  }

  /** The Range comes upon a connection and begins to close it. */
  lemma VisitBegins(s: State, k: ConnId) returns (es: seq<Event>)
    requires s.stop.Ranging? && k in s.connections && s.connections[k] < |s.handlers|
    ensures es == [StopDo(RangeVisit(k)), StopDo(RangeClose)] && Legal(s, es)
    ensures var h := s.connections[k];
      Exec(s, es) == s.(handlers := BeginClose(s.handlers, h), stop := ClosingVisited(s.stop.must - {k}, h))
  {
    var t := s;
    es := [];
    assert Legal(s, es) && Exec(s, es) == t;
    hide Legal, Exec;
    es, t := Play(s, es, t, StopDo(RangeVisit(k)));
    es, t := Play(s, es, t, StopDo(RangeClose));
  }

  /** It closes any connection in the map it comes upon, one stored after the Range began included. */
  lemma VisitCloses(s: State, k: ConnId) returns (es: seq<Event>)
    requires s.stop.Ranging? && k in s.connections && s.connections[k] < |s.handlers|
    ensures Legal(s, es)
    ensures forall i | 0 <= i < |es| :: es[i].StopDo? || es[i] == HandlerDo(s.connections[k], FinishClose)
    ensures var h := s.connections[k];
      Exec(s, es) == s.(handlers := s.handlers[h := s.handlers[h].(once := Finished)], stop := Ranging(s.stop.must - {k}))
  {
    var h := s.connections[k];
    var closed := s.handlers[h := s.handlers[h].(once := Finished)];
    var t := s.(handlers := BeginClose(s.handlers, h), stop := ClosingVisited(s.stop.must - {k}, h));
    hide Legal, Exec;
    es := VisitBegins(s, k);
    if t.handlers[h].once == Running {
      es, t := Play(s, es, t, HandlerDo(h, FinishClose));
    }
    assert t == s.(handlers := closed, stop := ClosingVisited(s.stop.must - {k}, h));
    es, t := Play(s, es, t, StopDo(RangeNext));
  }

  // ---------- The idle checker ----------

  /** Whoever closes a connection goes on only when its socket has been closed. */
  lemma ClosersWait(s: State)
    ensures Enabled(s, IdleDo(IdleNext)) ==> s.handlers[s.idle.closing].once == Finished
    ensures Enabled(s, StopDo(RangeNext)) ==> s.handlers[s.stop.target].once == Finished
  {
  }

  /** One sweep that finds the connection idle, up to the wait for its close. */
  lemma SweepBegins(s: State, k: ConnId) returns (es: seq<Event>)
    requires s.idle == IdleWaiting && k in s.connections && s.connections[k] < |s.handlers|
    ensures es == [IdleDo(IdleTick), IdleDo(IdleVisit(k)), IdleDo(IdleClose)] && Legal(s, es)
    ensures var h := s.connections[k];
      Exec(s, es) == s.(handlers := BeginClose(s.handlers, h), idle := IdleClosing(h))
  {
    var t := s;
    es := [];
    assert Legal(s, es) && Exec(s, es) == t;
    hide Legal, Exec;
    es, t := Play(s, es, t, IdleDo(IdleTick));
    es, t := Play(s, es, t, IdleDo(IdleVisit(k)));
    es, t := Play(s, es, t, IdleDo(IdleClose));
  }

  /** A sweep that finds a connection idle closes it and does nothing else; then the checker waits for its next
      tick.  No cancel is needed. */
  lemma SweepCloses(s: State, k: ConnId) returns (es: seq<Event>)
    requires s.idle == IdleWaiting && k in s.connections && s.connections[k] < |s.handlers|
    ensures Legal(s, es)
    ensures forall i | 0 <= i < |es| :: es[i].IdleDo? || es[i] == HandlerDo(s.connections[k], FinishClose)
    ensures var h := s.connections[k];
      Exec(s, es) == s.(handlers := s.handlers[h := s.handlers[h].(once := Finished)])
  {
    var h := s.connections[k];
    var closed := s.handlers[h := s.handlers[h].(once := Finished)];
    var t := s.(handlers := BeginClose(s.handlers, h), idle := IdleClosing(h));
    hide Legal, Exec;
    es := SweepBegins(s, k);
    if t.handlers[h].once == Running {
      es, t := Play(s, es, t, HandlerDo(h, FinishClose));
    }
    assert t == s.(handlers := closed, idle := IdleClosing(h));
    es, t := Play(s, es, t, IdleDo(IdleNext));
    es, t := Play(s, es, t, IdleDo(IdleRangeEnd));
  }

  /** A sweep that finds it in use changes nothing. */
  lemma SweepPasses(s: State, k: ConnId) returns (es: seq<Event>)
    requires s.idle == IdleWaiting && k in s.connections
    ensures es == [IdleDo(IdleTick), IdleDo(IdleVisit(k)), IdleDo(IdleSkip), IdleDo(IdleRangeEnd)]
    ensures Legal(s, es) && Exec(s, es) == s
  {
    var t := s;
    es := [];
    assert Legal(s, es) && Exec(s, es) == t;
    hide Legal, Exec;
    es, t := Play(s, es, t, IdleDo(IdleTick));
    es, t := Play(s, es, t, IdleDo(IdleVisit(k)));
    es, t := Play(s, es, t, IdleDo(IdleSkip));
    es, t := Play(s, es, t, IdleDo(IdleRangeEnd));
  }
}
