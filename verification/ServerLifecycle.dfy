/**
  The life of the UDS server as a step system.

  The actors are the accept loop, one handler per spawned connection, the idle checker and
  `Stop`.  Every access to shared state (the connection map, the connection counter, the wait
  group, the cancel flag, the listener, a connection's close-once) is one atomic event; any
  interleaving of enabled events is a run.  Blocking calls appear as events that are simply not
  enabled until they can return.
*/
module ServerLifecycle {

  type ConnId = nat

  /** sync.Once around closing: not yet called, body running (channel closed, socket not), body done. */
  datatype Once = Untouched | Running | Finished

  /** Where a handleConn goroutine stands; each name is the action it performs next. */
  datatype HandlerPc =
    | Handshaking
    | Rejecting
    | Storing
    | CountingUp
    | Checking
    | Reading
    | Handling
    | Writing
    | Deleting
    | CountingDown
    | Closing
    | AwaitingClose
    | Finishing
    | Gone

  /** `id` is meaningful once the handshake has succeeded (see HasId). */
  datatype Handler = Handler(pc: HandlerPc, id: ConnId, once: Once)

  datatype AcceptPc = Accepting | AcceptErred | AtLimitCheck | AddingToGroup | Spawning | LeavingAccept | AcceptGone

  datatype IdlePc = IdleWaiting | IdleSweeping | IdleSaw(seen: nat) | IdleClosing(closing: nat) | LeavingIdle | IdleGone

  /** `must` holds the keys present since the Range began and not yet visited. */
  datatype StopPc =
    | NotStopped
    | ClosingListener
    | BeforeRange
    | Ranging(must: set<ConnId>)
    | Visited(must: set<ConnId>, target: nat)
    | ClosingVisited(must: set<ConnId>, target: nat)
    | AwaitingGroup
    | Stopped

  datatype State = State(
    handlers: seq<Handler>,
    connections: map<ConnId, nat>,
    connCount: int,
    maxConns: int,
    wg: int,
    cancelled: bool,
    listenerOpen: bool,
    accept: AcceptPc,
    idle: IdlePc,
    stop: StopPc)

  datatype AcceptAct = Accept | AcceptError | AfterAcceptError | LimitCheck | GroupAdd | Spawn | AcceptDone

  datatype HandlerAct =
    | HandshakeOk(id: ConnId) | HandshakeFail | RejectClose
    | StoreConn | CountUp | CheckCtx
    | ReadOk | ReadFail | HandleReq | WriteOk | WriteFail
    | DeleteConn | CountDown | CloseOwn | CloseReturns | HandlerDone
    | FinishClose  // the second half of the close-once body, whoever runs it

  datatype IdleAct =
    | IdleTick | IdleVisit(k: ConnId) | IdleSkip | IdleClose | IdleNext | IdleRangeEnd | IdleSeesCancel | IdleDone

  datatype StopAct =
    | Cancel | CloseListener | RangeBegin | RangeVisit(k: ConnId) | RangeClose | RangeNext | RangeEnd | WaitReturns

  datatype Event = AcceptDo(a: AcceptAct) | HandlerDo(h: nat, act: HandlerAct) | IdleDo(i: IdleAct) | StopDo(t: StopAct)

  function One(b: bool): nat { if b then 1 else 0 }

  /** A configured limit of 0 means 100. */
  function EffectiveMax(configured: int): int {
    if configured == 0 then 100 else configured
  }

  /** The state `Start` leaves: accept loop and idle checker running, each holding the wait group. */
  function Initial(configured: int): State {
    State([], map[], 0, EffectiveMax(configured), 2, false, true, Accepting, IdleWaiting, NotStopped)
  }

  // ---------- Enabling conditions ----------

  predicate AcceptEnabled(s: State, a: AcceptAct) {
    match a
    case Accept => s.accept == Accepting && s.listenerOpen
    case AcceptError => s.accept == Accepting
    case AfterAcceptError => s.accept == AcceptErred
    case LimitCheck => s.accept == AtLimitCheck
    case GroupAdd => s.accept == AddingToGroup
    case Spawn => s.accept == Spawning
    case AcceptDone => s.accept == LeavingAccept
  }

  predicate HandlerEnabled(x: Handler, act: HandlerAct) {
    match act
    case HandshakeOk(_) => x.pc == Handshaking
    case HandshakeFail => x.pc == Handshaking
    case RejectClose => x.pc == Rejecting
    case StoreConn => x.pc == Storing
    case CountUp => x.pc == CountingUp
    case CheckCtx => x.pc == Checking
    case ReadOk => x.pc == Reading
    case ReadFail => x.pc == Reading
    case HandleReq => x.pc == Handling
    case WriteOk => x.pc == Writing
    case WriteFail => x.pc == Writing
    case DeleteConn => x.pc == Deleting
    case CountDown => x.pc == CountingDown
    case CloseOwn => x.pc == Closing
    case CloseReturns => x.pc == AwaitingClose && x.once == Finished
    case HandlerDone => x.pc == Finishing
    case FinishClose => x.once == Running
  }

  predicate IdleEnabled(s: State, i: IdleAct) {
    match i
    case IdleTick => s.idle == IdleWaiting
    case IdleVisit(k) => s.idle == IdleSweeping && k in s.connections
    case IdleSkip => s.idle.IdleSaw?
    case IdleClose => s.idle.IdleSaw? && s.idle.seen < |s.handlers|
    case IdleNext => s.idle.IdleClosing? && s.idle.closing < |s.handlers| && s.handlers[s.idle.closing].once == Finished
    case IdleRangeEnd => s.idle == IdleSweeping
    case IdleSeesCancel => s.idle == IdleWaiting && s.cancelled
    case IdleDone => s.idle == LeavingIdle
  }

  predicate StopEnabled(s: State, t: StopAct) {
    match t
    case Cancel => s.stop == NotStopped
    case CloseListener => s.stop == ClosingListener
    case RangeBegin => s.stop == BeforeRange
    case RangeVisit(k) => s.stop.Ranging? && k in s.connections
    case RangeClose => s.stop.Visited? && s.stop.target < |s.handlers|
    case RangeNext => s.stop.ClosingVisited? && s.stop.target < |s.handlers| && s.handlers[s.stop.target].once == Finished
    case RangeEnd => s.stop.Ranging? && s.stop.must == {}
    case WaitReturns => s.stop == AwaitingGroup && s.wg == 0
  }

  predicate Enabled(s: State, e: Event) {
    match e
    case AcceptDo(a) => AcceptEnabled(s, a)
    case HandlerDo(h, act) => h < |s.handlers| && HandlerEnabled(s.handlers[h], act)
    case IdleDo(i) => IdleEnabled(s, i)
    case StopDo(t) => StopEnabled(s, t)
  }

  // ---------- Effects ----------

  function AcceptApply(s: State, a: AcceptAct): State {
    match a
    case Accept => s.(accept := AtLimitCheck)
    case AcceptError => s.(accept := AcceptErred)
    case AfterAcceptError => s.(accept := if s.cancelled then LeavingAccept else Accepting)
    case LimitCheck => s.(accept := if s.connCount >= s.maxConns then Accepting else AddingToGroup)
    case GroupAdd => s.(accept := Spawning, wg := s.wg + 1)
    case Spawn => s.(accept := Accepting, handlers := s.handlers + [Handler(Handshaking, 0, Untouched)])
    case AcceptDone => s.(accept := AcceptGone, wg := s.wg - 1)
  }

  /** Entering the close-once body: the first caller closes the channel, later callers only wait. */
  function BeginOnce(o: Once): Once {
    if o == Untouched then Running else o
  }

  /** What the action does to the handler itself. */
  function Local(x: Handler, cancelled: bool, act: HandlerAct): Handler {
    match act
    case HandshakeOk(id) => x.(pc := Storing, id := id)
    case HandshakeFail => x.(pc := Rejecting)
    case RejectClose => x.(pc := Finishing)
    case StoreConn => x.(pc := CountingUp)
    case CountUp => x.(pc := Checking)
    case CheckCtx => x.(pc := if cancelled || x.once != Untouched then Deleting else Reading)
    case ReadOk => x.(pc := Handling)
    case ReadFail => x.(pc := Deleting)
    case HandleReq => x.(pc := Writing)
    case WriteOk => x.(pc := Checking)
    case WriteFail => x.(pc := Deleting)
    case DeleteConn => x.(pc := CountingDown)
    case CountDown => x.(pc := Closing)
    case CloseOwn => x.(pc := AwaitingClose, once := BeginOnce(x.once))
    case CloseReturns => x.(pc := Finishing)
    case HandlerDone => x.(pc := Gone)
    case FinishClose => x.(once := Finished)
  }

  /** Deleting a key takes it out of the set a running Range still has to visit. */
  function Unlist(stop: StopPc, k: ConnId): StopPc {
    match stop
    case Ranging(must) => Ranging(must - {k})
    case Visited(must, t) => Visited(must - {k}, t)
    case ClosingVisited(must, t) => ClosingVisited(must - {k}, t)
    case _ => stop
  }

  function MapAfter(connections: map<ConnId, nat>, h: nat, id: ConnId, act: HandlerAct): map<ConnId, nat> {
    match act
    case StoreConn => connections[id := h]
    case DeleteConn => connections - {id}
    case _ => connections
  }

  /** What the action does to the shared state. */
  function HandlerApply(s: State, h: nat, act: HandlerAct): State
    requires h < |s.handlers|
  {
    var x := s.handlers[h];
    s.(handlers := s.handlers[h := Local(x, s.cancelled, act)],
       connections := MapAfter(s.connections, h, x.id, act),
       connCount := s.connCount + One(act.CountUp?) - One(act.CountDown?),
       wg := s.wg - One(act.HandlerDone?),
       stop := if act.DeleteConn? then Unlist(s.stop, x.id) else s.stop)
  }

  function BeginClose(hs: seq<Handler>, h: nat): seq<Handler>
    requires h < |hs|
  {
    hs[h := hs[h].(once := BeginOnce(hs[h].once))]
  }

  function IdleApply(s: State, i: IdleAct): State
    requires IdleEnabled(s, i)
  {
    match i
    case IdleTick => s.(idle := IdleSweeping)
    case IdleVisit(k) => s.(idle := IdleSaw(s.connections[k]))
    case IdleSkip => s.(idle := IdleSweeping)
    case IdleClose => s.(handlers := BeginClose(s.handlers, s.idle.seen), idle := IdleClosing(s.idle.seen))
    case IdleNext => s.(idle := IdleSweeping)
    case IdleRangeEnd => s.(idle := IdleWaiting)
    case IdleSeesCancel => s.(idle := LeavingIdle)
    case IdleDone => s.(idle := IdleGone, wg := s.wg - 1)
  }

  function StopApply(s: State, t: StopAct): State
    requires StopEnabled(s, t)
  {
    match t
    case Cancel => s.(stop := ClosingListener, cancelled := true)
    case CloseListener => s.(stop := BeforeRange, listenerOpen := false)
    case RangeBegin => s.(stop := Ranging(s.connections.Keys))
    case RangeVisit(k) => s.(stop := Visited(s.stop.must - {k}, s.connections[k]))
    case RangeClose =>
      s.(handlers := BeginClose(s.handlers, s.stop.target), stop := ClosingVisited(s.stop.must, s.stop.target))
    case RangeNext => s.(stop := Ranging(s.stop.must))
    case RangeEnd => s.(stop := AwaitingGroup)
    case WaitReturns => s.(stop := Stopped)
  }

  function Apply(s: State, e: Event): State
    requires Enabled(s, e)
  {
    match e
    case AcceptDo(a) => AcceptApply(s, a)
    case HandlerDo(h, act) => HandlerApply(s, h, act)
    case IdleDo(i) => IdleApply(s, i)
    case StopDo(t) => StopApply(s, t)
  }

  // ---------- Runs ----------

  predicate Legal(s: State, es: seq<Event>)
    decreases |es|
  {
    es == [] || (Enabled(s, es[0]) && Legal(Apply(s, es[0]), es[1..]))
  }

  function Exec(s: State, es: seq<Event>): State
    requires Legal(s, es)
    decreases |es|
  {
    if es == [] then s else Exec(Apply(s, es[0]), es[1..])
  }

  lemma {:induction false} ExecAppend(s: State, xs: seq<Event>, ys: seq<Event>)
    requires Legal(s, xs) && Legal(Exec(s, xs), ys)
    ensures Legal(s, xs + ys) && Exec(s, xs + ys) == Exec(Exec(s, xs), ys)
    decreases |xs|
  {
    hide Apply, Enabled;
    if xs == [] {
      assert xs + ys == ys;
    } else {
      ExecAppend(Apply(s, xs[0]), xs[1..], ys);
      assert (xs + ys)[1..] == xs[1..] + ys;
    }
  }

  /** Appending one event, the form in which concrete runs are built. */
  lemma ExecSnoc(s: State, es: seq<Event>, e: Event)
    requires Legal(s, es) && Enabled(Exec(s, es), e)
    ensures Legal(s, es + [e]) && Exec(s, es + [e]) == Apply(Exec(s, es), e)
  {
    hide Apply, Enabled;
    var t := Apply(Exec(s, es), e);
    assert [e][1..] == [];
    assert Legal(t, []) && Exec(t, []) == t;
    ExecAppend(s, es, [e]);
  }

  // ---------- Counting handlers ----------

  /** The handler populations the invariants count. */
  datatype Group = Alive | Counted | Mapped | BetweenStoreAndCount | BetweenDeleteAndUncount | Admitted

  predicate In(g: Group, pc: HandlerPc) {
    match g
    case Alive => pc != Gone
    case Counted => pc.Checking? || pc.Reading? || pc.Handling? || pc.Writing? || pc.Deleting? || pc.CountingDown?
    case Mapped => pc.CountingUp? || pc.Checking? || pc.Reading? || pc.Handling? || pc.Writing? || pc.Deleting?
    case BetweenStoreAndCount => pc.CountingUp?
    case BetweenDeleteAndUncount => pc.CountingDown?
    case Admitted => pc.Handshaking? || pc.Storing? || pc.CountingUp?
  }

  function Count(hs: seq<Handler>, g: Group): nat {
    if hs == [] then 0 else One(In(g, hs[0].pc)) + Count(hs[1..], g)
  }

  lemma {:induction false} CountUpdate(hs: seq<Handler>, h: nat, x: Handler, g: Group)
    requires h < |hs|
    ensures Count(hs[h := x], g) == Count(hs, g) - One(In(g, hs[h].pc)) + One(In(g, x.pc))
    decreases |hs|
  {
    if h == 0 {
      assert hs[h := x][1..] == hs[1..];
    } else {
      assert hs[h := x][1..] == hs[1..][h - 1 := x];
      CountUpdate(hs[1..], h - 1, x, g);
    }
  }

  lemma {:induction false} CountAppend(hs: seq<Handler>, x: Handler, g: Group)
    ensures Count(hs + [x], g) == Count(hs, g) + One(In(g, x.pc))
    decreases |hs|
  {
    if hs == [] {
      assert [x][1..] == [];
    } else {
      assert (hs + [x])[1..] == hs[1..] + [x];
      CountAppend(hs[1..], x, g);
    }
  }

  lemma {:induction false} CountZero(hs: seq<Handler>, g: Group)
    ensures Count(hs, g) == 0 <==> forall h | 0 <= h < |hs| :: !In(g, hs[h].pc)
    decreases |hs|
  {
    if hs != [] {
      CountZero(hs[1..], g);
      assert forall h | 0 < h < |hs| :: hs[h] == hs[1..][h - 1];
      assert forall h | 0 <= h < |hs[1..]| :: hs[1..][h] == hs[h + 1];
    }
  }

  lemma {:induction false} CountSplit(hs: seq<Handler>)
    ensures Count(hs, Mapped) + Count(hs, BetweenDeleteAndUncount) == Count(hs, Counted) + Count(hs, BetweenStoreAndCount)
    decreases |hs|
  {
    if hs != [] { CountSplit(hs[1..]); }
  }

  lemma CountBeginClose(hs: seq<Handler>, h: nat, g: Group)
    requires h < |hs|
    ensures Count(BeginClose(hs, h), g) == Count(hs, g)
  {
    CountUpdate(hs, h, BeginClose(hs, h)[h], g);
  }

  // ---------- Invariant 1: the counter and the wait group ----------

  ghost predicate Numbers(s: State) {
    && s.connCount == Count(s.handlers, Counted)
    && s.wg == Count(s.handlers, Alive) + One(s.accept != AcceptGone) + One(s.accept == Spawning) + One(s.idle != IdleGone)
    && (s.stop == Stopped ==> s.wg == 0)
  }

  ghost predicate Flags(s: State) {
    && (s.cancelled <==> s.stop != NotStopped)
    && (s.listenerOpen <==> s.stop.NotStopped? || s.stop.ClosingListener?)
    && (s.accept.LeavingAccept? || s.accept.AcceptGone? ==> s.cancelled)
    && (s.idle.LeavingIdle? || s.idle.IdleGone? ==> s.cancelled)
  }

  predicate Begun(hs: seq<Handler>, h: nat) {
    h < |hs| && hs[h].once != Untouched
  }

  /** Every reference to a handler is to a spawned one, and whoever waits for a close has begun it. */
  ghost predicate References(s: State) {
    && (s.idle.IdleSaw? ==> s.idle.seen < |s.handlers|)
    && (s.idle.IdleClosing? ==> Begun(s.handlers, s.idle.closing))
    && (s.stop.Visited? ==> s.stop.target < |s.handlers|)
    && (s.stop.ClosingVisited? ==> Begun(s.handlers, s.stop.target))
    && (forall k | k in s.connections :: s.connections[k] < |s.handlers|)
    && (forall h | 0 <= h < |s.handlers| && s.handlers[h].pc == AwaitingClose :: s.handlers[h].once != Untouched)
  }

  ghost predicate Accounted(s: State) {
    Numbers(s) && Flags(s) && References(s)
  }

  lemma CountLocal(hs: seq<Handler>, h: nat, cancelled: bool, act: HandlerAct)
    requires h < |hs| && HandlerEnabled(hs[h], act)
    ensures var hs' := hs[h := Local(hs[h], cancelled, act)];
      && Count(hs', Alive) == Count(hs, Alive) - One(act.HandlerDone?)
      && Count(hs', Counted) == Count(hs, Counted) + One(act.CountUp?) - One(act.CountDown?)
  {
    CountUpdate(hs, h, Local(hs[h], cancelled, act), Alive);
    CountUpdate(hs, h, Local(hs[h], cancelled, act), Counted);
  }

  lemma NumbersHandlerStep(s: State, h: nat, act: HandlerAct)
    requires Numbers(s) && h < |s.handlers| && HandlerEnabled(s.handlers[h], act)
    ensures Numbers(HandlerApply(s, h, act))
  {
    CountLocal(s.handlers, h, s.cancelled, act);
    CountZero(s.handlers, Alive);
    hide Count, Local, MapAfter;
  }

  /** Replacing one handler by one whose close has begun at least as far keeps all references good. */
  lemma ReferencesUpdate(s: State, h: nat, y: Handler)
    requires References(s) && h < |s.handlers|
    requires s.handlers[h].once != Untouched || y.pc == AwaitingClose ==> y.once != Untouched
    ensures References(s.(handlers := s.handlers[h := y]))
  {
  }

  lemma ReferencesHandlerStep(s: State, h: nat, act: HandlerAct)
    requires References(s) && h < |s.handlers| && HandlerEnabled(s.handlers[h], act)
    ensures References(HandlerApply(s, h, act))
  {
    var x, y := s.handlers[h], Local(s.handlers[h], s.cancelled, act);
    assert x.once != Untouched || y.pc == AwaitingClose ==> y.once != Untouched;
    ReferencesUpdate(s, h, y);
    hide Local, HandlerEnabled, Begun;
  }

  lemma AccountedHandlerStep(s: State, h: nat, act: HandlerAct)
    requires Accounted(s) && h < |s.handlers| && HandlerEnabled(s.handlers[h], act)
    ensures Accounted(HandlerApply(s, h, act))
  {
    NumbersHandlerStep(s, h, act);
    ReferencesHandlerStep(s, h, act);
    hide Numbers, References, Local, HandlerEnabled;
  }

  lemma AccountedAcceptStep(s: State, a: AcceptAct)
    requires Accounted(s) && AcceptEnabled(s, a)
    ensures Accounted(AcceptApply(s, a))
  {
    CountAppend(s.handlers, Handler(Handshaking, 0, Untouched), Alive);
    CountAppend(s.handlers, Handler(Handshaking, 0, Untouched), Counted);
  }

  lemma AccountedIdleStep(s: State, i: IdleAct)
    requires Accounted(s) && IdleEnabled(s, i)
    ensures Accounted(IdleApply(s, i))
  {
    if i.IdleClose? {
      CountBeginClose(s.handlers, s.idle.seen, Alive);
      CountBeginClose(s.handlers, s.idle.seen, Counted);
    }
  }

  lemma AccountedStopStep(s: State, t: StopAct)
    requires Accounted(s) && StopEnabled(s, t)
    ensures Accounted(StopApply(s, t))
  {
    if t.RangeClose? {
      CountBeginClose(s.handlers, s.stop.target, Alive);
      CountBeginClose(s.handlers, s.stop.target, Counted);
    }
  }

  lemma AccountedStep(s: State, e: Event)
    requires Accounted(s) && Enabled(s, e)
    ensures Accounted(Apply(s, e))
  {
    hide Accounted;
    match e
    case AcceptDo(a) => AccountedAcceptStep(s, a);
    case HandlerDo(h, act) => AccountedHandlerStep(s, h, act);
    case IdleDo(i) => AccountedIdleStep(s, i);
    case StopDo(t) => AccountedStopStep(s, t);
  }

  lemma {:induction false} AccountedAlways(s: State, es: seq<Event>)
    requires Accounted(s) && Legal(s, es)
    ensures Accounted(Exec(s, es))
    decreases |es|
  {
    hide Apply, Enabled, Accounted;
    if es != [] {
      AccountedStep(s, es[0]);
      AccountedAlways(Apply(s, es[0]), es[1..]);
    }
  }

  /** From Start on, in every interleaving: the counter counts exactly the handlers between their
      increment and their decrement, it is never negative, wg.Add never runs with the wait group at
      zero, and once wg.Wait has returned no handler is left and the counter is zero. */
  lemma ConnectionAccounting(configured: int, es: seq<Event>)
    requires Legal(Initial(configured), es)
    ensures var s := Exec(Initial(configured), es);
      && s.connCount == Count(s.handlers, Counted) >= 0
      && (Enabled(s, AcceptDo(GroupAdd)) ==> s.wg > 0)
      && (s.stop == Stopped ==>
          && s.connCount == 0 && s.wg == 0
          && s.accept == AcceptGone && s.idle == IdleGone
          && forall h | 0 <= h < |s.handlers| :: s.handlers[h].pc == Gone)
  {
    AccountedAlways(Initial(configured), es);
    var s := Exec(Initial(configured), es);
    if s.stop == Stopped {
      CountZero(s.handlers, Alive);
      CountZero(s.handlers, Counted);
    }
  }

  // ---------- Invariant 2: the connection map, under distinct ids ----------

  /** Between the successful handshake and the Delete: the handlers whose id matters. */
  predicate HasId(pc: HandlerPc) {
    pc.Storing? || In(Mapped, pc)
  }

  /** The clock-derived id of a new connection differs from those of the handlers that have one and have
      not yet deleted their key. */
  predicate FreshId(s: State, e: Event) {
    e.HandlerDo? && e.act.HandshakeOk? ==>
      forall g | 0 <= g < |s.handlers| && HasId(s.handlers[g].pc) :: s.handlers[g].id != e.act.id
  }

  predicate DistinctIds(s: State, es: seq<Event>)
    requires Legal(s, es)
    decreases |es|
  {
    es == [] || (FreshId(s, es[0]) && DistinctIds(Apply(s, es[0]), es[1..]))
  }

  /** The handler has been through its ctx check and has not come back to it. */
  predicate PastCheck(pc: HandlerPc) {
    pc.Reading? || pc.Handling? || pc.Writing?
  }

  /** `Stop` still has to deal with this handler's connection, or has not begun its Range. */
  predicate StillToClose(stop: StopPc, h: nat, id: ConnId) {
    match stop
    case Ranging(must) => id in must
    case Visited(must, t) => id in must || t == h
    case ClosingVisited(must, t) => id in must || t == h
    case AwaitingGroup => false
    case Stopped => false
    case _ => true
  }

  ghost predicate UniqueIds(hs: seq<Handler>) {
    forall g, h | 0 <= g < |hs| && 0 <= h < |hs| && HasId(hs[g].pc) && HasId(hs[h].pc) && hs[g].id == hs[h].id :: g == h
  }

  ghost predicate Listed(hs: seq<Handler>, connections: map<ConnId, nat>) {
    forall h | 0 <= h < |hs| && In(Mapped, hs[h].pc) :: hs[h].id in connections && connections[hs[h].id] == h
  }

  ghost predicate Backed(hs: seq<Handler>, connections: map<ConnId, nat>) {
    forall k | k in connections ::
      && connections[k] < |hs|
      && In(Mapped, hs[connections[k]].pc)
      && hs[connections[k]].id == k
  }

  /** The connection map is exactly the handlers between their Store and their Delete, under their ids. */
  ghost predicate Indexed(s: State) {
    && UniqueIds(s.handlers)
    && Listed(s.handlers, s.connections)
    && Backed(s.handlers, s.connections)
    && |s.connections| == Count(s.handlers, Mapped)
  }

  /** The ordering argument behind Stop: a handler past its check either has its socket closed or is
      still on the list of connections the Range will close. */
  ghost predicate Covered(s: State) {
    forall h | 0 <= h < |s.handlers| && PastCheck(s.handlers[h].pc) && s.handlers[h].once != Finished ::
      StillToClose(s.stop, h, s.handlers[h].id)
  }

  lemma UniqueIdsStep(s: State, h: nat, act: HandlerAct)
    requires UniqueIds(s.handlers) && h < |s.handlers| && HandlerEnabled(s.handlers[h], act)
    requires FreshId(s, HandlerDo(h, act))
    ensures UniqueIds(HandlerApply(s, h, act).handlers)
  {
    var y := Local(s.handlers[h], s.cancelled, act);
    assert HasId(y.pc) && !act.HandshakeOk? ==> HasId(s.handlers[h].pc) && y.id == s.handlers[h].id;
  }

  lemma StoreIsNewKey(s: State, h: nat)
    requires Indexed(s) && h < |s.handlers| && s.handlers[h].pc == Storing
    ensures s.handlers[h].id !in s.connections
  {
    if s.handlers[h].id in s.connections {
      var g := s.connections[s.handlers[h].id];
      assert HasId(s.handlers[g].pc) && HasId(s.handlers[h].pc);
      assert false;
    }
  }

  lemma ListedStore(hs: seq<Handler>, connections: map<ConnId, nat>, h: nat, y: Handler)
    requires Listed(hs, connections) && Backed(hs, connections) && h < |hs|
    requires hs[h].pc == Storing && y == hs[h].(pc := CountingUp) && hs[h].id !in connections
    ensures Listed(hs[h := y], connections[y.id := h]) && Backed(hs[h := y], connections[y.id := h])
  {
  }

  lemma StoreStep(s: State, h: nat)
    requires Indexed(s) && h < |s.handlers| && s.handlers[h].pc == Storing
    ensures Indexed(HandlerApply(s, h, StoreConn))
  {
    hide Listed, Backed, UniqueIds, Count;
    var t := HandlerApply(s, h, StoreConn);
    UniqueIdsStep(s, h, StoreConn);
    StoreIsNewKey(s, h);
    ListedStore(s.handlers, s.connections, h, t.handlers[h]);
    CountUpdate(s.handlers, h, t.handlers[h], Mapped);
    assert t.connections.Keys == s.connections.Keys + {s.handlers[h].id};
  }

  lemma ListedDelete(hs: seq<Handler>, connections: map<ConnId, nat>, h: nat, y: Handler)
    requires Listed(hs, connections) && Backed(hs, connections) && UniqueIds(hs) && h < |hs|
    requires hs[h].pc == Deleting && y == hs[h].(pc := CountingDown)
    ensures hs[h].id in connections
    ensures Listed(hs[h := y], connections - {y.id}) && Backed(hs[h := y], connections - {y.id})
  {
  }

  lemma DeleteStep(s: State, h: nat)
    requires Indexed(s) && h < |s.handlers| && s.handlers[h].pc == Deleting
    ensures Indexed(HandlerApply(s, h, DeleteConn))
  {
    hide Listed, Backed, UniqueIds, Count;
    var t := HandlerApply(s, h, DeleteConn);
    UniqueIdsStep(s, h, DeleteConn);
    ListedDelete(s.handlers, s.connections, h, t.handlers[h]);
    CountUpdate(s.handlers, h, t.handlers[h], Mapped);
    assert t.connections.Keys == s.connections.Keys - {s.handlers[h].id};
    assert |t.connections.Keys| == |s.connections.Keys| - 1;
  }

  lemma LocalKeepsPlace(x: Handler, cancelled: bool, act: HandlerAct)
    requires HandlerEnabled(x, act) && !act.StoreConn? && !act.DeleteConn?
    ensures var y := Local(x, cancelled, act);
      In(Mapped, y.pc) == In(Mapped, x.pc) && (In(Mapped, x.pc) ==> y.id == x.id)
  {
  }

  lemma ListedUpdate(hs: seq<Handler>, connections: map<ConnId, nat>, h: nat, y: Handler)
    requires Listed(hs, connections) && Backed(hs, connections) && h < |hs|
    requires In(Mapped, y.pc) == In(Mapped, hs[h].pc) && (In(Mapped, y.pc) ==> y.id == hs[h].id)
    ensures Listed(hs[h := y], connections) && Backed(hs[h := y], connections)
  {
    hide In;
  }

  /** The other actions touch neither the map nor the handlers it lists. */
  lemma ListedMove(s: State, h: nat, act: HandlerAct)
    requires Listed(s.handlers, s.connections) && Backed(s.handlers, s.connections)
    requires h < |s.handlers| && HandlerEnabled(s.handlers[h], act) && !act.StoreConn? && !act.DeleteConn?
    ensures var t := HandlerApply(s, h, act);
      && t.connections == s.connections && Listed(t.handlers, t.connections) && Backed(t.handlers, t.connections)
      && In(Mapped, t.handlers[h].pc) == In(Mapped, s.handlers[h].pc)
  {
    hide In, Listed, Backed, Local, HandlerEnabled;
    LocalKeepsPlace(s.handlers[h], s.cancelled, act);
    ListedUpdate(s.handlers, s.connections, h, Local(s.handlers[h], s.cancelled, act));
  }

  lemma IndexedHandlerStep(s: State, h: nat, act: HandlerAct)
    requires Indexed(s) && h < |s.handlers| && HandlerEnabled(s.handlers[h], act)
    requires FreshId(s, HandlerDo(h, act))
    ensures Indexed(HandlerApply(s, h, act))
  {
    hide In, Listed, Backed, UniqueIds, Count, Local, FreshId;
    if act.StoreConn? {
      StoreStep(s, h);
    } else if act.DeleteConn? {
      DeleteStep(s, h);
    } else {
      ListedMove(s, h, act);
      UniqueIdsStep(s, h, act);
      CountUpdate(s.handlers, h, Local(s.handlers[h], s.cancelled, act), Mapped);
    }
  }

  lemma IndexedAcceptStep(s: State, a: AcceptAct)
    requires Indexed(s) && AcceptEnabled(s, a)
    ensures Indexed(AcceptApply(s, a))
  {
    CountAppend(s.handlers, Handler(Handshaking, 0, Untouched), Mapped);
  }

  lemma IndexedBeginClose(s: State, h: nat)
    requires Indexed(s) && h < |s.handlers|
    ensures Indexed(s.(handlers := BeginClose(s.handlers, h)))
  {
    CountBeginClose(s.handlers, h, Mapped);
  }

  lemma IndexedIdleStep(s: State, i: IdleAct)
    requires Indexed(s) && IdleEnabled(s, i)
    ensures Indexed(IdleApply(s, i))
  {
    if i.IdleClose? { IndexedBeginClose(s, s.idle.seen); }
  }

  lemma IndexedStopStep(s: State, t: StopAct)
    requires Indexed(s) && StopEnabled(s, t)
    ensures Indexed(StopApply(s, t))
  {
    if t.RangeClose? { IndexedBeginClose(s, s.stop.target); }
  }

  lemma IndexedStep(s: State, e: Event)
    requires Indexed(s) && Enabled(s, e) && FreshId(s, e)
    ensures Indexed(Apply(s, e))
  {
    hide Indexed, HandlerApply, AcceptApply;
    match e
    case AcceptDo(a) => IndexedAcceptStep(s, a);
    case HandlerDo(h, act) => IndexedHandlerStep(s, h, act);
    case IdleDo(i) => IndexedIdleStep(s, i);
    case StopDo(t) => IndexedStopStep(s, t);
  }

  lemma CoveredHandlerStep(s: State, h: nat, act: HandlerAct)
    requires Covered(s) && UniqueIds(s.handlers) && Flags(s) && h < |s.handlers| && HandlerEnabled(s.handlers[h], act)
    ensures Covered(HandlerApply(s, h, act))
  {
    var x, y := s.handlers[h], Local(s.handlers[h], s.cancelled, act);
    assert PastCheck(y.pc) && y.once != Finished ==>
      y.id == x.id && x.once != Finished && (PastCheck(x.pc) || !s.cancelled);
    assert act.DeleteConn? ==> x.pc.Deleting? && y.pc.CountingDown?;
    hide Local, HandlerEnabled, MapAfter;
  }

  lemma CoveredIdleStep(s: State, i: IdleAct)
    requires Covered(s) && IdleEnabled(s, i)
    ensures Covered(IdleApply(s, i))
  {
  }

  lemma CoveredStopStep(s: State, t: StopAct)
    requires Covered(s) && Listed(s.handlers, s.connections) && Flags(s) && StopEnabled(s, t)
    ensures Covered(StopApply(s, t))
  {
    hide Count;
  }

  lemma CoveredStep(s: State, e: Event)
    requires Covered(s) && Indexed(s) && Accounted(s) && Enabled(s, e)
    ensures Covered(Apply(s, e))
  {
    hide UniqueIds, Listed, Backed, Numbers, Flags, References, HandlerApply, StopApply, IdleApply;
    match e
    case AcceptDo(a) => CoveredAcceptStep(s, a);
    case HandlerDo(h, act) => CoveredHandlerStep(s, h, act);
    case IdleDo(i) => CoveredIdleStep(s, i);
    case StopDo(t) => CoveredStopStep(s, t);
  }

  lemma CoveredAcceptStep(s: State, a: AcceptAct)
    requires Covered(s) && AcceptEnabled(s, a)
    ensures Covered(AcceptApply(s, a))
  {
  }

  lemma {:induction false} IndexedAlways(s: State, es: seq<Event>)
    requires Accounted(s) && Indexed(s) && Covered(s) && Legal(s, es) && DistinctIds(s, es)
    ensures Accounted(Exec(s, es)) && Indexed(Exec(s, es)) && Covered(Exec(s, es))
    decreases |es|
  {
    hide Apply, Enabled, Accounted, Indexed, Covered, FreshId;
    if es != [] {
      AccountedStep(s, es[0]);
      IndexedStep(s, es[0]);
      CoveredStep(s, es[0]);
      IndexedAlways(Apply(s, es[0]), es[1..]);
    }
  }

  lemma StartsWell(configured: int)
    ensures Accounted(Initial(configured)) && Indexed(Initial(configured)) && Covered(Initial(configured))
  {
  }

  /** The map and the counter differ only by handlers inside the two one-step windows, and the map is
      empty once Stop has returned. */
  lemma MapMatchesCounter(configured: int, es: seq<Event>)
    requires Legal(Initial(configured), es) && DistinctIds(Initial(configured), es)
    ensures var s := Exec(Initial(configured), es);
      && |s.connections| == s.connCount + Count(s.handlers, BetweenStoreAndCount) - Count(s.handlers, BetweenDeleteAndUncount)
      && (s.stop == Stopped ==> s.connections == map[])
  {
    IndexedAlways(Initial(configured), es);
    var s := Exec(Initial(configured), es);
    CountSplit(s.handlers);
    if s.stop == Stopped {
      ConnectionAccounting(configured, es);
      CountZero(s.handlers, Mapped);
      assert s.connections == map[];
    }
  }
}
