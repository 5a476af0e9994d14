/**
  The connection limit.  The accept loop compares the counter with the limit before the handshake,
  and the counter is raised only after it, so the limit can be exceeded by the connections that are
  inside that window.  This module proves the bound that does hold, and that it is attained.
*/
module Capacity {
  import opened ServerLifecycle

  /** Connections past the limit check whose increment is still to come, or who fail before it. */
  function Window(s: State): nat {
    Count(s.handlers, Admitted) + One(s.accept == AddingToGroup || s.accept == Spawning)
  }

  predicate WindowWithin(s: State, es: seq<Event>, p: nat)
    requires Legal(s, es)
    decreases |es|
  {
    Window(s) <= p && (es == [] || WindowWithin(Apply(s, es[0]), es[1..], p))
  }

  function Max(x: int, y: int): int { if x > y then x else y }

  ghost predicate Bounded(s: State, p: nat) {
    s.connCount + Window(s) <= Max(0, s.maxConns - 1 + p)
  }

  lemma BoundedHandlerStep(s: State, h: nat, act: HandlerAct, p: nat)
    requires Bounded(s, p) && h < |s.handlers| && HandlerEnabled(s.handlers[h], act)
    ensures Bounded(HandlerApply(s, h, act), p) && HandlerApply(s, h, act).maxConns == s.maxConns
  {
    CountUpdate(s.handlers, h, Local(s.handlers[h], s.cancelled, act), Admitted);
  }

  lemma BoundedAcceptStep(s: State, a: AcceptAct, p: nat)
    requires Bounded(s, p) && AcceptEnabled(s, a) && Window(AcceptApply(s, a)) <= p
    ensures Bounded(AcceptApply(s, a), p) && AcceptApply(s, a).maxConns == s.maxConns
  {
    CountAppend(s.handlers, Handler(Handshaking, 0, Untouched), Admitted);
  }

  lemma BoundedStep(s: State, e: Event, p: nat)
    requires Bounded(s, p) && Enabled(s, e) && Window(Apply(s, e)) <= p
    ensures Bounded(Apply(s, e), p) && Apply(s, e).maxConns == s.maxConns
  {
    hide HandlerApply, AcceptApply, Count;
    match e
    case AcceptDo(a) => BoundedAcceptStep(s, a, p);
    case HandlerDo(h, act) => BoundedHandlerStep(s, h, act, p);
    case IdleDo(i) => if i.IdleClose? { CountBeginClose(s.handlers, s.idle.seen, Admitted); }
    case StopDo(t) => if t.RangeClose? { CountBeginClose(s.handlers, s.stop.target, Admitted); }
  }

  lemma {:induction false} BoundedAlways(s: State, es: seq<Event>, p: nat)
    requires Bounded(s, p) && Legal(s, es) && WindowWithin(s, es, p)
    ensures Bounded(Exec(s, es), p) && Exec(s, es).maxConns == s.maxConns
    decreases |es|
  {
    hide Apply, Enabled, Bounded;
    if es != [] {
      BoundedStep(s, es[0], p);
      BoundedAlways(Apply(s, es[0]), es[1..], p);
    }
  }

  /** If at most p connections are ever inside the window at once, the counter never exceeds the limit minus
      one plus p, the limit being 100 if it is configured as 0; with a negative limit it stays at zero. */
  lemma ConnectionBound(configured: int, es: seq<Event>, p: nat)
    requires Legal(Initial(configured), es) && WindowWithin(Initial(configured), es, p)
    ensures var n, max := Exec(Initial(configured), es).connCount, if configured == 0 then 100 else configured;
      n <= 0 || n <= max - 1 + p
  {
    BoundedAlways(Initial(configured), es, p);
  }

  // ---------- The bound is attained ----------

  function FirstIds(c: nat): map<ConnId, nat> {
    if c == 0 then map[] else FirstIds(c - 1)[c - 1 := c - 1]
  }

  /** c connections served, w connections in their handshake; handler k stores itself under id k. */
  function Filled(configured: int, c: nat, w: nat): State {
    Initial(configured).(
      handlers := seq(c + w, k => if 0 <= k < c then Handler(Checking, k, Untouched) else Handler(Handshaking, 0, Untouched)),
      connections := FirstIds(c),
      connCount := c,
      wg := 2 + c + w)
  }

  lemma {:induction false} WindowAppend(s: State, xs: seq<Event>, ys: seq<Event>, p: nat)
    requires Legal(s, xs) && WindowWithin(s, xs, p)
    requires Legal(Exec(s, xs), ys) && WindowWithin(Exec(s, xs), ys, p)
    ensures Legal(s, xs + ys) && WindowWithin(s, xs + ys, p) && Exec(s, xs + ys) == Exec(Exec(s, xs), ys)
    decreases |xs|
  {
    hide Apply, Enabled, Window;
    ExecAppend(s, xs, ys);
    if xs == [] {
      assert xs + ys == ys;
    } else {
      WindowAppend(Apply(s, xs[0]), xs[1..], ys, p);
      assert (xs + ys)[1..] == xs[1..] + ys;
    }
  }

  /** One more event at the end of a run that has reached t, keeping the window within p. */
  lemma Play(s: State, es: seq<Event>, t: State, e: Event, p: nat) returns (es': seq<Event>, t': State)
    requires Legal(s, es) && WindowWithin(s, es, p) && Exec(s, es) == t && Enabled(t, e) && Window(Apply(t, e)) <= p
    ensures es' == es + [e] && t' == Apply(t, e)
    ensures Legal(s, es') && WindowWithin(s, es', p) && Exec(s, es') == t'
  {
    hide Apply, Enabled, Window;
    es', t' := es + [e], Apply(t, e);
    assert Window(t) <= p by { WindowAtEnd(s, es, p); }
    assert [e][1..] == [];
    assert WindowWithin(t', [], p);
    WindowAppend(s, es, [e], p);
  }

  lemma {:induction false} WindowAtEnd(s: State, es: seq<Event>, p: nat)
    requires Legal(s, es) && WindowWithin(s, es, p)
    ensures Window(Exec(s, es)) <= p
    decreases |es|
  {
    hide Apply, Enabled, Window;
    if es != [] { WindowAtEnd(Apply(s, es[0]), es[1..], p); }
  }

  lemma {:induction false} FilledWindow(configured: int, c: nat, w: nat)
    ensures Count(Filled(configured, c, w).handlers, Admitted) == w
    decreases w, c
  {
    var hs := Filled(configured, c, w).handlers;
    if w > 0 {
      FilledWindow(configured, c, w - 1);
      assert hs == Filled(configured, c, w - 1).handlers + [Handler(Handshaking, 0, Untouched)];
      CountAppend(Filled(configured, c, w - 1).handlers, Handler(Handshaking, 0, Untouched), Admitted);
    } else if c > 0 {
      FilledWindow(configured, c - 1, 0);
      assert hs == Filled(configured, c - 1, 0).handlers + [Handler(Checking, c - 1, Untouched)];
      CountAppend(Filled(configured, c - 1, 0).handlers, Handler(Checking, c - 1, Untouched), Admitted);
    }
  }

  /** Below the limit, one more connection is let into its handshake. */
  lemma AdmitOne(configured: int, es: seq<Event>, c: nat, w: nat, p: nat) returns (es': seq<Event>)
    requires c < EffectiveMax(configured) && w < p
    requires Legal(Initial(configured), es) && WindowWithin(Initial(configured), es, p)
    requires Exec(Initial(configured), es) == Filled(configured, c, w)
    ensures Legal(Initial(configured), es') && WindowWithin(Initial(configured), es', p)
    ensures Exec(Initial(configured), es') == Filled(configured, c, w + 1)
  {
    var s0, f := Initial(configured), Filled(configured, c, w);
    var t := f;
    FilledWindow(configured, c, w);
    FilledWindow(configured, c, w + 1);
    hide Legal, Exec, WindowWithin, Count;
    es' := es;
    es', t := Play(s0, es', t, AcceptDo(Accept), p);
    es', t := Play(s0, es', t, AcceptDo(LimitCheck), p);
    es', t := Play(s0, es', t, AcceptDo(GroupAdd), p);
    assert f.handlers + [Handler(Handshaking, 0, Untouched)] == Filled(configured, c, w + 1).handlers;
    es', t := Play(s0, es', t, AcceptDo(Spawn), p);
    assert t == Filled(configured, c, w + 1);
  }

  /** Filled(c, w) while handler c is on its way from its handshake to being counted. */
  function Promoting(configured: int, c: nat, w: nat, x: Handler): State
    requires w > 0
  {
    var f := Filled(configured, c, w);
    f.(handlers := f.handlers[c := x], connections := if x.pc == CountingUp then FirstIds(c + 1) else FirstIds(c))
  }

  lemma PromotingWindow(configured: int, c: nat, w: nat, x: Handler)
    requires w > 0 && In(Admitted, x.pc)
    ensures Window(Promoting(configured, c, w, x)) == w
  {
    FilledWindow(configured, c, w);
    CountUpdate(Filled(configured, c, w).handlers, c, x, Admitted);
  }

  /** The oldest waiting handshake succeeds and its connection is stored and counted. */
  lemma CountOne(configured: int, es: seq<Event>, c: nat, w: nat, p: nat) returns (es': seq<Event>)
    requires 0 < w <= p
    requires Legal(Initial(configured), es) && WindowWithin(Initial(configured), es, p)
    requires Exec(Initial(configured), es) == Filled(configured, c, w)
    ensures Legal(Initial(configured), es') && WindowWithin(Initial(configured), es', p)
    ensures Exec(Initial(configured), es') == Filled(configured, c + 1, w - 1)
  {
    hide Legal, Exec, WindowWithin, Window, Count;
    var s0 := Initial(configured);
    var t := Filled(configured, c, w);
    var x, y := Handler(Storing, c, Untouched), Handler(CountingUp, c, Untouched);
    es' := es;
    PromotingWindow(configured, c, w, x);
    assert Apply(t, HandlerDo(c, HandshakeOk(c))) == Promoting(configured, c, w, x);
    es', t := Play(s0, es', t, HandlerDo(c, HandshakeOk(c)), p);
    PromotingWindow(configured, c, w, y);
    assert Apply(t, HandlerDo(c, StoreConn)) == Promoting(configured, c, w, y);
    es', t := Play(s0, es', t, HandlerDo(c, StoreConn), p);
    FilledIsWithin(configured, c + 1, w - 1, p);
    assert Apply(t, HandlerDo(c, CountUp)) == Filled(configured, c + 1, w - 1);
    es', t := Play(s0, es', t, HandlerDo(c, CountUp), p);
  }

  lemma FilledIsWithin(configured: int, c: nat, w: nat, p: nat)
    requires w <= p
    ensures Window(Filled(configured, c, w)) <= p
  {
    FilledWindow(configured, c, w);
  }

  lemma {:induction false} FillUp(configured: int, c: nat, w: nat, p: nat) returns (es: seq<Event>)
    requires 1 <= p && w <= p && c < EffectiveMax(configured)
    ensures Legal(Initial(configured), es) && WindowWithin(Initial(configured), es, p)
    ensures Exec(Initial(configured), es) == Filled(configured, c, w)
    decreases c, w
  {
    if w > 0 {
      es := FillUp(configured, c, w - 1, p);
      es := AdmitOne(configured, es, c, w - 1, p);
    } else if c > 0 {
      es := FillUp(configured, c - 1, 1, p);
      es := CountOne(configured, es, c - 1, 1, p);
    } else {
      es := [];
      assert Initial(configured) == Filled(configured, 0, 0);
    }
  }

  lemma {:induction false} CountAll(configured: int, es: seq<Event>, c: nat, w: nat, p: nat) returns (es': seq<Event>)
    requires w <= p
    requires Legal(Initial(configured), es) && WindowWithin(Initial(configured), es, p)
    requires Exec(Initial(configured), es) == Filled(configured, c, w)
    ensures Legal(Initial(configured), es') && WindowWithin(Initial(configured), es', p)
    ensures Exec(Initial(configured), es') == Filled(configured, c + w, 0)
    decreases w
  {
    hide Legal, Exec, WindowWithin;
    if w == 0 {
      es' := es;
    } else {
      es' := CountOne(configured, es, c, w, p);
      es' := CountAll(configured, es', c + 1, w - 1, p);
    }
  }

  /** For every positive limit and every p there is a run with at most p connections in the window whose
      counter reaches maxConns - 1 + p, so the bound cannot be lowered; from p = 2 on it is above the limit. */
  lemma BoundAttained(configured: int, p: nat)
    requires configured >= 0 && p >= 1
    ensures exists es :: Legal(Initial(configured), es)
                      && WindowWithin(Initial(configured), es, p)
                      && Exec(Initial(configured), es).connCount == (if configured == 0 then 100 else configured) - 1 + p
  {
    var c: nat := EffectiveMax(configured) - 1;
    var es := FillUp(configured, c, p, p);
    es := CountAll(configured, es, c, p, p);
  }
}
