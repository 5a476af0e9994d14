/**
  The calls on the concurrent user store that fail.  A call is turned down when it meets a claim or a missing
  record; what it meets may be a claim that is later rolled back, or one whose owner has not yet taken
  effect.  Then no sequential store would have turned it down at that point, so the store as a whole is
  not linearizable, even with one writer per user at a time.
*/
module UserStoreRefusals {
  import opened Bytes
  import opened UserTable
  import opened UserStoreConcurrent
  import opened UserStoreEmails
  import opened UserStoreSerial

  /** The call's next step turns it down. */
  predicate Refused(s: Store, c: Call) {
    match c
    case CreateCall(u, _, cpc) => (cpc == ClaimName && u.username in s.byUsername) || (cpc == ClaimEmail && u.email in s.byEmail)
    case WriteCall(op, pc, _) =>
      (pc == Load && !Live(s.users, Target(op))) || (pc == ClaimNewEmail && op.Update? && op.u.email in s.byEmail)
  }

  /** The error it returns. */
  function Refusal(c: Call): Err {
    if c.WriteCall? && c.pc == Load then UserNotFound else UserAlreadyExists
  }

  /** What the call meets belongs to the sequential store t: the owner of the username, the owner of the
      email under that email, or the missing record. */
  predicate Met(s: Store, t: Store, c: Call)
    requires Refused(s, c)
  {
    match c
    case CreateCall(u, _, cpc) =>
      if cpc == ClaimName then s.byUsername[u.username] in t.users else Has(t, s.byEmail[u.email], u.email)
    case WriteCall(op, pc, _) =>
      if pc == Load then !Live(t.users, Target(op)) else Has(t, s.byEmail[op.u.email], op.u.email)
  }

  /** Or, for a Create turned down over its username, its email is taken there. */
  ghost predicate Explained(s: Store, t: Store, c: Call)
    requires Refused(s, c)
  {
    Met(s, t, c) || (c.CreateCall? && c.cpc == ClaimName && EmailTaken(t.users, c.u.email))
  }

  lemma NameTakenIff(s: State, t: Store, x: string)
    requires NamesSafe(s) && Shadows(s, t) && x in s.store.byUsername
    ensures UsernameTaken(t.users, x) <==> s.store.byUsername[x] in t.users
  {
    var owner := s.store.byUsername[x];
    assert NameOwner(s, x, owner) && NotYetStored(s) && NamesIndexed(s.store);
    hide NamesSafe, Agree, InWindow;
    forall id | id in t.users ensures t.users[id].username == s.store.users[id].username { SameUsernames(s, t, id); }
    if owner in t.users { assert t.users[owner].username == x; }
  }

  lemma MailTakenIff(s: State, t: Store, x: string)
    requires Shadows(s, t) && x in s.store.byEmail
    ensures EmailTaken(t.users, x) <==> Has(t, s.store.byEmail[x], x)
  {
    forall id | id in t.users && t.users[id].email == x ensures id == s.store.byEmail[x] {
      assert Entry(s.store, t.users[id].email, id);
    }
  }

  lemma NewcomerUnknown(s: State, t: Store, i: nat)
    requires NamesSafe(s) && Shadows(s, t) && i < |s.calls| && s.calls[i].CreateCall? && !Done(s.calls[i])
    ensures KeepsIds(t, OpOf(s.calls[i])) && s.calls[i].u.id !in t.users
  {
  }

  lemma RefusedCreate(s: State, t: Store, i: nat)
    requires InStep(s, t) && i < |s.calls| && s.calls[i].CreateCall? && Refused(s.store, s.calls[i])
    ensures Effect(t, OpOf(s.calls[i])).1 ==
            if Explained(s.store, t, s.calls[i]) then Some(UserAlreadyExists) else None
  {
    var c := s.calls[i];
    NewcomerUnknown(s, t, i);
    StepRefines(t, OpOf(c));
    if c.cpc == ClaimName {
      NameTakenIff(s, t, c.u.username);
    } else {
      assert ClaimsName(c, c.u.username, c.u.id) && s.store.byUsername[c.u.username] == c.u.id;
      NameTakenIff(s, t, c.u.username);
      MailTakenIff(s, t, c.u.email);
    }
  }

  lemma RefusedLoad(s: State, t: Store, i: nat)
    requires InStep(s, t) && i < |s.calls| && s.calls[i].WriteCall? && s.calls[i].pc == Load
    ensures Live(t.users, UserOf(s.calls[i])) <==> Live(s.store.users, UserOf(s.calls[i]))
  {
    var id := UserOf(s.calls[i]);
    forall j: nat | j < |s.calls| && Dropped(s.calls[j]) ensures UserOf(s.calls[j]) != id {
      assert Holding(s.calls[j]);
      OtherUser(s, i, j);
    }
    hide NamesSafe, MailSafe, Writers, Agree;
    assert !InWindow(s, id);
  }

  lemma RefusedWrite(s: State, t: Store, i: nat)
    requires InStep(s, t) && i < |s.calls| && s.calls[i].WriteCall? && Refused(s.store, s.calls[i])
    ensures Effect(t, OpOf(s.calls[i])).1 ==
            if Explained(s.store, t, s.calls[i]) then Some(Refusal(s.calls[i])) else None
    ensures s.calls[i].pc == Load ==> Explained(s.store, t, s.calls[i])
  {
    var c := s.calls[i];
    assert OnlyWriters(s) && !c.op.Create?;
    if c.pc == Load {
      RefusedLoad(s, t, i);
    } else {
      assert CallMail(s.store, c) && SeenStored(s.store, c) && Working(s.store, c);
      MeShadowBefore(s, t, i);
      StepRefines(t, c.op);
      MailTakenIff(s, t, c.op.u.email);
    }
  }

  /** A refused call fails on the sequential store too, with the same error, if and only if what it met
      belongs to that store, or it is a Create whose email is taken there; a missing record always is
      missing there. */
  lemma RefusedAgreesIff(s: State, t: Store, i: nat)
    requires InStep(s, t) && i < |s.calls| && Refused(s.store, s.calls[i])
    ensures Effect(t, OpOf(s.calls[i])).1 ==
            if Explained(s.store, t, s.calls[i]) then Some(Refusal(s.calls[i])) else None
    ensures s.calls[i].WriteCall? && s.calls[i].pc == Load ==> Explained(s.store, t, s.calls[i])
  {
    hide InStep, Explained, Effect, Refused;
    if s.calls[i].CreateCall? { RefusedCreate(s, t, i); } else { RefusedWrite(s, t, i); }
  }

  // ---------- Whole runs, failing calls included ----------

  /** The operation a step decides, and how. */
  function Decided(s: State, e: Event): seq<Op> {
    if e.Step? && e.i < |s.calls| && Refused(s.store, s.calls[e.i]) then [OpOf(s.calls[e.i])] else Effective(s, e)
  }

  function Outcome(s: State, e: Event): seq<Option<Err>> {
    if e.Step? && e.i < |s.calls| && Refused(s.store, s.calls[e.i]) then [Some(Refusal(s.calls[e.i]))]
    else if Effective(s, e) != [] then [None]
    else []
  }

  function FullOrder(s: State, es: seq<Event>): seq<Op>
    requires Legal(s, es)
    decreases |es|
  {
    if es == [] then [] else Decided(s, es[0]) + FullOrder(Apply(s, es[0]), es[1..])
  }

  function Outcomes(s: State, es: seq<Event>): seq<Option<Err>>
    requires Legal(s, es)
    decreases |es|
  {
    if es == [] then [] else Outcome(s, es[0]) + Outcomes(Apply(s, es[0]), es[1..])
  }

  ghost predicate StepExplained(s: State, t: Store, e: Event) {
    e.Step? && e.i < |s.calls| && Refused(s.store, s.calls[e.i]) ==> Explained(s.store, t, s.calls[e.i])
  }

  ghost predicate AllExplained(s: State, t: Store, es: seq<Event>)
    requires Legal(s, es)
    decreases |es|
  {
    es == [] ||
    (StepExplained(s, t, es[0]) && AllExplained(Apply(s, es[0]), Run(t, Effective(s, es[0])), es[1..]))
  }

  /** A step that decides a call: on the sequential store the same result, exactly if it is explained. */
  lemma DecidedStep(s: State, t: Store, e: Event)
    requires InStep(s, t) && Enabled(s, e)
    ensures StepExplained(s, t, e) ==>
            Results(t, Decided(s, e)) == Outcome(s, e) && Run(t, Decided(s, e)) == Run(t, Effective(s, e))
    ensures !StepExplained(s, t, e) ==> |Decided(s, e)| == |Outcome(s, e)| == 1 && Outcome(s, e)[0] != Effect(t, Decided(s, e)[0]).1
  {
    hide InStep, Effect, Explained;
    if e.Step? && Refused(s.store, s.calls[e.i]) {
      var op := OpOf(s.calls[e.i]);
      RefusedAgreesIff(s, t, e.i);
      RunOne(t, op);
      RefusedHasNoEffect(s.store, s.calls[e.i]);
      if Effect(t, op).1 != None { FailureChangesNothing(t, op); }
      NothingRun(t);
    } else {
      EffectiveSucceeds(s, t, e);
    }
  }

  lemma RefusedHasNoEffect(s: Store, c: Call)
    requires Refused(s, c)
    ensures !TakesEffect(c)
  {
  }

  lemma EffectiveSucceeds(s: State, t: Store, e: Event)
    requires InStep(s, t) && Enabled(s, e)
    ensures Results(t, Effective(s, e)) == if Effective(s, e) == [] then [] else [None]
  {
    ShadowStep(s, t, e);
    hide InStep, NamesSafe, MailSafe, Writers, Shadows;
    if Effective(s, e) != [] {
      RunOne(t, Effective(s, e)[0]);
      assert Results(t, Effective(s, e))[0] in Results(t, Effective(s, e));
    }
  }

  lemma FirstDiffers(t: Store, op: Op, rest: seq<Op>, r: Option<Err>, later: seq<Option<Err>>)
    requires Effect(t, op).1 != r
    ensures Results(t, [op] + rest) != [r] + later
  {
    assert Results(t, [op] + rest)[0] == Effect(t, op).1;
  }

  lemma SamePart(a: seq<Option<Err>>, b: seq<Option<Err>>, c: seq<Option<Err>>)
    ensures a + b == a + c <==> b == c
  {
    if a + b == a + c { assert b == (a + b)[|a|..] == (a + c)[|a|..] == c; }
  }

  /** In every interleaving with fresh ids and one writer per user at a time: run one after the other in the
      order in which they were decided, all calls return what they returned, the failing ones included, if
      and only if every refusal met something that belonged to the sequential store. */
  lemma {:induction false} ReplaysIff(s: State, t: Store, es: seq<Event>)
    requires InStep(s, t) && Legal(s, es) && FreshIds(s, es) && OneWriterEach(s, es)
    ensures Results(t, FullOrder(s, es)) == Outcomes(s, es) <==> AllExplained(s, t, es)
    decreases |es|
  {
    hide Apply, Enabled, InStep, FreshId, OneWriter, Effective, Decided, Outcome, StepExplained, Effect, Results, Run;
    if es == [] {
      NothingRun(t);
    } else {
      var e, s', t' := es[0], Apply(s, es[0]), Run(t, Effective(s, es[0]));
      var first, rest := Decided(s, e), FullOrder(s', es[1..]);
      DecidedStep(s, t, e);
      InStepKept(s, t, e);
      if StepExplained(s, t, e) {
        RunAppend(t, first, rest);
        ReplaysIff(s', t', es[1..]);
        SamePart(Outcome(s, e), Results(t', rest), Outcomes(s', es[1..]));
      } else {
        assert first == [first[0]] && Outcome(s, e) == [Outcome(s, e)[0]];
        FirstDiffers(t, first[0], rest, Outcome(s, e)[0], Outcomes(s', es[1..]));
      }
    }
  }

  // ---------- A refusal that no order explains ----------

  const CLAIMER := Create(Person("3", "bob", "a"), 3)
  const REFUSED := Create(Person("4", "bob", "c"), 4)

  /** The calls of the run below, and what they return in it: only Ann is stored. */
  predicate AsReturned(t: Store, ops: seq<Op>)
    decreases |ops|
  {
    ops == [] || ((Effect(t, ops[0]).1 == None <==> ops[0] == Create(ANN, 0)) && AsReturned(Effect(t, ops[0]).0, ops[1..]))
  }

  /** In no order, and however often each is made, do Ann's Create, CLAIMER and REFUSED return what they
      return in that run. */
  lemma {:induction false} NoOrderExplains(t: Store, ops: seq<Op>)
    requires "bob" !in t.byUsername && "c" !in t.byEmail
    requires forall i | 0 <= i < |ops| :: ops[i] == Create(ANN, 0) || ops[i] == CLAIMER || ops[i] == REFUSED
    requires REFUSED in ops
    ensures !AsReturned(t, ops)
    decreases |ops|
  {
    if ops[0] != REFUSED {
      assert REFUSED in ops[1..];
      var t' := Effect(t, ops[0]).0;
      if Effect(t, ops[0]).1 != None { FailureChangesNothing(t, ops[0]); }
      if ops[0] == CLAIMER && Effect(t, ops[0]).1 == None {
        assert ops[0] != Create(ANN, 0);
      } else {
        NoOrderExplains(t', ops[1..]);
      }
    }
  }

  predicate CreatesOnly(es: seq<Event>) {
    forall i | 0 <= i < |es| && es[i].Start? :: es[i].op.Create?
  }

  lemma {:induction false} CreatesAreOneWriter(s: State, es: seq<Event>)
    requires Legal(s, es) && CreatesOnly(es)
    ensures OneWriterEach(s, es)
    decreases |es|
  {
    hide Apply, Enabled;
    if es != [] {
      assert CreatesOnly(es[1..]);
      CreatesAreOneWriter(Apply(s, es[0]), es[1..]);
    }
  }

  /** One more step of a run of Creates. */
  lemma PlayCreate(es: seq<Event>, t: State, e: Event) returns (es': seq<Event>, t': State)
    requires Reaches(es, t) && CreatesOnly(es) && Enabled(t, e) && FreshId(t, e) && (e.Start? ==> e.op.Create?)
    ensures t' == Apply(t, e) && Reaches(es', t') && CreatesOnly(es')
  {
    hide Reaches, Enabled, FreshId, Apply;
    es', t' := Play(es, t, e);
  }

  function AnnsStore(): Store {
    Store(map["1" := Stamp(ANN, 0)], map["ann" := "1"], map["a" := "1"])
  }

  lemma AnnCreated() returns (es: seq<Event>, t: State)
    ensures Reaches(es, t) && CreatesOnly(es)
    ensures t.calls == [CreateCall(ANN, 0, CreateDone(true))] && t.store == AnnsStore()
  {
    es, t := [], INITIAL;
    assert Reaches(es, t);
    hide Reaches;
    es, t := PlayCreate(es, t, Start(Create(ANN, 0)));
    es, t := PlayCreate(es, t, Step(0));
    es, t := PlayCreate(es, t, Step(0));
    es, t := PlayCreate(es, t, Step(0));
  }

  /** CLAIMER has claimed the username "bob", and REFUSED is turned down over it. */
  lemma ClaimMet() returns (es: seq<Event>, t: State)
    ensures Reaches(es, t) && CreatesOnly(es)
    ensures t.calls == [CreateCall(ANN, 0, CreateDone(true)), CreateCall(CLAIMER.u, 3, ClaimEmail),
                        CreateCall(REFUSED.u, 4, CreateDone(false))]
    ensures t.store == AnnsStore().(byUsername := map["ann" := "1", "bob" := "3"])
  {
    es, t := AnnCreated();
    hide Reaches;
    es, t := PlayCreate(es, t, Start(CLAIMER));
    es, t := PlayCreate(es, t, Step(1));
    assert t.store.byUsername == map["ann" := "1", "bob" := "3"];
    es, t := PlayCreate(es, t, Start(REFUSED));
    es, t := PlayCreate(es, t, Step(2));
  }

  /** Without any Update or Delete there is a run with fresh ids in which two Creates of one username both
      fail although nobody has it: what the calls return fits no sequential order of them. */
  lemma RefusedForNothing() returns (es: seq<Event>)
    ensures Legal(INITIAL, es) && FreshIds(INITIAL, es) && OneWriterEach(INITIAL, es) && Quiescent(Exec(INITIAL, es))
    ensures var s := Exec(INITIAL, es);
      && |s.calls| == 3
      && OpOf(s.calls[0]) == Create(ANN, 0) && OpOf(s.calls[1]) == CLAIMER && OpOf(s.calls[2]) == REFUSED
      && Succeeded(s.calls[0]) && !Succeeded(s.calls[1]) && !Succeeded(s.calls[2])
      && Effect(s.store, REFUSED).1 == None
    ensures forall ops: seq<Op> | multiset(ops) == multiset{Create(ANN, 0), CLAIMER, REFUSED} :: !AsReturned(EMPTY, ops)
  {
    var t;
    es, t := ClaimMet();
    es, t := PlayCreate(es, t, Step(1));
    es, t := PlayCreate(es, t, Step(1));
    assert t.store.byUsername.Keys == {"ann"} && t.store.byEmail.Keys == {"a"};
    CreatesAreOneWriter(INITIAL, es);
    hide Legal, Exec, FreshIds, AsReturned;
    forall ops: seq<Op> | multiset(ops) == multiset{Create(ANN, 0), CLAIMER, REFUSED} ensures !AsReturned(EMPTY, ops) {
      forall i | 0 <= i < |ops| ensures ops[i] == Create(ANN, 0) || ops[i] == CLAIMER || ops[i] == REFUSED {
        assert ops[i] in multiset(ops);
      }
      assert REFUSED in multiset(ops);
      NoOrderExplains(EMPTY, ops);
    }
  }
}
