/**
  When no two writers of one user overlap, the successful calls on the concurrent user store serialize.  A
  Create takes effect when it publishes, an Update that moves an email when it drops the old one, any other
  writer when it publishes; run one after the other in this order, the calls all succeed again and leave the
  same three maps.  This says nothing of the calls that fail (UserStoreRefusals) and nothing of lookups.
*/
module UserStoreSerial {
  import opened Bytes
  import opened UserTable
  import opened UserStoreConcurrent
  import opened UserStoreEmails

  /** No Update or Delete of a user starts while another of the same user is in flight. */
  predicate OneWriter(s: State, e: Event) {
    e.Start? && !e.op.Create? ==>
      forall j | 0 <= j < |s.calls| && s.calls[j].WriteCall? && !Done(s.calls[j]) :: UserOf(s.calls[j]) != Target(e.op)
  }

  predicate OneWriterEach(s: State, es: seq<Event>)
    requires Legal(s, es)
    decreases |es|
  {
    es == [] || (OneWriter(s, es[0]) && OneWriterEach(Apply(s, es[0]), es[1..]))
  }

  ghost predicate UniqueWriters(s: State) {
    forall j, k | 0 <= j < |s.calls| && 0 <= k < |s.calls| && s.calls[j].WriteCall? && s.calls[k].WriteCall?
      && !Done(s.calls[j]) && !Done(s.calls[k]) && UserOf(s.calls[j]) == UserOf(s.calls[k]) :: j == k
  }

  /** What a writer has loaded is still what is stored, and live. */
  predicate SeenStored(s: Store, c: Call) {
    Holding(c) ==> Live(s.users, UserOf(c)) && s.users[UserOf(c)] == c.seen
  }

  ghost predicate Writers(s: State) {
    UniqueWriters(s) && forall j | 0 <= j < |s.calls| :: SeenStored(s.store, s.calls[j])
  }

  lemma WriterStep(s: Store, c: Call)
    requires !Done(c)
    ensures var (s', c') := CallStep(s, c); UserOf(c') == UserOf(c) && (c'.WriteCall? <==> c.WriteCall?)
  {
  }

  lemma UniqueWritersStep(s: State, i: nat)
    requires UniqueWriters(s) && i < |s.calls| && !Done(s.calls[i])
    ensures UniqueWriters(Apply(s, Step(i)))
  {
    hide CallStep, UserOf;
    WriterStep(s.store, s.calls[i]);
  }

  lemma OwnSeenStored(s: Store, c: Call)
    requires !Done(c) && SeenStored(s, c)
    ensures var (s', c') := CallStep(s, c); SeenStored(s', c')
    ensures var s' := CallStep(s, c).0; forall id | id in s.users && id != UserOf(c) :: id in s'.users && s'.users[id] == s.users[id]
  {
  }

  lemma SeenStoredStep(s: State, i: nat)
    requires Writers(s) && NamesSafe(s) && i < |s.calls| && !Done(s.calls[i])
    ensures forall j | 0 <= j < |s.calls| :: SeenStored(Apply(s, Step(i)).store, Apply(s, Step(i)).calls[j])
  {
    var s' := Apply(s, Step(i));
    OwnSeenStored(s.store, s.calls[i]);
    forall j | 0 <= j < |s.calls| && j != i ensures SeenStored(s'.store, s.calls[j]) {
      if Holding(s.calls[j]) { OtherUser(s, i, j); }
    }
  }

  /** While a writer holds a copy, no other call in flight works for the same user. */
  lemma OtherUser(s: State, i: nat, j: nat)
    requires Writers(s) && NamesSafe(s) && i < |s.calls| && j < |s.calls| && i != j && !Done(s.calls[i]) && Holding(s.calls[j])
    ensures UserOf(s.calls[j]) != UserOf(s.calls[i])
  {
    assert SeenStored(s.store, s.calls[j]);
    assert NotYetStored(s);
    hide NamesSafe, CallStep;
  }

  lemma WritersStep(s: State, e: Event)
    requires Writers(s) && NamesSafe(s) && Enabled(s, e) && OneWriter(s, e)
    ensures Writers(Apply(s, e))
  {
    hide NamesSafe, CallStep;
    match e
    case Start(op) =>
      assert forall j | 0 <= j < |s.calls| :: Apply(s, e).calls[j] == s.calls[j];
    case Step(i) =>
      UniqueWritersStep(s, i);
      SeenStoredStep(s, i);
  }

  lemma OneWriterIsApart(s: State, e: Event)
    requires Writers(s) && Enabled(s, e)
    ensures LoadsApart(s, e)
  {
  }

  // ---------- The order in which calls take effect ----------

  function OpOf(c: Call): Op {
    match c
    case CreateCall(u, now, _) => Create(u, now)
    case WriteCall(op, _, _) => op
  }

  /** The call's next step is the one at which it takes effect. */
  predicate TakesEffect(c: Call) {
    match c
    case CreateCall(_, _, cpc) => cpc == PublishNew
    case WriteCall(op, pc, seen) => pc == DropOldEmail || (pc == Publish && !MovesEmail(op, seen))
  }

  function Effective(s: State, e: Event): seq<Op> {
    if e.Step? && e.i < |s.calls| && TakesEffect(s.calls[e.i]) then [OpOf(s.calls[e.i])] else []
  }

  function Order(s: State, es: seq<Event>): seq<Op>
    requires Legal(s, es)
    decreases |es|
  {
    if es == [] then [] else Effective(s, es[0]) + Order(Apply(s, es[0]), es[1..])
  }

  // ---------- The sequential store beside the concurrent one ----------

  /** t is the store after the calls that have taken effect, run one after the other: it holds the stored
      records, but those in their window already as they will be published. */
  ghost predicate Shadows(s: State, t: Store) {
    && Agree(t) && t.users.Keys == s.store.users.Keys
    && (forall id | id in s.store.users && !InWindow(s, id) :: t.users[id] == s.store.users[id])
    && (forall j | 0 <= j < |s.calls| && Dropped(s.calls[j]) && UserOf(s.calls[j]) in t.users ::
          t.users[UserOf(s.calls[j])] == Written(s.calls[j].op, s.calls[j].seen))
    && (forall id | id in t.users :: Entry(s.store, t.users[id].email, id))
  }

  /** The same for the one user of a call that is the only one to count for it. */
  predicate MeShadow(s: Store, c: Call, t: Store) {
    var me := UserOf(c);
    && (me in t.users <==> me in s.users)
    && (me in s.users ==>
          && t.users[me] == (if Dropped(c) then Written(c.op, c.seen) else s.users[me])
          && Entry(s, t.users[me].email, me))
  }

  /** Nobody else has the names the call is to bring into the table. */
  ghost predicate NamesFree(t: Store, c: Call) {
    match c
    case CreateCall(u, _, cpc) => cpc == PublishNew ==> !UsernameTaken(t.users, u.username) && !EmailTaken(t.users, u.email)
    case WriteCall(op, pc, _) => pc == DropOldEmail && op.Update? ==> !EmailTaken(t.users, op.u.email)
  }

  function After(t: Store, c: Call): Store {
    if TakesEffect(c) then Effect(t, OpOf(c)).0 else t
  }

  /** A call that takes effect succeeds on the sequential store, and touches no other user there. */
  lemma EffectSucceeds(s: Store, c: Call, t: Store)
    requires Working(s, c) && CallMail(s, c) && SeenStored(s, c) && MeShadow(s, c, t) && NamesFree(t, c) && Agree(t)
    requires TakesEffect(c)
    ensures Effect(t, OpOf(c)).1 == None && Agree(After(t, c)) && KeepsIds(t, OpOf(c))
    ensures After(t, c).users ==
      t.users[UserOf(c) := Written(OpOf(c), if UserOf(c) in t.users then t.users[UserOf(c)] else Stamp(NOTHING, 0))]
  {
    hide Agree, UsernameTaken, EmailTaken;
    assert KeepsIds(t, OpOf(c));
    StepRefines(t, OpOf(c));
  }

  lemma OwnShadow(s: Store, c: Call, t: Store)
    requires Working(s, c) && CallMail(s, c) && SeenStored(s, c) && MeShadow(s, c, t) && NamesFree(t, c) && Agree(t)
    requires Consistent(s, c)
    ensures var (s', c') := CallStep(s, c); MeShadow(s', c', After(t, c)) && Agree(After(t, c))
    ensures OthersShadowed(t, After(t, c), UserOf(c))
    ensures TakesEffect(c) ==> Effect(t, OpOf(c)).1 == None && KeepsIds(t, OpOf(c))
  {
    hide Agree, UsernameTaken, EmailTaken, Effect, Consistent, NamesFree;
    if TakesEffect(c) { EffectSucceeds(s, c, t); }
  }

  lemma SameUsernames(s: State, t: Store, id: string)
    requires NamesSafe(s) && Shadows(s, t) && id in t.users
    ensures t.users[id].username == s.store.users[id].username
  {
    hide Agree, NamesIndexed, ClaimsHeld, NotYetStored, NamesOwned, DistinctCreates;
    if InWindow(s, id) {
      var j :| 0 <= j < |s.calls| && Dropped(s.calls[j]) && UserOf(s.calls[j]) == id;
      assert Holding(s.calls[j]) && SameNames(s.store.users[id], s.calls[j].seen);
    }
  }

  lemma MeShadowBefore(s: State, t: Store, i: nat)
    requires NamesSafe(s) && MailSafe(s) && Shadows(s, t) && i < |s.calls| && Working(s.store, s.calls[i])
    ensures MeShadow(s.store, s.calls[i], t)
  {
    hide NamesSafe, MoversAlone, CallsMail, MailIndexed, MailOwned, Agree, Working, UserOf, Dropped;
    var c, me := s.calls[i], UserOf(s.calls[i]);
    forall j: nat | j < |s.calls| && j != i && UserOf(s.calls[j]) == me ensures !Dropped(s.calls[j]) {
      OnlyOneFor(s, i, j);
    }
  }

  lemma CreateNamesFree(s: State, t: Store, i: nat)
    requires NamesSafe(s) && CallsMail(s) && Shadows(s, t) && i < |s.calls|
    requires s.calls[i].CreateCall? && s.calls[i].cpc == PublishNew
    ensures NamesFree(t, s.calls[i])
  {
    var u := s.calls[i].u;
    assert CallMail(s.store, s.calls[i]) && Entry(s.store, u.email, u.id);
    assert ClaimsName(s.calls[i], u.username, u.id) && s.store.byUsername[u.username] == u.id;
    assert u.id !in s.store.users;
    forall id | id in t.users ensures t.users[id].username != u.username && t.users[id].email != u.email {
      SameUsernames(s, t, id);
      assert Entry(s.store, t.users[id].email, id);
      assert s.store.byUsername[s.store.users[id].username] == id;
    }
  }

  lemma NamesFreeBefore(s: State, t: Store, i: nat)
    requires NamesSafe(s) && MailSafe(s) && Shadows(s, t) && i < |s.calls| && Working(s.store, s.calls[i])
    ensures NamesFree(t, s.calls[i])
  {
    var c := s.calls[i];
    MeShadowBefore(s, t, i);
    assert CallMail(s.store, c);
    hide NamesSafe, Agree, InWindow;
    if c.CreateCall? {
      if c.cpc == PublishNew { CreateNamesFree(s, t, i); }
    } else if c.pc == DropOldEmail {
      forall id | id in t.users ensures t.users[id].email != c.op.u.email {
        assert Entry(s.store, t.users[id].email, id);
      }
    }
  }

  ghost predicate OthersShadowed(t: Store, t': Store, me: string) {
    && (forall id | id != me :: id in t'.users <==> id in t.users)
    && (forall id | id != me && id in t.users :: t'.users[id] == t.users[id])
  }

  lemma RecordsShadowed(s: State, t: Store, i: nat, s': State, t': Store, id: string)
    requires Shadows(s, t) && i < |s.calls| && SameOthers(s, s', i) && id in s'.store.users && !InWindow(s', id)
    requires SameBut(s.store, s'.store, UserOf(s.calls[i])) && MeShadow(s'.store, s'.calls[i], t')
    requires UserOf(s'.calls[i]) == UserOf(s.calls[i]) && OthersShadowed(t, t', UserOf(s.calls[i]))
    ensures id in t'.users && t'.users[id] == s'.store.users[id]
  {
    hide Agree, UserOf, Dropped, Written, Entry;
    if id == UserOf(s.calls[i]) {
      assert !Dropped(s'.calls[i]);
    } else if InWindow(s, id) {
      InWindowKept(s, s', i, id);
    }
  }

  lemma EntriesShadowed(s: State, t: Store, i: nat, s': State, t': Store, id: string)
    requires Shadows(s, t) && i < |s.calls| && SameOthers(s, s', i) && id in t'.users
    requires SameBut(s.store, s'.store, UserOf(s.calls[i])) && MeShadow(s'.store, s'.calls[i], t')
    requires UserOf(s'.calls[i]) == UserOf(s.calls[i]) && OthersShadowed(t, t', UserOf(s.calls[i]))
    ensures id in s'.store.users && Entry(s'.store, t'.users[id].email, id)
  {
    hide Agree, UserOf, Dropped, Written, InWindow;
    if id != UserOf(s.calls[i]) { assert Entry(s.store, t.users[id].email, id); }
  }

  lemma ShadowAfter(s: State, t: Store, i: nat, s': State, t': Store)
    requires Shadows(s, t) && i < |s.calls| && SameOthers(s, s', i) && UserOf(s'.calls[i]) == UserOf(s.calls[i])
    requires SameBut(s.store, s'.store, UserOf(s.calls[i])) && MeShadow(s'.store, s'.calls[i], t') && Agree(t')
    requires OthersShadowed(t, t', UserOf(s.calls[i]))
    requires forall j | 0 <= j < |s.calls| && j != i && UserOf(s.calls[j]) == UserOf(s.calls[i]) :: !Dropped(s.calls[j])
    ensures Shadows(s', t')
  {
    hide Agree, UserOf, Dropped, Written, InWindow, Entry;
    forall id | id in s'.store.users && !InWindow(s', id) ensures id in t'.users && t'.users[id] == s'.store.users[id] {
      RecordsShadowed(s, t, i, s', t', id);
    }
    forall id | id in t'.users ensures Entry(s'.store, t'.users[id].email, id) {
      EntriesShadowed(s, t, i, s', t', id);
    }
  }

  lemma WorkingShadowStep(s: State, t: Store, i: nat)
    requires NamesSafe(s) && MailSafe(s) && Writers(s) && Shadows(s, t)
    requires i < |s.calls| && !Done(s.calls[i]) && Working(s.store, s.calls[i])
    ensures Shadows(Apply(s, Step(i)), After(t, s.calls[i]))
    ensures TakesEffect(s.calls[i]) ==> Effect(t, OpOf(s.calls[i])).1 == None && KeepsIds(t, OpOf(s.calls[i]))
  {
    var s', c := Apply(s, Step(i)), s.calls[i];
    assert SameOthers(s, s', i) && CallMail(s.store, c) && SeenStored(s.store, c);
    hide CallStep, CallMail, Consistent, NamesFree, MeShadow, SameBut, Agree, Effect, After, NamesSafe, KeepsIds;
    ConsistentBefore(s, i);
    MeShadowBefore(s, t, i);
    NamesFreeBefore(s, t, i);
    OwnStep(s.store, c);
    OwnShadow(s.store, c, t);
    forall j: nat | j < |s.calls| && j != i && UserOf(s.calls[j]) == UserOf(c) ensures !Dropped(s.calls[j]) {
      OnlyOneFor(s, i, j);
    }
    ShadowAfter(s, t, i, s', After(t, c));
  }

  lemma IdleShadowStep(s: State, t: Store, s': State)
    requires Shadows(s, t) && s'.store == s.store && |s'.calls| >= |s.calls|
    requires forall j | 0 <= j < |s.calls| && Dropped(s.calls[j]) :: s'.calls[j] == s.calls[j]
    requires forall j | 0 <= j < |s'.calls| && Dropped(s'.calls[j]) ::
               (j < |s.calls| && s.calls[j] == s'.calls[j]) ||
               (UserOf(s'.calls[j]) in t.users ==> t.users[UserOf(s'.calls[j])] == Written(s'.calls[j].op, s'.calls[j].seen))
    ensures Shadows(s', t)
  {
    hide Agree, Dropped, UserOf, Written;
    forall id | InWindow(s, id) ensures InWindow(s', id) {
      var j :| 0 <= j < |s.calls| && Dropped(s.calls[j]) && UserOf(s.calls[j]) == id;
      assert Dropped(s'.calls[j]);
    }
  }

  lemma ShadowStep(s: State, t: Store, e: Event)
    requires NamesSafe(s) && MailSafe(s) && Writers(s) && Shadows(s, t) && Enabled(s, e)
    ensures Shadows(Apply(s, e), Run(t, Effective(s, e)))
    ensures NoReuse(t, Effective(s, e)) && forall r | r in Results(t, Effective(s, e)) :: r == None
  {
    hide Shadows, MailSafe, Writers, CallStep;
    match e
    case Start(op) =>
      IdleShadowStep(s, t, Apply(s, e));
    case Step(i) =>
      WorkingOrLoading(s, i);
      hide NamesSafe;
      if Working(s.store, s.calls[i]) {
        WorkingShadowStep(s, t, i);
        if TakesEffect(s.calls[i]) { RunOne(t, OpOf(s.calls[i])); }
      } else {
        LoadsOnly(s.store, s.calls[i]);
        IdleShadowStep(s, t, Apply(s, e));
      }
  }

  lemma LoadsOnly(s: Store, c: Call)
    requires c.WriteCall? && c.pc == Load
    ensures CallStep(s, c).0 == s && !Dropped(c) && !Dropped(CallStep(s, c).1)
  {
  }

  lemma RunOne(t: Store, op: Op)
    ensures Run(t, [op]) == Effect(t, op).0 && Results(t, [op]) == [Effect(t, op).1]
    ensures NoReuse(t, [op]) <==> KeepsIds(t, op)
  {
    assert [op][1..] == [];
    assert Run(Effect(t, op).0, []) == Effect(t, op).0 && Results(Effect(t, op).0, []) == [];
    assert NoReuse(Effect(t, op).0, []);
  }

  // ---------- Which calls have taken effect ----------

  /** The call has taken effect: it has succeeded, or it has dropped the old email and only has to publish. */
  predicate Committed(c: Call) {
    Succeeded(c) || Dropped(c)
  }

  function CommittedOps(calls: seq<Call>): multiset<Op> {
    if calls == [] then multiset{}
    else CommittedOps(calls[1..]) + if Committed(calls[0]) then multiset{OpOf(calls[0])} else multiset{}
  }

  lemma {:induction false} CommittedUpdate(calls: seq<Call>, i: nat, c: Call)
    requires i < |calls| && OpOf(c) == OpOf(calls[i]) && (Committed(calls[i]) ==> Committed(c))
    ensures CommittedOps(calls[i := c]) ==
      CommittedOps(calls) + if Committed(c) && !Committed(calls[i]) then multiset{OpOf(c)} else multiset{}
    decreases |calls|
  {
    hide Committed, OpOf;
    if i == 0 {
      assert calls[i := c][1..] == calls[1..];
    } else {
      assert calls[i := c][1..] == calls[1..][i - 1 := c];
      CommittedUpdate(calls[1..], i - 1, c);
    }
  }

  lemma {:induction false} CommittedAppend(calls: seq<Call>, c: Call)
    requires !Committed(c)
    ensures CommittedOps(calls + [c]) == CommittedOps(calls)
    decreases |calls|
  {
    hide Committed, OpOf;
    if calls == [] {
      assert [c][1..] == [];
    } else {
      assert (calls + [c])[1..] == calls[1..] + [c];
      CommittedAppend(calls[1..], c);
    }
  }

  /** A call becomes committed at exactly the step at which it takes effect. */
  lemma CommitsOnce(s: Store, c: Call)
    requires !Done(c) && SeenStored(s, c) && (c.WriteCall? ==> !c.op.Create?)
    requires Holding(c) && c.pc != Publish ==> MovesEmail(c.op, c.seen)
    ensures var c' := CallStep(s, c).1; OpOf(c') == OpOf(c) && (Committed(c') <==> Committed(c) || TakesEffect(c))
    ensures TakesEffect(c) ==> !Committed(c)
  {
  }

  lemma CommittedStep(s: State, e: Event)
    requires NamesSafe(s) && MailSafe(s) && Writers(s) && Enabled(s, e)
    ensures CommittedOps(Apply(s, e).calls) == CommittedOps(s.calls) + multiset(Effective(s, e))
  {
    hide CallStep, Committed, OpOf, MoversAlone, MailIndexed, MailOwned, UniqueWriters;
    match e
    case Start(op) => StartsUncommitted(op); CommittedAppend(s.calls, CallOf(op));
    case Step(i) =>
      assert CallMail(s.store, s.calls[i]) && SeenStored(s.store, s.calls[i]);
      CommitsOnce(s.store, s.calls[i]);
      CommittedUpdate(s.calls, i, CallStep(s.store, s.calls[i]).1);
  }

  lemma StartsUncommitted(op: Op)
    ensures !Committed(CallOf(op))
  {
  }

  // ---------- Runs ----------

  /** The concurrent store s and the sequential store t belong together. */
  ghost predicate InStep(s: State, t: Store) {
    NamesSafe(s) && MailSafe(s) && Writers(s) && Shadows(s, t)
  }

  lemma InStepKept(s: State, t: Store, e: Event)
    requires InStep(s, t) && Enabled(s, e) && FreshId(s, e) && OneWriter(s, e)
    ensures InStep(Apply(s, e), Run(t, Effective(s, e)))
  {
    hide NamesSafe, MailSafe, Writers, Shadows, Apply, FreshId, OneWriter, LoadsApart;
    NamesStep(s, e);
    OneWriterIsApart(s, e);
    MailStep(s, e);
    WritersStep(s, e);
    ShadowStep(s, t, e);
  }

  lemma {:induction false} InStepAlways(s: State, t: Store, es: seq<Event>)
    requires InStep(s, t) && Legal(s, es) && FreshIds(s, es) && OneWriterEach(s, es)
    ensures InStep(Exec(s, es), Run(t, Order(s, es)))
    ensures NoReuse(t, Order(s, es)) && forall r | r in Results(t, Order(s, es)) :: r == None
    ensures CommittedOps(Exec(s, es).calls) == CommittedOps(s.calls) + multiset(Order(s, es))
    ensures MovesApart(s, es)
    decreases |es|
  {
    hide Apply, Enabled, NamesSafe, MailSafe, Writers, Shadows, FreshId, OneWriter, LoadsApart, Effective;
    hide NoReuse, Results, CommittedOps, Run;
    if es == [] {
      NothingRun(t);
    } else {
      var first, rest := Effective(s, es[0]), Order(Apply(s, es[0]), es[1..]);
      OneWriterIsApart(s, es[0]);
      ShadowStep(s, t, es[0]);
      CommittedStep(s, es[0]);
      InStepKept(s, t, es[0]);
      InStepAlways(Apply(s, es[0]), Run(t, first), es[1..]);
      RunAppend(t, first, rest);
    }
  }

  lemma NothingRun(t: Store)
    ensures Run(t, []) == t && NoReuse(t, []) && Results(t, []) == []
  {
  }

  lemma StartsInStep()
    ensures InStep(INITIAL, EMPTY) && CommittedOps(INITIAL.calls) == multiset{}
  {
    StartsSafe();
  }

  lemma InverseUnique(column: map<string, string>, idx: map<string, string>, idx': map<string, string>)
    requires Inverse(column, idx) && Inverse(column, idx')
    ensures idx == idx'
  {
    forall x | x in idx ensures x in idx' && idx'[x] == idx[x] { assert column[idx[x]] == x; }
    forall x | x in idx' ensures x in idx { assert column[idx'[x]] == x; }
  }

  lemma RestsOn(s: State, t: Store)
    requires Shadows(s, t) && Quiescent(s)
    requires Inverse(Usernames(s.store.users), s.store.byUsername) && Inverse(Emails(s.store.users), s.store.byEmail)
    ensures t == s.store
  {
    hide Inverse;
    forall id | id in s.store.users ensures !InWindow(s, id) {
      assert forall j | 0 <= j < |s.calls| :: !Dropped(s.calls[j]);
    }
    assert t.users == s.store.users;
    InverseUnique(Usernames(t.users), t.byUsername, s.store.byUsername);
    InverseUnique(Emails(t.users), t.byEmail, s.store.byEmail);
  }

  /** The operations of the calls that succeeded. */
  function SuccessfulOps(calls: seq<Call>): multiset<Op> {
    if calls == [] then multiset{}
    else SuccessfulOps(calls[1..]) + if Succeeded(calls[0]) then multiset{OpOf(calls[0])} else multiset{}
  }

  lemma {:induction false} RestCommitted(calls: seq<Call>)
    requires forall j | 0 <= j < |calls| :: Done(calls[j])
    ensures CommittedOps(calls) == SuccessfulOps(calls)
    decreases |calls|
  {
    if calls != [] {
      RestCommitted(calls[1..]);
      assert Done(calls[0]) && !Dropped(calls[0]);
    }
  }

  /** In every interleaving with fresh ids and at most one Update or Delete per user in flight: once all
      calls have returned, the three maps are those of a sequential run of exactly the calls that
      succeeded, in the order in which they took effect, and each succeeds there too. */
  lemma SuccessesSerialize(es: seq<Event>)
    requires Legal(INITIAL, es) && FreshIds(INITIAL, es) && OneWriterEach(INITIAL, es) && Quiescent(Exec(INITIAL, es))
    ensures var s, ops := Exec(INITIAL, es), Order(INITIAL, es);
      && Run(EMPTY, ops) == s.store
      && (forall r | r in Results(EMPTY, ops) :: r == None)
      && multiset(ops) == SuccessfulOps(s.calls)
  {
    hide Legal, Exec, FreshIds, OneWriterEach, Run, NamesSafe, MailSafe, Writers, Shadows, Results, CommittedOps, Inverse;
    StartsInStep();
    InStepAlways(INITIAL, EMPTY, es);
    UsernameSafety(es);
    EmailAgreement(es);
    RestsOn(Exec(INITIAL, es), Run(EMPTY, Order(INITIAL, es)));
    RestCommitted(Exec(INITIAL, es).calls);
  }
}
