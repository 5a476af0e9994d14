/**
  The user store under concurrency.  Each sync.Map operation of Create, Update and Delete is one atomic
  step; any number of calls run interleaved.  Records are never written after publication (UserStore),
  so a loaded pointer is as good as the record it points to.
*/
module UserStoreConcurrent {
  import opened Bytes
  import opened UserTable

  /** Each pc names the operation the call performs next. */
  datatype CreatePc = ClaimName | ClaimEmail | RollBack | PublishNew | CreateDone(created: bool)

  datatype WritePc = Load | ClaimNewEmail | DropOldEmail | Publish | WriteDone(written: bool)

  /** Writers are Update and Delete; `seen` is the record a writer has loaded, meaningful from the load on. */
  datatype Call =
    | CreateCall(u: Record, now: int, cpc: CreatePc)
    | WriteCall(op: Op, pc: WritePc, seen: Record)

  datatype State = State(store: Store, calls: seq<Call>)

  datatype Event = Start(op: Op) | Step(i: nat)

  const NOTHING := Record("", "", "", "", "", "", false, "", "", 0, 0)

  function CallOf(op: Op): Call {
    match op
    case Create(u, now) => CreateCall(u, now, ClaimName)
    case _ => WriteCall(op, Load, NOTHING)
  }

  predicate Done(c: Call) {
    match c
    case CreateCall(_, _, cpc) => cpc.CreateDone?
    case WriteCall(_, pc, _) => pc.WriteDone?
  }

  /** The id an operation is about. */
  function Target(op: Op): string {
    match op
    case Create(u, _) => u.id
    case Update(u, _) => u.id
    case Delete(id, _) => id
  }

  /** The operation wants to move the record's email. */
  predicate MovesEmail(op: Op, existing: Record) {
    op.Update? && ClaimsEmail(existing, op.u)
  }

  /** What a writer publishes over the record it has seen. */
  function Written(op: Op, seen: Record): Record {
    match op
    case Create(u, now) => Stamp(u, now)
    case Update(u, now) => Merge(seen, u, now)
    case Delete(_, now) => MarkDeleted(seen, now)
  }

  // ---------- The atomic steps ----------

  /** Create: claim the username, claim the email (or roll the username back), publish. */
  function CreateStep(s: Store, c: Call): (Store, Call)
    requires c.CreateCall? && !Done(c)
  {
    match c.cpc
    case ClaimName =>
      if c.u.username in s.byUsername then (s, c.(cpc := CreateDone(false)))
      else (s.(byUsername := s.byUsername[c.u.username := c.u.id]), c.(cpc := ClaimEmail))
    case ClaimEmail =>
      if c.u.email in s.byEmail then (s, c.(cpc := RollBack))
      else (s.(byEmail := s.byEmail[c.u.email := c.u.id]), c.(cpc := PublishNew))
    case RollBack => (s.(byUsername := s.byUsername - {c.u.username}), c.(cpc := CreateDone(false)))
    case PublishNew => (s.(users := s.users[c.u.id := Stamp(c.u, c.now)]), c.(cpc := CreateDone(true)))
  }

  /** Update: load, claim the new email, drop the old one, publish the merged copy.  Delete: load, publish
      a copy marked deleted. */
  function WriteStep(s: Store, c: Call): (Store, Call)
    requires c.WriteCall? && !Done(c)
  {
    var id := Target(c.op);
    match c.pc
    case Load =>
      if !Live(s.users, id) then (s, c.(pc := WriteDone(false)))
      else (s, c.(seen := s.users[id], pc := if MovesEmail(c.op, s.users[id]) then ClaimNewEmail else Publish))
    case ClaimNewEmail =>
      if !c.op.Update? || c.op.u.email in s.byEmail then (s, c.(pc := WriteDone(false)))
      else (s.(byEmail := s.byEmail[c.op.u.email := id]), c.(pc := DropOldEmail))
    case DropOldEmail => (s.(byEmail := s.byEmail - {c.seen.email}), c.(pc := Publish))
    case Publish => (s.(users := s.users[id := Written(c.op, c.seen)]), c.(pc := WriteDone(true)))
  }

  function CallStep(s: Store, c: Call): (Store, Call)
    requires !Done(c)
  {
    if c.CreateCall? then CreateStep(s, c) else WriteStep(s, c)
  }

  predicate Enabled(s: State, e: Event) {
    e.Step? ==> e.i < |s.calls| && !Done(s.calls[e.i])
  }

  function Apply(s: State, e: Event): State
    requires Enabled(s, e)
  {
    match e
    case Start(op) => s.(calls := s.calls + [CallOf(op)])
    case Step(i) =>
      var (store, c) := CallStep(s.store, s.calls[i]);
      State(store, s.calls[i := c])
  }

  const INITIAL := State(EMPTY, [])

  predicate Legal(s: State, es: seq<Event>)
    decreases |es|
  {
    es == [] || (Enabled(s, es[0]) && Legal(Apply(s, es[0]), es[1..]))
  }

  function Exec(s: State, es: seq<Event>): State
    requires Legal(s, es)
    decreases |es|
  {
    if es == [] then s else Exec(Apply(s, es[0]), es[1..])
  }

  /** A new Create brings an id that neither a stored record nor another Create has: the service's UUIDs. */
  predicate FreshId(s: State, e: Event) {
    e.Start? && e.op.Create? ==>
      && e.op.u.id !in s.store.users
      && forall j | 0 <= j < |s.calls| && s.calls[j].CreateCall? :: s.calls[j].u.id != e.op.u.id
  }

  predicate FreshIds(s: State, es: seq<Event>)
    requires Legal(s, es)
    decreases |es|
  {
    es == [] || (FreshId(s, es[0]) && FreshIds(Apply(s, es[0]), es[1..]))
  }

  // ---------- A call that runs alone is the sequential operation ----------

  function StepsLeft(c: Call): nat {
    match c
    case CreateCall(_, _, cpc) =>
      (match cpc case ClaimName => 3 case ClaimEmail => 2 case RollBack => 1 case PublishNew => 1 case CreateDone(_) => 0)
    case WriteCall(_, pc, _) =>
      (match pc case Load => 4 case ClaimNewEmail => 3 case DropOldEmail => 2 case Publish => 1 case WriteDone(_) => 0)
  }

  function Alone(s: Store, c: Call): (Store, Call)
    decreases StepsLeft(c)
  {
    if Done(c) then (s, c)
    else
      var (s', c') := CallStep(s, c);
      Alone(s', c')
  }

  predicate Succeeded(c: Call) {
    match c
    case CreateCall(_, _, cpc) => cpc == CreateDone(true)
    case WriteCall(_, pc, _) => pc == WriteDone(true)
  }

  /** Run without interruption, the atomic steps add up to the effect the sequential store is proved with. */
  lemma AloneIsSequential(s: Store, op: Op)
    ensures var (s', c) := Alone(s, CallOf(op));
      Done(c) && s' == Effect(s, op).0 && (Succeeded(c) <==> Effect(s, op).1 == None)
  {
    var (s1, c1) := CallStep(s, CallOf(op));
    if !Done(c1) {
      var (s2, c2) := CallStep(s1, c1);
      if !Done(c2) {
        var (s3, c3) := CallStep(s2, c2);
        if !Done(c3) {
          var (s4, c4) := CallStep(s3, c3);
          assert Done(c4) && Alone(s3, c3) == (s4, c4);
        }
        assert Alone(s2, c2) == Alone(s3, c3);
      }
      assert Alone(s1, c1) == Alone(s2, c2);
    }
    assert Alone(s, CallOf(op)) == Alone(s1, c1);
  }

  // ---------- Usernames: safe in every interleaving ----------

  /** The call holds the claim on the username x for the user id. */
  predicate ClaimsName(c: Call, x: string, id: string) {
    c.CreateCall? && (c.cpc.ClaimEmail? || c.cpc.RollBack? || c.cpc.PublishNew?) && c.u.username == x && c.u.id == id
  }

  /** The writer has loaded a record it has not yet published over. */
  predicate Holding(c: Call) {
    c.WriteCall? && (c.pc.ClaimNewEmail? || c.pc.DropOldEmail? || c.pc.Publish?)
  }

  predicate SameNames(r: Record, seen: Record) { r.id == seen.id && r.username == seen.username }

  ghost predicate NamesIndexed(s: Store) {
    forall id | id in s.users ::
      && s.users[id].id == id
      && s.users[id].username in s.byUsername && s.byUsername[s.users[id].username] == id
  }

  ghost predicate ClaimsHeld(s: State) {
    forall j | 0 <= j < |s.calls| && s.calls[j].CreateCall? && ClaimsName(s.calls[j], s.calls[j].u.username, s.calls[j].u.id) ::
      s.calls[j].u.username in s.store.byUsername && s.store.byUsername[s.calls[j].u.username] == s.calls[j].u.id
  }

  ghost predicate NotYetStored(s: State) {
    forall j | 0 <= j < |s.calls| && s.calls[j].CreateCall? && s.calls[j].cpc != CreateDone(true) ::
      s.calls[j].u.id !in s.store.users
  }

  ghost predicate DistinctCreates(s: State) {
    forall j, k | 0 <= j < |s.calls| && 0 <= k < |s.calls| && s.calls[j].CreateCall? && s.calls[k].CreateCall?
      && s.calls[j].u.id == s.calls[k].u.id :: j == k
  }

  ghost predicate HeldNames(s: State) {
    forall j | 0 <= j < |s.calls| && Holding(s.calls[j]) ::
      && !s.calls[j].op.Create?
      && Target(s.calls[j].op) in s.store.users
      && SameNames(s.store.users[Target(s.calls[j].op)], s.calls[j].seen)
  }

  ghost predicate OnlyWriters(s: State) {
    forall j | 0 <= j < |s.calls| && s.calls[j].WriteCall? :: !s.calls[j].op.Create?
  }

  /** Every username entry belongs to a stored record or to a Create in flight. */
  ghost predicate NamesOwned(s: State) {
    forall x | x in s.store.byUsername :: NameOwner(s, x, s.store.byUsername[x])
  }

  ghost predicate NameOwner(s: State, x: string, id: string) {
    || (id in s.store.users && s.store.users[id].username == x)
    || exists j :: 0 <= j < |s.calls| && ClaimsName(s.calls[j], x, id)
  }

  ghost predicate NamesSafe(s: State) {
    && NamesIndexed(s.store) && ClaimsHeld(s) && NotYetStored(s) && DistinctCreates(s)
    && OnlyWriters(s) && HeldNames(s) && NamesOwned(s)
  }

  lemma NameOwnerKept(s: State, s': State, i: nat, x: string, id: string)
    requires NameOwner(s, x, id) && i < |s.calls| && |s'.calls| >= |s.calls|
    requires forall j | 0 <= j < |s.calls| && j != i :: s'.calls[j] == s.calls[j]
    requires id in s.store.users ==> id in s'.store.users && s'.store.users[id].username == s.store.users[id].username
    requires ClaimsName(s.calls[i], x, id) ==>
      ClaimsName(s'.calls[i], x, id) || (id in s'.store.users && s'.store.users[id].username == x)
    ensures NameOwner(s', x, id)
  {
    if !(id in s.store.users && s.store.users[id].username == x) {
      var j :| 0 <= j < |s.calls| && ClaimsName(s.calls[j], x, id);
      if j != i { assert ClaimsName(s'.calls[j], x, id); }
    }
  }

  /** What one step of a Create does, as far as usernames are concerned. */
  lemma CreateStepNames(s: Store, c: Call)
    requires c.CreateCall? && !Done(c)
    ensures var (s', c') := CallStep(s, c);
      && c'.CreateCall? && c'.u == c.u
      && (match c.cpc
          case ClaimName =>
            s'.users == s.users &&
            if c.u.username in s.byUsername then s'.byUsername == s.byUsername && c'.cpc == CreateDone(false)
            else s'.byUsername == s.byUsername[c.u.username := c.u.id] && c'.cpc == ClaimEmail
          case ClaimEmail => s'.users == s.users && s'.byUsername == s.byUsername && (c'.cpc == RollBack || c'.cpc == PublishNew)
          case RollBack => s'.users == s.users && s'.byUsername == s.byUsername - {c.u.username} && c'.cpc == CreateDone(false)
          case PublishNew =>
            && s'.users.Keys == s.users.Keys + {c.u.id} && SameNames(s'.users[c.u.id], c.u)
            && (forall id | id in s.users && id != c.u.id :: s'.users[id] == s.users[id])
            && s'.byUsername == s.byUsername && c'.cpc == CreateDone(true))
  {
  }

  lemma RollBackIsOwn(s: State, i: nat)
    requires NamesSafe(s) && i < |s.calls| && s.calls[i].CreateCall? && s.calls[i].cpc == RollBack
    ensures var u := s.calls[i].u;
      && u.username in s.store.byUsername && s.store.byUsername[u.username] == u.id
      && (forall id | id in s.store.users :: s.store.users[id].username != u.username)
      && (forall j | 0 <= j < |s.calls| && j != i && s.calls[j].CreateCall? ::
            !ClaimsName(s.calls[j], u.username, s.calls[j].u.id))
  {
    var u := s.calls[i].u;
    assert ClaimsName(s.calls[i], u.username, u.id);
    forall j | 0 <= j < |s.calls| && j != i && s.calls[j].CreateCall?
      ensures !ClaimsName(s.calls[j], u.username, s.calls[j].u.id)
    {
      assert s.calls[j].u.id != u.id;
    }
  }

  lemma CreateNamesKept(s: State, i: nat)
    requires NamesSafe(s) && i < |s.calls| && s.calls[i].CreateCall? && !Done(s.calls[i])
    ensures var s' := Apply(s, Step(i)); NamesIndexed(s'.store) && ClaimsHeld(s') && NotYetStored(s')
  {
    var s', c := Apply(s, Step(i)), s.calls[i];
    CreateStepNames(s.store, c);
    hide CallStep, NamesOwned, HeldNames, OnlyWriters;
    if c.cpc == RollBack { RollBackIsOwn(s, i); }
    assert ClaimsName(c, c.u.username, c.u.id) ==> s.store.byUsername[c.u.username] == c.u.id;
    assert c.u.id !in s.store.users;
  }

  lemma CreateOwnersKept(s: State, i: nat)
    requires NamesSafe(s) && i < |s.calls| && s.calls[i].CreateCall? && !Done(s.calls[i])
    ensures NamesOwned(Apply(s, Step(i))) && HeldNames(Apply(s, Step(i)))
  {
    var s', c := Apply(s, Step(i)), s.calls[i];
    CreateStepNames(s.store, c);
    assert c.u.id !in s.store.users;
    hide CallStep, ClaimsHeld, NotYetStored, NamesIndexed, DistinctCreates, NameOwner;
    forall x | x in s'.store.byUsername ensures NameOwner(s', x, s'.store.byUsername[x]) {
      if x in s.store.byUsername && s'.store.byUsername[x] == s.store.byUsername[x] {
        NameOwnerKept(s, s', i, x, s.store.byUsername[x]);
      } else {
        assert ClaimsName(s'.calls[i], x, c.u.id);
        NameOwnerByClaim(s', i, x, c.u.id);
      }
    }
  }

  lemma NameOwnerByClaim(s: State, j: nat, x: string, id: string)
    requires j < |s.calls| && ClaimsName(s.calls[j], x, id)
    ensures NameOwner(s, x, id)
  {
  }

  lemma CreateNamesStep(s: State, i: nat)
    requires NamesSafe(s) && i < |s.calls| && s.calls[i].CreateCall? && !Done(s.calls[i])
    ensures NamesSafe(Apply(s, Step(i)))
  {
    CreateNamesKept(s, i);
    CreateOwnersKept(s, i);
    CreateStepNames(s.store, s.calls[i]);
    hide CallStep, NamesIndexed, ClaimsHeld, NotYetStored, HeldNames, NamesOwned;
  }

  /** What one step of an Update or Delete does, as far as usernames are concerned. */
  lemma WriteStepNames(s: Store, c: Call)
    requires c.WriteCall? && !Done(c) && !c.op.Create?
    requires Holding(c) ==> Target(c.op) in s.users && SameNames(s.users[Target(c.op)], c.seen)
    ensures var (s', c') := CallStep(s, c);
      && c'.WriteCall? && c'.op == c.op
      && s'.byUsername == s.byUsername && s'.users.Keys == s.users.Keys
      && (forall id | id in s.users :: SameNames(s'.users[id], s.users[id]))
      && (Holding(c') ==> Target(c.op) in s.users && SameNames(s.users[Target(c.op)], c'.seen))
  {
  }

  lemma WriteNamesStep(s: State, i: nat)
    requires NamesSafe(s) && i < |s.calls| && s.calls[i].WriteCall? && !Done(s.calls[i])
    ensures NamesSafe(Apply(s, Step(i)))
  {
    var s', c := Apply(s, Step(i)), s.calls[i];
    WriteStepNames(s.store, c);
    hide CallStep, NameOwner;
    forall x | x in s'.store.byUsername ensures NameOwner(s', x, s'.store.byUsername[x]) {
      NameOwnerKept(s, s', i, x, s.store.byUsername[x]);
    }
  }

  lemma StartNamesStep(s: State, op: Op)
    requires NamesSafe(s) && FreshId(s, Start(op))
    ensures NamesSafe(Apply(s, Start(op)))
  {
    var s' := Apply(s, Start(op));
    assert forall j | 0 <= j < |s.calls| :: s'.calls[j] == s.calls[j];
    assert NamesOwned(s') by {
      forall x | x in s'.store.byUsername ensures NameOwner(s', x, s'.store.byUsername[x]) {
        var id := s.store.byUsername[x];
        if !(id in s.store.users && s.store.users[id].username == x) {
          var j :| 0 <= j < |s.calls| && ClaimsName(s.calls[j], x, id);
          assert ClaimsName(s'.calls[j], x, id);
        }
      }
    }
  }

  lemma NamesStep(s: State, e: Event)
    requires NamesSafe(s) && Enabled(s, e) && FreshId(s, e)
    ensures NamesSafe(Apply(s, e))
  {
    hide NamesSafe, CallStep, FreshId;
    match e
    case Start(op) => StartNamesStep(s, op);
    case Step(i) => if s.calls[i].CreateCall? { CreateNamesStep(s, i); } else { WriteNamesStep(s, i); }
  }

  lemma {:induction false} NamesAlways(s: State, es: seq<Event>)
    requires NamesSafe(s) && Legal(s, es) && FreshIds(s, es)
    ensures NamesSafe(Exec(s, es))
    decreases |es|
  {
    hide Apply, Enabled, NamesSafe, FreshId;
    if es != [] {
      NamesStep(s, es[0]);
      NamesAlways(Apply(s, es[0]), es[1..]);
    }
  }

  ghost predicate Quiescent(s: State) {
    forall j | 0 <= j < |s.calls| :: Done(s.calls[j])
  }

  lemma StartsSafe()
    ensures NamesSafe(INITIAL)
  {
  }

  /** In every interleaving of any number of Creates, Updates and Deletes with fresh ids: the index leads
      from each stored username to its record, no two stored records share a username, a roll-back removes
      a claim that is its own and that no record stands on, and with no call in flight the index is exactly
      the inverse of the username column. */
  lemma UsernameSafety(es: seq<Event>)
    requires Legal(INITIAL, es) && FreshIds(INITIAL, es)
    ensures var s := Exec(INITIAL, es);
      && NamesIndexed(s.store)
      && (forall a, b | a in s.store.users && b in s.store.users
            && s.store.users[a].username == s.store.users[b].username :: a == b)
      && (forall i | 0 <= i < |s.calls| && s.calls[i].CreateCall? && s.calls[i].cpc == RollBack ::
            && s.calls[i].u.username in s.store.byUsername
            && s.store.byUsername[s.calls[i].u.username] == s.calls[i].u.id
            && forall id | id in s.store.users :: s.store.users[id].username != s.calls[i].u.username)
      && (Quiescent(s) ==> Inverse(Usernames(s.store.users), s.store.byUsername))
  {
    hide Apply, Enabled, FreshId;
    StartsSafe();
    NamesAlways(INITIAL, es);
    var s := Exec(INITIAL, es);
    forall i | 0 <= i < |s.calls| && s.calls[i].CreateCall? && s.calls[i].cpc == RollBack
      ensures s.calls[i].u.username in s.store.byUsername
      ensures s.store.byUsername[s.calls[i].u.username] == s.calls[i].u.id
      ensures forall id | id in s.store.users :: s.store.users[id].username != s.calls[i].u.username
    {
      RollBackIsOwn(s, i);
    }
  }
}
