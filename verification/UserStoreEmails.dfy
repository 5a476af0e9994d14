/**
  Emails under concurrency.  An Update moves an email in three steps (claim the new one, drop the old one,
  publish), so the email index agrees with the records only outside that window, and only as long as no
  other writer of the same user overlaps with the move: Update and Delete publish over a copy they loaded
  earlier.  Writers that move no email may overlap freely.
*/
module UserStoreEmails {
  import opened Bytes
  import opened UserTable
  import opened UserStoreConcurrent

  /** The user a call works for. */
  function UserOf(c: Call): string {
    match c
    case CreateCall(u, _, _) => u.id
    case WriteCall(op, _, _) => Target(op)
  }

  /** Between its load and its publication, the writer is to move the email. */
  predicate Moving(c: Call) {
    Holding(c) && MovesEmail(c.op, c.seen)
  }

  /** A writer loads a live record while no other writer of that user is to move its email; and if the
      loading one is to move it, while no other writer holds a copy at all. */
  predicate LoadsApart(s: State, e: Event) {
    e.Step? && e.i < |s.calls| && s.calls[e.i].WriteCall? && s.calls[e.i].pc == Load ==>
      var c := s.calls[e.i];
      Live(s.store.users, Target(c.op)) ==>
        forall j | 0 <= j < |s.calls| && Holding(s.calls[j]) && UserOf(s.calls[j]) == UserOf(c) ::
          !Moving(s.calls[j]) && !MovesEmail(c.op, s.store.users[Target(c.op)])
  }

  predicate MovesApart(s: State, es: seq<Event>)
    requires Legal(s, es)
    decreases |es|
  {
    es == [] || (LoadsApart(s, es[0]) && MovesApart(Apply(s, es[0]), es[1..]))
  }

  predicate Entry(s: Store, x: string, id: string) {
    x in s.byEmail && s.byEmail[x] == id
  }

  predicate Has(s: Store, id: string, x: string) {
    id in s.users && s.users[id].email == x
  }

  /** The writer has dropped the old email and not yet published the new one. */
  predicate Dropped(c: Call) {
    c.WriteCall? && c.pc == Publish && MovesEmail(c.op, c.seen)
  }

  /** The call holds a claim on the email x that its record does not show yet. */
  predicate ClaimsMail(c: Call, x: string) {
    match c
    case CreateCall(u, _, cpc) => cpc == PublishNew && u.email == x
    case WriteCall(op, pc, _) => (pc == DropOldEmail || Dropped(c)) && op.Update? && op.u.email == x
  }

  // ---------- The invariant ----------

  /** The record is between its old and its new email. */
  ghost predicate InWindow(s: State, id: string) {
    exists j :: 0 <= j < |s.calls| && Dropped(s.calls[j]) && UserOf(s.calls[j]) == id
  }

  ghost predicate MailOwner(s: State, x: string, id: string) {
    Has(s.store, id, x) || exists j :: 0 <= j < |s.calls| && ClaimsMail(s.calls[j], x) && UserOf(s.calls[j]) == id
  }

  /** Every record outside its window is found under its email. */
  ghost predicate MailIndexed(s: State) {
    forall id | id in s.store.users :: InWindow(s, id) || Entry(s.store, s.store.users[id].email, id)
  }

  /** Every entry is a record's email or a claim of a call in flight. */
  ghost predicate MailOwned(s: State) {
    forall x | x in s.store.byEmail :: MailOwner(s, x, s.store.byEmail[x])
  }

  /** One call against the store: the email a writer has seen is still stored, claims are in the index, and
      a dropped email no longer leads to the user. */
  predicate CallMail(s: Store, c: Call) {
    match c
    case CreateCall(u, _, cpc) => cpc == PublishNew ==> Entry(s, u.email, u.id)
    case WriteCall(op, pc, seen) =>
      Holding(c) ==>
        && Target(op) in s.users && s.users[Target(op)].email == seen.email
        && (pc != Publish ==> MovesEmail(op, seen))
        && (pc == DropOldEmail || Dropped(c) ==> Entry(s, op.u.email, Target(op)))
        && (Dropped(c) ==> !Entry(s, seen.email, Target(op)))
  }

  ghost predicate CallsMail(s: State) {
    forall j | 0 <= j < |s.calls| :: CallMail(s.store, s.calls[j])
  }

  ghost predicate MoversAlone(s: State) {
    forall j, k | 0 <= j < |s.calls| && 0 <= k < |s.calls| && Moving(s.calls[j]) && Holding(s.calls[k])
      && UserOf(s.calls[j]) == UserOf(s.calls[k]) :: j == k
  }

  ghost predicate MailSafe(s: State) {
    MoversAlone(s) && CallsMail(s) && MailIndexed(s) && MailOwned(s)
  }

  // ---------- One call and its own user ----------

  /** The user's part of both directions, when c is the only call in flight that counts for it. */
  ghost predicate Consistent(s: Store, c: Call) {
    && (UserOf(c) in s.users ==> Dropped(c) || Entry(s, s.users[UserOf(c)].email, UserOf(c)))
    && forall x | Entry(s, x, UserOf(c)) :: Has(s, UserOf(c), x) || ClaimsMail(c, x)
  }

  /** The records and email entries of everybody else are untouched. */
  ghost predicate SameBut(s: Store, s': Store, me: string) {
    && (forall id | id != me :: id in s'.users <==> id in s.users)
    && (forall id | id != me && id in s.users :: s'.users[id] == s.users[id])
    && forall x, id | id != me :: Entry(s', x, id) <==> Entry(s, x, id)
  }

  predicate SameEmail(s: Store, s': Store, me: string) {
    me in s.users ==> me in s'.users && s'.users[me].email == s.users[me].email
  }

  /** The call may change the store next. */
  predicate Working(s: Store, c: Call) {
    match c
    case CreateCall(u, _, _) => !Done(c) && u.id !in s.users
    case WriteCall(op, _, _) => Holding(c) && !op.Create?
  }

  lemma CreateOwnStep(s: Store, c: Call)
    requires c.CreateCall? && Working(s, c) && CallMail(s, c) && Consistent(s, c)
    ensures var (s', c') := CallStep(s, c);
      && UserOf(c') == UserOf(c) && CallMail(s', c') && Consistent(s', c') && SameBut(s, s', UserOf(c))
      && (c.WriteCall? && !Moving(c) ==> SameEmail(s, s', UserOf(c)))
  {
    var (s', c') := CallStep(s, c);
    forall x | Entry(s', x, UserOf(c)) ensures Has(s', UserOf(c), x) || ClaimsMail(c', x) {
      if Entry(s, x, UserOf(c)) { assert Has(s, UserOf(c), x) || ClaimsMail(c, x); }
    }
  }

  lemma WriteOwnStep(s: Store, c: Call)
    requires c.WriteCall? && Working(s, c) && CallMail(s, c) && Consistent(s, c)
    ensures var (s', c') := CallStep(s, c);
      && UserOf(c') == UserOf(c) && CallMail(s', c') && Consistent(s', c') && SameBut(s, s', UserOf(c))
      && (c.WriteCall? && !Moving(c) ==> SameEmail(s, s', UserOf(c)))
  {
    var (s', c') := CallStep(s, c);
    forall x | Entry(s', x, UserOf(c)) ensures Has(s', UserOf(c), x) || ClaimsMail(c', x) {
      if Entry(s, x, UserOf(c)) { assert Has(s, UserOf(c), x) || ClaimsMail(c, x); }
    }
  }

  lemma OwnStep(s: Store, c: Call)
    requires Working(s, c) && CallMail(s, c) && Consistent(s, c)
    ensures var (s', c') := CallStep(s, c);
      && UserOf(c') == UserOf(c) && CallMail(s', c') && Consistent(s', c') && SameBut(s, s', UserOf(c))
      && (c.WriteCall? && !Moving(c) ==> SameEmail(s, s', UserOf(c)))
  {
    hide CallMail, Consistent, SameBut, CallStep;
    if c.CreateCall? { CreateOwnStep(s, c); } else { WriteOwnStep(s, c); }
  }

  lemma OtherCallKept(s: Store, s': Store, me: string, d: Call)
    requires SameBut(s, s', me) && CallMail(s, d)
    requires UserOf(d) == me ==> !Moving(d) && (Holding(d) ==> SameEmail(s, s', me)) && forall x :: !ClaimsMail(d, x)
    ensures CallMail(s', d)
  {
    if d.CreateCall? {
      assert ClaimsMail(d, d.u.email) <==> d.cpc == PublishNew;
    } else if Holding(d) {
      assert Target(d.op) in s'.users;
    }
  }

  // ---------- The other calls ----------

  /** No other call in flight claims, has dropped or is to move an email of the user a working call is for;
      another may hold a copy only while the working one moves no email. */
  lemma OnlyOneFor(s: State, i: nat, j: nat)
    requires NamesSafe(s) && MoversAlone(s) && CallsMail(s) && i < |s.calls| && j < |s.calls| && i != j
    requires Working(s.store, s.calls[i]) && UserOf(s.calls[j]) == UserOf(s.calls[i])
    ensures !Moving(s.calls[j]) && !Dropped(s.calls[j]) && forall x :: !ClaimsMail(s.calls[j], x)
    ensures Holding(s.calls[j]) ==> s.calls[i].WriteCall? && !Moving(s.calls[i])
  {
    assert CallMail(s.store, s.calls[i]) && CallMail(s.store, s.calls[j]);
    hide NamesIndexed, ClaimsHeld, HeldNames, NamesOwned, CallsMail;
  }

  ghost predicate SameOthers(s: State, s': State, i: nat) {
    |s'.calls| == |s.calls| && forall j | 0 <= j < |s.calls| && j != i :: s'.calls[j] == s.calls[j]
  }

  lemma InWindowKept(s: State, s': State, i: nat, id: string)
    requires InWindow(s, id) && i < |s.calls| && SameOthers(s, s', i)
    requires UserOf(s.calls[i]) == id ==> !Dropped(s.calls[i])
    ensures InWindow(s', id)
  {
    var j :| 0 <= j < |s.calls| && Dropped(s.calls[j]) && UserOf(s.calls[j]) == id;
    assert Dropped(s'.calls[j]);
  }

  lemma MailOwnerKept(s: State, s': State, i: nat, x: string, id: string)
    requires MailOwner(s, x, id) && i < |s.calls| && SameOthers(s, s', i)
    requires Has(s.store, id, x) ==> Has(s'.store, id, x)
    requires UserOf(s.calls[i]) == id ==> !ClaimsMail(s.calls[i], x)
    ensures MailOwner(s', x, id)
  {
    if !Has(s.store, id, x) {
      var j :| 0 <= j < |s.calls| && ClaimsMail(s.calls[j], x) && UserOf(s.calls[j]) == id;
      assert ClaimsMail(s'.calls[j], x);
    }
  }

  lemma ConsistentBefore(s: State, i: nat)
    requires NamesSafe(s) && MailSafe(s) && i < |s.calls| && Working(s.store, s.calls[i])
    ensures Consistent(s.store, s.calls[i])
  {
    var c, me := s.calls[i], UserOf(s.calls[i]);
    forall j: nat | j < |s.calls| && j != i && UserOf(s.calls[j]) == me
      ensures !Dropped(s.calls[j]) && forall x :: !ClaimsMail(s.calls[j], x)
    {
      OnlyOneFor(s, i, j);
    }
    hide NamesSafe, MoversAlone, CallsMail, Dropped, ClaimsMail, Working, UserOf;
    forall x | Entry(s.store, x, me) ensures Has(s.store, me, x) || ClaimsMail(c, x) {
      assert MailOwner(s, x, me);
    }
  }

  lemma IndexedAfter(s: State, s': State, i: nat)
    requires MailIndexed(s) && i < |s.calls| && SameOthers(s, s', i) && UserOf(s'.calls[i]) == UserOf(s.calls[i])
    requires SameBut(s.store, s'.store, UserOf(s.calls[i])) && Consistent(s'.store, s'.calls[i])
    ensures MailIndexed(s')
  {
    var me := UserOf(s.calls[i]);
    hide UserOf, Dropped, ClaimsMail;
    forall id | id in s'.store.users ensures InWindow(s', id) || Entry(s'.store, s'.store.users[id].email, id) {
      if id == me {
        assert Dropped(s'.calls[i]) ==> InWindow(s', id);
      } else {
        assert id in s.store.users && s'.store.users[id] == s.store.users[id];
        hide Consistent;
        if InWindow(s, id) { InWindowKept(s, s', i, id); }
      }
    }
  }

  lemma OwnedAfter(s: State, s': State, i: nat)
    requires MailOwned(s) && i < |s.calls| && SameOthers(s, s', i) && UserOf(s'.calls[i]) == UserOf(s.calls[i])
    requires SameBut(s.store, s'.store, UserOf(s.calls[i])) && Consistent(s'.store, s'.calls[i])
    ensures MailOwned(s')
  {
    var me := UserOf(s.calls[i]);
    hide UserOf, Dropped, ClaimsMail;
    forall x | x in s'.store.byEmail ensures MailOwner(s', x, s'.store.byEmail[x]) {
      var id := s'.store.byEmail[x];
      assert Entry(s'.store, x, id);
      if id == me {
        assert Has(s'.store, me, x) || ClaimsMail(s'.calls[i], x);
      } else {
        assert Entry(s.store, x, id);
        assert Has(s.store, id, x) ==> s'.store.users[id] == s.store.users[id];
        MailOwnerKept(s, s', i, x, id);
      }
    }
  }

  // ---------- Every step ----------

  lemma WorkingMailStep(s: State, i: nat)
    requires NamesSafe(s) && MailSafe(s) && i < |s.calls| && Working(s.store, s.calls[i]) && !Done(s.calls[i])
    ensures var s' := Apply(s, Step(i)); CallsMail(s') && MailIndexed(s') && MailOwned(s')
  {
    var s', me := Apply(s, Step(i)), UserOf(s.calls[i]);
    assert SameOthers(s, s', i);
    ConsistentBefore(s, i);
    OwnStep(s.store, s.calls[i]);
    hide CallStep, CallMail, Consistent, Working, NamesSafe, SameBut;
    IndexedAfter(s, s', i);
    OwnedAfter(s, s', i);
    hide MailIndexed, MailOwned, UserOf, Holding, Dropped, ClaimsMail, MoversAlone;
    forall j: nat | j < |s.calls| && j != i ensures CallMail(s'.store, s.calls[j]) {
      if UserOf(s.calls[j]) == me { OnlyOneFor(s, i, j); }
      OtherCallKept(s.store, s'.store, me, s.calls[j]);
    }
  }

  lemma LoadStep(s: Store, c: Call)
    requires c.WriteCall? && c.pc == Load
    ensures var (s', c') := CallStep(s, c);
      && s' == s && UserOf(c') == UserOf(c) && CallMail(s, c')
      && !Dropped(c) && forall x :: !ClaimsMail(c, x)
  {
  }

  lemma LoadMailStep(s: State, i: nat)
    requires MailSafe(s) && i < |s.calls| && s.calls[i].WriteCall? && s.calls[i].pc == Load
    ensures var s' := Apply(s, Step(i)); CallsMail(s') && MailIndexed(s') && MailOwned(s')
  {
    var s' := Apply(s, Step(i));
    assert SameOthers(s, s', i);
    LoadStep(s.store, s.calls[i]);
    hide CallStep, CallMail, UserOf, Dropped, ClaimsMail, Entry, InWindow, MailOwner, MoversAlone;
    forall id | InWindow(s, id) ensures InWindow(s', id) {
      InWindowKept(s, s', i, id);
    }
    forall x | x in s'.store.byEmail ensures MailOwner(s', x, s'.store.byEmail[x]) {
      MailOwnerKept(s, s', i, x, s.store.byEmail[x]);
    }
  }

  /** A call comes to hold a copy only by loading a live record, and a held copy is kept. */
  lemma HoldingStep(s: Store, c: Call)
    requires !Done(c)
    ensures var (s', c') := CallStep(s, c);
      && UserOf(c') == UserOf(c)
      && (Holding(c') && Holding(c) ==> (Moving(c') <==> Moving(c)))
      && (Holding(c') && !Holding(c) ==>
            && c.WriteCall? && c.pc == Load && Live(s.users, Target(c.op))
            && (Moving(c') <==> MovesEmail(c.op, s.users[Target(c.op)])))
  {
  }

  lemma MoversAloneStep(s: State, i: nat)
    requires MoversAlone(s) && i < |s.calls| && !Done(s.calls[i]) && LoadsApart(s, Step(i))
    ensures MoversAlone(Apply(s, Step(i)))
  {
    hide CallStep, UserOf, Holding, Live, MovesEmail;
    HoldingStep(s.store, s.calls[i]);
    assert forall c :: Moving(c) ==> Holding(c);
    hide Moving;
  }

  lemma StartMailStep(s: State, op: Op)
    requires MailSafe(s) && LoadsApart(s, Start(op))
    ensures MailSafe(Apply(s, Start(op)))
  {
    var s' := Apply(s, Start(op));
    var c := s'.calls[|s.calls|];
    assert CallMail(s.store, c) && UserOf(c) == Target(op);
    assert forall j | 0 <= j < |s.calls| :: s'.calls[j] == s.calls[j];
    assert MoversAlone(s');
    hide MoversAlone, LoadsApart, CallMail, Entry, Has, Dropped, ClaimsMail, UserOf, Target;
    forall id | InWindow(s, id) ensures InWindow(s', id) {
      var j :| 0 <= j < |s.calls| && Dropped(s.calls[j]) && UserOf(s.calls[j]) == id;
      assert Dropped(s'.calls[j]);
    }
    forall x | x in s'.store.byEmail ensures MailOwner(s', x, s'.store.byEmail[x]) {
      var id := s.store.byEmail[x];
      assert MailOwner(s, x, id);
      if !Has(s.store, id, x) {
        var j :| 0 <= j < |s.calls| && ClaimsMail(s.calls[j], x) && UserOf(s.calls[j]) == id;
        assert ClaimsMail(s'.calls[j], x);
      }
    }
  }

  lemma WorkingOrLoading(s: State, i: nat)
    requires NamesSafe(s) && i < |s.calls| && !Done(s.calls[i])
    ensures Working(s.store, s.calls[i]) || (s.calls[i].WriteCall? && s.calls[i].pc == Load)
  {
    hide NamesIndexed, ClaimsHeld, HeldNames, NamesOwned, DistinctCreates;
  }

  lemma MailStep(s: State, e: Event)
    requires NamesSafe(s) && MailSafe(s) && Enabled(s, e) && LoadsApart(s, e)
    ensures MailSafe(Apply(s, e))
  {
    if e.Start? {
      StartMailStep(s, e.op);
    } else {
      WorkingOrLoading(s, e.i);
      MoversAloneStep(s, e.i);
      hide NamesSafe, MoversAlone, CallsMail, MailIndexed, MailOwned, Working, Apply;
      if Working(s.store, s.calls[e.i]) { WorkingMailStep(s, e.i); } else { LoadMailStep(s, e.i); }
    }
  }

  lemma {:induction false} MailAlways(s: State, es: seq<Event>)
    requires NamesSafe(s) && MailSafe(s) && Legal(s, es) && FreshIds(s, es) && MovesApart(s, es)
    ensures NamesSafe(Exec(s, es)) && MailSafe(Exec(s, es))
    decreases |es|
  {
    hide Apply, Enabled, NamesSafe, MailSafe, FreshId, LoadsApart;
    if es != [] {
      NamesStep(s, es[0]);
      MailStep(s, es[0]);
      MailAlways(Apply(s, es[0]), es[1..]);
    }
  }

  // ---------- Agreement ----------

  lemma QuiescentAgrees(s: State)
    requires MailIndexed(s) && MailOwned(s) && Quiescent(s)
    ensures Inverse(Emails(s.store.users), s.store.byEmail)
  {
    assert forall j | 0 <= j < |s.calls| :: !Dropped(s.calls[j]) && forall x :: !ClaimsMail(s.calls[j], x);
    hide Dropped, ClaimsMail, Quiescent;
    forall id | id in s.store.users ensures Entry(s.store, s.store.users[id].email, id) {
      assert !InWindow(s, id);
    }
    forall x | x in s.store.byEmail ensures Has(s.store, s.store.byEmail[x], x) {
      assert MailOwner(s, x, s.store.byEmail[x]);
    }
  }

  /** In every interleaving with fresh ids in which no move of an email overlaps with another writer of that
      user: every record outside its own claim-to-publish window is found under its email, every entry is a
      record's email or a claim in flight, records outside their windows have distinct emails, and with no
      call in flight the index is exactly the inverse of the email column. */
  lemma EmailAgreement(es: seq<Event>)
    requires Legal(INITIAL, es) && FreshIds(INITIAL, es) && MovesApart(INITIAL, es)
    ensures var s := Exec(INITIAL, es);
      && (forall id | id in s.store.users && !InWindow(s, id) :: Entry(s.store, s.store.users[id].email, id))
      && (forall x | x in s.store.byEmail :: MailOwner(s, x, s.store.byEmail[x]))
      && (forall a, b | a in s.store.users && b in s.store.users && !InWindow(s, a) && !InWindow(s, b)
            && s.store.users[a].email == s.store.users[b].email :: a == b)
      && (Quiescent(s) ==> Inverse(Emails(s.store.users), s.store.byEmail))
  {
    StartsSafe();
    MailAlways(INITIAL, es);
    var s := Exec(INITIAL, es);
    assert MailIndexed(s) && MailOwned(s);
    hide NamesSafe, MoversAlone, CallsMail, Inverse, Exec, Legal, Emails, InWindow, MailOwner, Quiescent;
    if Quiescent(s) { QuiescentAgrees(s); }
  }

  // ---------- A move that overlaps with another writer ----------

  /** At rest but for the writer i: every entry is a record's or the writer's claim, every record is found
      unless the writer has dropped its email, and the writer's own claim stands. */
  ghost predicate AgreesBut(s: State, i: nat)
    requires i < |s.calls| && s.calls[i].WriteCall?
  {
    var c := s.calls[i];
    && (forall j | 0 <= j < |s.calls| && j != i :: Done(s.calls[j]))
    && MailOwned(s)
    && (forall id | id in s.store.users && !(Dropped(c) && id == UserOf(c) && Has(s.store, id, c.seen.email)) ::
          Entry(s.store, s.store.users[id].email, id))
    && (Dropped(c) ==> Entry(s.store, c.op.u.email, UserOf(c)) && !Entry(s.store, c.seen.email, UserOf(c)))
  }

  lemma OwnersBut(s: State, i: nat, x: string)
    requires i < |s.calls| && s.calls[i].WriteCall? && s.calls[i].pc == Publish && AgreesBut(s, i) && x in s.store.byEmail
    ensures var id, c := s.store.byEmail[x], s.calls[i];
      Has(s.store, id, x) || (Dropped(c) && id == UserOf(c) && c.op.u.email == x)
  {
    assert MailOwner(s, x, s.store.byEmail[x]);
    assert forall j | 0 <= j < |s.calls| && j != i :: !ClaimsMail(s.calls[j], x);
  }

  lemma CurrentPublishAgrees(s: State, i: nat)
    requires i < |s.calls| && s.calls[i].WriteCall? && s.calls[i].pc == Publish && !s.calls[i].op.Create?
    requires AgreesBut(s, i) && UserOf(s.calls[i]) in s.store.users
    requires var stored := s.store.users[UserOf(s.calls[i])].email;
      s.calls[i].seen.email == stored || Written(s.calls[i].op, s.calls[i].seen).email == stored
    ensures var s' := CallStep(s.store, s.calls[i]).0; Inverse(Emails(s'.users), s'.byEmail)
  {
    var c, me, s' := s.calls[i], UserOf(s.calls[i]), CallStep(s.store, s.calls[i]).0;
    var r := Written(c.op, c.seen);
    assert r.email == if Dropped(c) then c.op.u.email else c.seen.email;
    assert s' == s.store.(users := s.store.users[me := r]);
    hide CallStep, Written, MailOwned, MovesEmail;
    forall id | id in s'.users ensures Entry(s', s'.users[id].email, id) {
    }
    forall x | x in s'.byEmail ensures s'.byEmail[x] in s'.users && s'.users[s'.byEmail[x]].email == x {
      OwnersBut(s, i, x);
    }
  }

  /** A publication by the last writer in flight brings index and records into full agreement if and only
      if the email it loaded earlier, or the one it publishes, is the stored one. */
  lemma PublishKeepsAgreementIff(s: State, i: nat)
    requires i < |s.calls| && s.calls[i].WriteCall? && s.calls[i].pc == Publish && !s.calls[i].op.Create?
    requires AgreesBut(s, i) && UserOf(s.calls[i]) in s.store.users
    ensures var c, s' := s.calls[i], CallStep(s.store, s.calls[i]).0;
      var stored := s.store.users[UserOf(c)].email;
      Inverse(Emails(s'.users), s'.byEmail) <==> c.seen.email == stored || Written(c.op, c.seen).email == stored
  {
    var c, me, s' := s.calls[i], UserOf(s.calls[i]), CallStep(s.store, s.calls[i]).0;
    var stored := s.store.users[me].email;
    if c.seen.email == stored || Written(c.op, c.seen).email == stored {
      CurrentPublishAgrees(s, i);
    } else {
      assert Entry(s'.(users := s.store.users), stored, me);
      assert Emails(s'.users)[me] == Written(c.op, c.seen).email;
    }
  }

  /** As long as moves have not overlapped, the last writer in flight finds the state it needs. */
  lemma SafeAgreesBut(s: State, i: nat)
    requires MailSafe(s) && i < |s.calls| && s.calls[i].WriteCall? && s.calls[i].pc == Publish
    requires forall j | 0 <= j < |s.calls| && j != i :: Done(s.calls[j])
    ensures AgreesBut(s, i) && UserOf(s.calls[i]) in s.store.users
    ensures s.calls[i].seen.email == s.store.users[UserOf(s.calls[i])].email
  {
    var c := s.calls[i];
    assert CallMail(s.store, c) && Holding(c);
    assert forall j | 0 <= j < |s.calls| && j != i :: !Dropped(s.calls[j]);
    hide MoversAlone, CallsMail, MailOwned, MovesEmail;
    forall id | id in s.store.users && !(Dropped(c) && id == UserOf(c) && Has(s.store, id, c.seen.email))
      ensures Entry(s.store, s.store.users[id].email, id)
    {
      assert InWindow(s, id) ==> Dropped(c) && UserOf(c) == id;
    }
  }

  /** The email is in the index, but no record shows it, no call claims it and no held copy has seen it. */
  ghost predicate MailOrphan(s: State, x: string) {
    && x in s.store.byEmail
    && (forall id | id in s.store.users :: s.store.users[id].email != x)
    && forall j | 0 <= j < |s.calls| :: Unrelated(s.calls[j], x)
  }

  predicate Unrelated(c: Call, x: string) {
    !ClaimsMail(c, x) && (Holding(c) ==> c.seen.email != x)
  }

  lemma UnrelatedStep(s: Store, c: Call, x: string)
    requires !Done(c) && Unrelated(c, x) && (c.WriteCall? ==> !c.op.Create?)
    requires x in s.byEmail && forall id | id in s.users :: s.users[id].email != x
    ensures var (s', c') := CallStep(s, c);
      Unrelated(c', x) && x in s'.byEmail && forall id | id in s'.users :: s'.users[id].email != x
  {
  }

  lemma OrphanStep(s: State, e: Event, x: string)
    requires NamesSafe(s) && MailOrphan(s, x) && Enabled(s, e)
    ensures MailOrphan(Apply(s, e), x)
  {
    match e
    case Start(op) =>
      assert Unrelated(CallOf(op), x);
      assert forall j | 0 <= j < |s.calls| :: Apply(s, e).calls[j] == s.calls[j];
    case Step(i) =>
      assert Unrelated(s.calls[i], x) && (s.calls[i].WriteCall? ==> !s.calls[i].op.Create?);
      hide NamesSafe, CallStep, Unrelated;
      UnrelatedStep(s.store, s.calls[i], x);
  }

  /** The damage lasts: through every continuation with fresh ids, whatever overlaps, the email stays
      reserved for nobody, so index and records never agree again. */
  lemma {:induction false} OrphanedForGood(s: State, es: seq<Event>, x: string)
    requires NamesSafe(s) && MailOrphan(s, x) && Legal(s, es) && FreshIds(s, es)
    ensures var s' := Exec(s, es);
      MailOrphan(s', x) && !Inverse(Emails(s'.store.users), s'.store.byEmail)
    decreases |es|
  {
    hide Apply, Enabled, NamesSafe, FreshId, Unrelated;
    if es == [] {
      var column := Emails(s.store.users);
      assert forall id | id in column :: column[id] != x;
    } else {
      OrphanStep(s, es[0], x);
      NamesStep(s, es[0]);
      OrphanedForGood(Apply(s, es[0]), es[1..], x);
    }
  }

  /** A last publication that fails the condition leaves the stored email behind in this way. */
  lemma StalePublishOrphans(s: State, i: nat)
    requires i < |s.calls| && s.calls[i].WriteCall? && s.calls[i].pc == Publish && !s.calls[i].op.Create?
    requires AgreesBut(s, i) && UserOf(s.calls[i]) in s.store.users
    requires var c, stored := s.calls[i], s.store.users[UserOf(s.calls[i])].email;
      c.seen.email != stored && Written(c.op, c.seen).email != stored
    ensures MailOrphan(Apply(s, Step(i)), s.store.users[UserOf(s.calls[i])].email)
  {
    var c, me, s' := s.calls[i], UserOf(s.calls[i]), Apply(s, Step(i));
    var x := s.store.users[me].email;
    assert Entry(s.store, x, me);
    assert s'.store == s.store.(users := s.store.users[me := Written(c.op, c.seen)]) && Done(s'.calls[i]);
    hide CallStep, Written, MailOwned, MovesEmail;
    forall id | id in s'.store.users ensures s'.store.users[id].email != x {
      if id != me { assert Entry(s.store, s.store.users[id].email, id); }
    }
    forall j | 0 <= j < |s'.calls| ensures Unrelated(s'.calls[j], x) {
      assert Done(s'.calls[j]);
    }
  }

  ghost predicate Reaches(es: seq<Event>, t: State) {
    Legal(INITIAL, es) && FreshIds(INITIAL, es) && Exec(INITIAL, es) == t
  }

  lemma {:induction false} RunSnoc(s: State, es: seq<Event>, e: Event)
    requires Legal(s, es) && FreshIds(s, es) && Enabled(Exec(s, es), e) && FreshId(Exec(s, es), e)
    ensures Legal(s, es + [e]) && FreshIds(s, es + [e]) && Exec(s, es + [e]) == Apply(Exec(s, es), e)
    decreases |es|
  {
    hide Apply, Enabled, FreshId;
    if es == [] {
      assert es + [e] == [e] && Legal(Apply(s, e), []) && Exec(Apply(s, e), []) == Apply(s, e);
    } else {
      assert (es + [e])[1..] == es[1..] + [e];
      RunSnoc(Apply(s, es[0]), es[1..], e);
    }
  }

  lemma Play(es: seq<Event>, t: State, e: Event) returns (es': seq<Event>, t': State)
    requires Reaches(es, t) && Enabled(t, e) && FreshId(t, e)
    ensures es' == es + [e] && t' == Apply(t, e) && Reaches(es', t')
  {
    RunSnoc(INITIAL, es, e);
    es', t' := es + [e], Apply(t, e);
  }

  function Person(id: string, username: string, email: string): Record {
    Record(id, username, email, "", "", "", false, "", "", 0, 0)
  }

  const ANN := Person("1", "ann", "a")
  const BOB := Person("2", "bob", "a")
  const MOVE := Update(Person("1", "", "b"), 1)
  const RENAME := Update(Person("1", "", "").(displayName := "Ann"), 2)

  /** Ann is stored, and a rename of hers has loaded the record. */
  lemma AnnRenaming() returns (es: seq<Event>, t: State)
    ensures Reaches(es, t)
    ensures t.calls == [CreateCall(ANN, 0, CreateDone(true)), WriteCall(RENAME, Publish, Stamp(ANN, 0))]
    ensures t.store == Store(map["1" := Stamp(ANN, 0)], map["ann" := "1"], map["a" := "1"])
  {
    es, t := [], INITIAL;
    assert Reaches(es, t);
    hide Reaches;
    es, t := Play(es, t, Start(Create(ANN, 0)));
    es, t := Play(es, t, Step(0));
    es, t := Play(es, t, Step(0));
    es, t := Play(es, t, Step(0));
    assert t.store == Store(map["1" := Stamp(ANN, 0)], map["ann" := "1"], map["a" := "1"]);
    es, t := Play(es, t, Start(RENAME));
    es, t := Play(es, t, Step(1));
  }

  /** Meanwhile a move to another email claims the new one and drops the old. */
  lemma MoveDrops() returns (es: seq<Event>, t: State)
    ensures Reaches(es, t)
    ensures t.calls == [CreateCall(ANN, 0, CreateDone(true)), WriteCall(RENAME, Publish, Stamp(ANN, 0)),
                        WriteCall(MOVE, Publish, Stamp(ANN, 0))]
    ensures t.store.users == map["1" := Stamp(ANN, 0)] && t.store.byUsername.Keys == {"ann"} && t.store.byEmail == map["b" := "1"]
  {
    es, t := AnnRenaming();
    hide Reaches;
    es, t := Play(es, t, Start(MOVE));
    es, t := Play(es, t, Step(2));
    es, t := Play(es, t, Step(2));
    es, t := Play(es, t, Step(2));
  }

  /** The move completes: the rename is the last writer in flight, all else agrees, and its copy is stale. */
  lemma RenameIsStale() returns (es: seq<Event>, t: State)
    ensures Reaches(es, t) && |t.calls| == 3 && t.calls[0] == CreateCall(ANN, 0, CreateDone(true))
    ensures t.calls[1] == WriteCall(RENAME, Publish, Stamp(ANN, 0)) && Done(t.calls[2]) && t.calls[2].WriteCall?
    ensures t.store.users.Keys == {"1"} && t.store.users["1"].email == "b"
    ensures t.store.byUsername.Keys == {"ann"} && t.store.byEmail == map["b" := "1"]
    ensures AgreesBut(t, 1)
  {
    es, t := MoveDrops();
    hide Reaches;
    es, t := Play(es, t, Step(2));
  }

  /** Then the rename publishes the record it had loaded. */
  lemma StalePublished() returns (es: seq<Event>, t: State)
    ensures Reaches(es, t) && |t.calls| == 3 && Quiescent(t)
    ensures forall j | 0 <= j < 3 && t.calls[j].CreateCall? :: t.calls[j].u.id == "1"
    ensures t.store.users.Keys == {"1"} && t.store.users["1"].email == "a" && t.store.users["1"].status == ACTIVE
    ensures t.store.byUsername.Keys == {"ann"} && t.store.byEmail.Keys == {"b"}
  {
    es, t := RenameIsStale();
    hide Reaches;
    es, t := Play(es, t, Step(1));
  }

  lemma SharedIsNotAlone(es: seq<Event>, t: State)
    requires Reaches(es, t) && Quiescent(t)
    requires "1" in t.store.users && "2" in t.store.users && t.store.users["1"].email == t.store.users["2"].email
    ensures !MovesApart(INITIAL, es)
  {
    assert Emails(t.store.users)["1"] == Emails(t.store.users)["2"];
    if MovesApart(INITIAL, es) { EmailAgreement(es); }
  }

  /** Bob registers with the email Ann's record shows again but no longer claims. */
  lemma BobRegistered() returns (es: seq<Event>, t: State)
    ensures Reaches(es, t) && Quiescent(t)
    ensures "1" in t.store.users && t.store.users["1"].email == "a" && t.store.users["1"].status == ACTIVE
    ensures "2" in t.store.users && t.store.users["2"].email == "a" && t.store.users["2"].status == ACTIVE
  {
    es, t := StalePublished();
    hide Reaches;
    es, t := Play(es, t, Start(Create(BOB, 3)));
    assert t.calls[3] == CreateCall(BOB, 3, ClaimName);
    es, t := Play(es, t, Step(3));
    es, t := Play(es, t, Step(3));
    es, t := Play(es, t, Step(3));
  }

  /** When a move overlaps with another writer agreement fails: a run with fresh ids after which nothing is in
      flight and two active users have the same email. */
  lemma StaleWriterShares() returns (es: seq<Event>)
    ensures Legal(INITIAL, es) && FreshIds(INITIAL, es) && !MovesApart(INITIAL, es)
    ensures var s := Exec(INITIAL, es);
      && Quiescent(s) && "1" in s.store.users && "2" in s.store.users
      && s.store.users["1"].email == s.store.users["2"].email
      && s.store.users["1"].status == s.store.users["2"].status == ACTIVE
  {
    var t;
    es, t := BobRegistered();
    SharedIsNotAlone(es, t);
  }
}
