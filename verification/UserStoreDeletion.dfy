/**
  Deleted users under concurrency.  A writer publishes over the record it loaded earlier, so one that does
  not delete can bring back a user that was deleted in between.
*/
module UserStoreDeletion {
  import opened Bytes
  import opened UserTable
  import opened UserStoreConcurrent
  import opened UserStoreEmails
  import opened UserStoreSerial

  /** The operation leaves the user deleted. */
  predicate Deleting(op: Op) {
    op.Delete? || (op.Update? && op.u.status == DELETED)
  }

  predicate IsDeletedUser(s: State, id: string) {
    IsDeleted(s.store, id)
  }

  // ---------- Any run ----------

  /** Only live records are ever loaded, so every held copy was live. */
  ghost predicate HeldLive(s: State) {
    forall j | 0 <= j < |s.calls| && Holding(s.calls[j]) :: s.calls[j].seen.status != DELETED
  }

  lemma HeldLiveCall(s: Store, c: Call)
    requires !Done(c) && (Holding(c) ==> c.seen.status != DELETED)
    ensures var c' := CallStep(s, c).1; Holding(c') ==> c'.seen.status != DELETED
  {
  }

  lemma HeldLiveStep(s: State, e: Event)
    requires HeldLive(s) && Enabled(s, e)
    ensures HeldLive(Apply(s, e))
  {
    if e.Step? {
      hide CallStep, Holding;
      HeldLiveCall(s.store, s.calls[e.i]);
    } else {
      assert forall j | 0 <= j < |s.calls| :: Apply(s, e).calls[j] == s.calls[j];
    }
  }

  lemma {:induction false} HeldLiveAlways(s: State, es: seq<Event>)
    requires HeldLive(s) && Legal(s, es)
    ensures HeldLive(Exec(s, es))
    decreases |es|
  {
    hide Apply, Enabled, HeldLive;
    if es != [] {
      HeldLiveStep(s, es[0]);
      HeldLiveAlways(Apply(s, es[0]), es[1..]);
    }
  }

  /** The writer's next step publishes for the user, and its operation does not delete. */
  predicate RevivesNext(c: Call, id: string) {
    c.WriteCall? && c.pc == Publish && UserOf(c) == id && !Deleting(c.op)
  }

  lemma RevivesIff(s: State, i: nat, id: string)
    requires NamesSafe(s) && HeldLive(s) && i < |s.calls| && !Done(s.calls[i]) && IsDeletedUser(s, id)
    ensures Live(Apply(s, Step(i)).store.users, id) <==> RevivesNext(s.calls[i], id)
  {
    var c := s.calls[i];
    assert c.CreateCall? ==> c.u.id !in s.store.users;
    assert c.WriteCall? ==> !c.op.Create?;
    hide NamesSafe;
  }

  /** In every run with fresh ids: a step brings a deleted user back if and only if a writer that loaded it
      while it was live now publishes for it, and its operation is an Update that does not delete. */
  lemma DeletedReturnsIff(es: seq<Event>, e: Event, id: string)
    requires Legal(INITIAL, es) && FreshIds(INITIAL, es) && Enabled(Exec(INITIAL, es), e)
    requires IsDeletedUser(Exec(INITIAL, es), id)
    ensures var s := Exec(INITIAL, es);
      Live(Apply(s, e).store.users, id) <==> e.Step? && RevivesNext(s.calls[e.i], id)
  {
    StartsSafe();
    NamesAlways(INITIAL, es);
    HeldLiveAlways(INITIAL, es);
    hide NamesSafe, HeldLive, Exec, Legal, CallStep, RevivesNext;
    if e.Step? { RevivesIff(Exec(INITIAL, es), e.i, id); }
  }

  // ---------- When no deleting writer overlaps with another ----------

  /** A writer loads a live user only while all other writers that hold a copy of it delete as it does, or
      like it do not. */
  predicate LoadsAlike(s: State, e: Event) {
    e.Step? && e.i < |s.calls| && s.calls[e.i].WriteCall? && s.calls[e.i].pc == Load ==>
      var c := s.calls[e.i];
      Live(s.store.users, Target(c.op)) ==>
        forall j | 0 <= j < |s.calls| && Holding(s.calls[j]) && UserOf(s.calls[j]) == UserOf(c) ::
          Deleting(s.calls[j].op) == Deleting(c.op)
  }

  predicate DeletesApart(s: State, es: seq<Event>)
    requires Legal(s, es)
    decreases |es|
  {
    es == [] || (LoadsAlike(s, es[0]) && DeletesApart(Apply(s, es[0]), es[1..]))
  }

  ghost predicate HeldAlike(s: State) {
    forall j, k | 0 <= j < |s.calls| && 0 <= k < |s.calls| && Holding(s.calls[j]) && Holding(s.calls[k])
      && UserOf(s.calls[j]) == UserOf(s.calls[k]) :: Deleting(s.calls[j].op) == Deleting(s.calls[k].op)
  }

  /** Whoever holds a copy and does not delete works on a user that is still live. */
  predicate KeeperLive(s: Store, c: Call) {
    Holding(c) && !Deleting(c.op) ==> Live(s.users, UserOf(c))
  }

  ghost predicate DeleteSafe(s: State) {
    && HeldLive(s) && HeldAlike(s)
    && forall j | 0 <= j < |s.calls| :: KeeperLive(s.store, s.calls[j])
  }

  lemma HeldAlikeStep(s: State, e: Event)
    requires HeldAlike(s) && Enabled(s, e) && LoadsAlike(s, e)
    ensures HeldAlike(Apply(s, e))
  {
    if e.Step? {
      hide CallStep, Holding, Deleting, Live;
      SameOperation(s.store, s.calls[e.i]);
    } else {
      assert forall j | 0 <= j < |s.calls| :: Apply(s, e).calls[j] == s.calls[j];
      assert !Holding(Apply(s, e).calls[|s.calls|]);
    }
  }

  lemma SameOperation(s: Store, c: Call)
    requires !Done(c)
    ensures var c' := CallStep(s, c).1;
      && UserOf(c') == UserOf(c)
      && (Holding(c') ==> c.WriteCall? && c'.op == c.op)
      && (Holding(c') && !Holding(c) ==> c.pc == Load && Live(s.users, Target(c.op)))
  {
  }

  /** One step: its own user, if the caller does not delete, stays live; everybody else's record stays. */
  lemma KeeperStep(s: Store, c: Call)
    requires !Done(c) && KeeperLive(s, c) && (Holding(c) ==> c.seen.status != DELETED)
    requires c.CreateCall? ==> c.u.id !in s.users
    requires c.WriteCall? ==> !c.op.Create?
    ensures var (s', c') := CallStep(s, c);
      && KeeperLive(s', c')
      && (forall id | id in s.users && id != UserOf(c) :: id in s'.users && s'.users[id] == s.users[id])
      && (UserOf(c) in s.users ==> UserOf(c) in s'.users)
      && (Holding(c) && !Deleting(c.op) ==> Live(s'.users, UserOf(c)))
      && (!Holding(c) ==> forall id | id in s.users :: s'.users[id] == s.users[id])
      && (IsDeleted(s, UserOf(c)) ==> IsDeleted(s', UserOf(c)))
  {
  }

  lemma DeleteSafeStep(s: State, e: Event)
    requires NamesSafe(s) && DeleteSafe(s) && Enabled(s, e) && LoadsAlike(s, e)
    ensures DeleteSafe(Apply(s, e))
    ensures forall id | IsDeletedUser(s, id) :: IsDeletedUser(Apply(s, e), id)
  {
    var s' := Apply(s, e);
    HeldLiveStep(s, e);
    HeldAlikeStep(s, e);
    match e
    case Start(op) =>
      assert forall j | 0 <= j < |s.calls| :: s'.calls[j] == s.calls[j];
    case Step(i) =>
      var c := s.calls[i];
      assert KeeperLive(s.store, c);
      assert c.CreateCall? ==> c.u.id !in s.store.users;
      assert c.WriteCall? ==> !c.op.Create?;
      hide NamesSafe, CallStep;
      KeeperStep(s.store, c);
      forall j | 0 <= j < |s.calls| && j != i ensures KeeperLive(s'.store, s.calls[j]) {
        assert KeeperLive(s.store, s.calls[j]);
      }
  }

  lemma {:induction false} DeleteSafeAlways(s: State, es: seq<Event>)
    requires NamesSafe(s) && DeleteSafe(s) && Legal(s, es) && FreshIds(s, es) && DeletesApart(s, es)
    ensures NamesSafe(Exec(s, es)) && DeleteSafe(Exec(s, es))
    ensures forall id | IsDeletedUser(s, id) :: IsDeletedUser(Exec(s, es), id)
    decreases |es|
  {
    hide Apply, Enabled, NamesSafe, DeleteSafe, FreshId, LoadsAlike, IsDeletedUser;
    if es != [] {
      NamesStep(s, es[0]);
      DeleteSafeStep(s, es[0]);
      DeleteSafeAlways(Apply(s, es[0]), es[1..]);
    }
  }

  /** In every run with fresh ids in which no writer that deletes a user holds a copy of it together with one
      that does not: a deleted user stays deleted, whatever else overlaps. */
  lemma DeletedStaysDeleted(es: seq<Event>, more: seq<Event>, id: string)
    requires Legal(INITIAL, es) && FreshIds(INITIAL, es) && DeletesApart(INITIAL, es)
    requires var s := Exec(INITIAL, es); Legal(s, more) && FreshIds(s, more) && DeletesApart(s, more) && IsDeletedUser(s, id)
    ensures IsDeletedUser(Exec(Exec(INITIAL, es), more), id)
  {
    hide Legal, Exec, FreshIds, DeletesApart, NamesSafe, DeleteSafe;
    StartsDeleteSafe();
    DeleteSafeAlways(INITIAL, es);
    DeleteSafeAlways(Exec(INITIAL, es), more);
  }

  lemma StartsDeleteSafe()
    ensures NamesSafe(INITIAL) && DeleteSafe(INITIAL)
  {
  }

  // ---------- One writer at a time ----------

  lemma DeletedStep(s: State, e: Event, id: string)
    requires NamesSafe(s) && Writers(s) && Enabled(s, e) && IsDeletedUser(s, id)
    ensures id in Apply(s, e).store.users && Apply(s, e).store.users[id] == s.store.users[id]
  {
    if e.Step? {
      var c := s.calls[e.i];
      assert SeenStored(s.store, c);
      assert c.CreateCall? ==> c.u.id !in s.store.users;
      hide NamesSafe, UniqueWriters;
    }
  }

  /** With one writer per user at a time a deleted user's record never changes again. */
  lemma {:induction false} DeletedRecordFixed(s: State, es: seq<Event>, id: string)
    requires NamesSafe(s) && Writers(s) && Legal(s, es) && FreshIds(s, es) && OneWriterEach(s, es) && IsDeletedUser(s, id)
    ensures id in Exec(s, es).store.users && Exec(s, es).store.users[id] == s.store.users[id]
    decreases |es|
  {
    hide Apply, Enabled, NamesSafe, Writers, FreshId, OneWriter;
    if es != [] {
      DeletedStep(s, es[0], id);
      NamesStep(s, es[0]);
      WritersStep(s, es[0]);
      DeletedRecordFixed(Apply(s, es[0]), es[1..], id);
    }
  }

  // ---------- A user that comes back ----------

  const REMOVE := Delete("1", 1)

  lemma RemovedMeanwhile() returns (es: seq<Event>, t: State)
    ensures Reaches(es, t)
    ensures t.calls == [CreateCall(ANN, 0, CreateDone(true)), WriteCall(RENAME, Publish, Stamp(ANN, 0)),
                        WriteCall(REMOVE, WriteDone(true), Stamp(ANN, 0))]
    ensures t.store.users == map["1" := MarkDeleted(Stamp(ANN, 0), 1)]
  {
    es, t := AnnRenaming();
    hide Reaches;
    es, t := Play(es, t, Start(REMOVE));
    es, t := Play(es, t, Step(2));
    es, t := Play(es, t, Step(2));
  }

  lemma {:induction false} ApartBefore(s: State, es: seq<Event>, e: Event)
    requires Legal(s, es) && Legal(s, es + [e]) && DeletesApart(s, es + [e])
    ensures DeletesApart(s, es) && Enabled(Exec(s, es), e) && LoadsAlike(Exec(s, es), e)
    decreases |es|
  {
    hide Apply, Enabled, LoadsAlike;
    if es == [] {
      assert es + [e] == [e];
    } else {
      assert (es + [e])[1..] == es[1..] + [e];
      ApartBefore(Apply(s, es[0]), es[1..], e);
    }
  }

  /** A deleted user is back only after a deleting writer has overlapped with another. */
  lemma BackFromDeletion(es: seq<Event>, t: State, e: Event, id: string)
    requires Reaches(es, t) && Enabled(t, e) && Reaches(es + [e], Apply(t, e))
    requires IsDeletedUser(t, id) && !IsDeletedUser(Apply(t, e), id)
    ensures !DeletesApart(INITIAL, es + [e])
  {
    hide Legal, Exec, FreshIds, DeletesApart, NamesSafe, DeleteSafe, Enabled, Apply, LoadsAlike, IsDeletedUser;
    if DeletesApart(INITIAL, es + [e]) {
      ApartBefore(INITIAL, es, e);
      StartsDeleteSafe();
      DeleteSafeAlways(INITIAL, es);
      DeleteSafeStep(t, e);
    }
  }

  /** A rename that has loaded the record publishes it after a Delete has succeeded, and the user is active
      again. */
  lemma DeletedUserReturns() returns (es: seq<Event>)
    ensures Legal(INITIAL, es) && FreshIds(INITIAL, es) && !DeletesApart(INITIAL, es) && Quiescent(Exec(INITIAL, es))
    ensures var s := Exec(INITIAL, es);
      |s.calls| == 3 && OpOf(s.calls[2]) == REMOVE && Succeeded(s.calls[2]) && Live(s.store.users, "1")
  {
    var before, t0 := RemovedMeanwhile();
    var t;
    es, t := Play(before, t0, Step(1));
    BackFromDeletion(before, t0, Step(1), "1");
    hide Reaches;
    assert Live(t.store.users, "1") && t.calls[2] == WriteCall(REMOVE, WriteDone(true), Stamp(ANN, 0));
  }
}
