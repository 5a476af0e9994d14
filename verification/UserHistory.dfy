/**
  What a whole run of store operations determines: who can log in, and who counts as online.
*/
module UserHistory {
  import opened Bytes
  import opened UserTable

  /** The i-th operation of a run from s was a Create that succeeded. */
  predicate Created(s: Store, ops: seq<Op>, i: nat) {
    i < |ops| == |Results(s, ops)| && ops[i].Create? && Results(s, ops)[i] == None
  }

  lemma {:induction false} ResultsLength(s: Store, ops: seq<Op>)
    ensures |Results(s, ops)| == |ops|
    decreases |ops|
  {
    if ops != [] { ResultsLength(Effect(s, ops[0]).0, ops[1..]); }
  }

  /** Results after the first operation are those of the remaining run. */
  lemma LaterResults(s: Store, ops: seq<Op>)
    requires ops != []
    ensures |Results(s, ops)| == |ops| && |Results(Effect(s, ops[0]).0, ops[1..])| == |ops| - 1
    ensures Results(s, ops)[0] == Effect(s, ops[0]).1
    ensures forall i | 0 < i < |ops| :: Results(s, ops)[i] == Results(Effect(s, ops[0]).0, ops[1..])[i - 1]
    ensures forall i: nat | 0 < i < |ops| :: Created(s, ops, i) <==> Created(Effect(s, ops[0]).0, ops[1..], i - 1)
  {
    ResultsLength(s, ops);
    ResultsLength(Effect(s, ops[0]).0, ops[1..]);
  }

  predicate SameAccount(r: Record, username: string, passwordHash: string) {
    r.username == username && r.passwordHash == passwordHash
  }

  /** No operation changes a stored username or password, or removes a stored id. */
  lemma StepKeepsAccounts(s: Store, op: Op, id: string)
    requires KeepsIds(s, op) && id in s.users
    ensures id in Effect(s, op).0.users
    ensures SameAccount(Effect(s, op).0.users[id], s.users[id].username, s.users[id].passwordHash)
  {
  }

  lemma {:induction false} RunKeepsAccounts(s: Store, ops: seq<Op>, id: string)
    requires NoReuse(s, ops) && id in s.users
    ensures id in Run(s, ops).users
    ensures SameAccount(Run(s, ops).users[id], s.users[id].username, s.users[id].passwordHash)
    decreases |ops|
  {
    if ops != [] {
      StepKeepsAccounts(s, ops[0], id);
      RunKeepsAccounts(Effect(s, ops[0]).0, ops[1..], id);
    }
  }

  /** A created account is there for good, with the username and password it was created with. */
  lemma {:induction false} CreatedIsKept(s: Store, ops: seq<Op>, i: nat)
    requires NoReuse(s, ops) && Created(s, ops, i)
    ensures ops[i].u.id in Run(s, ops).users
    ensures SameAccount(Run(s, ops).users[ops[i].u.id], ops[i].u.username, ops[i].u.passwordHash)
    decreases |ops|
  {
    hide Effect, KeepsIds;
    LaterResults(s, ops);
    if i == 0 {
      CreateStores(s, ops[0]);
      RunKeepsAccounts(Effect(s, ops[0]).0, ops[1..], ops[0].u.id);
    } else {
      CreatedIsKept(Effect(s, ops[0]).0, ops[1..], i - 1);
    }
  }

  lemma CreateStores(s: Store, op: Op)
    requires op.Create? && Effect(s, op).1 == None
    ensures op.u.id in Effect(s, op).0.users
    ensures SameAccount(Effect(s, op).0.users[op.u.id], op.u.username, op.u.passwordHash)
  {
  }

  lemma OneStepOrigin(s: Store, op: Op, id: string)
    requires KeepsIds(s, op) && id in Effect(s, op).0.users && id !in s.users
    ensures op.Create? && Effect(s, op).1 == None && op.u.id == id
  {
  }

  /** Every account that a run adds was added by one of its successful Creates. */
  lemma {:induction false} AccountOrigin(s: Store, ops: seq<Op>, id: string) returns (i: nat)
    requires NoReuse(s, ops) && id in Run(s, ops).users && id !in s.users
    ensures Created(s, ops, i) && ops[i].u.id == id
    decreases |ops|
  {
    hide Effect, KeepsIds;
    LaterResults(s, ops);
    if id in Effect(s, ops[0]).0.users {
      OneStepOrigin(s, ops[0], id);
      i := 0;
    } else {
      i := AccountOrigin(Effect(s, ops[0]).0, ops[1..], id);
      i := i + 1;
    }
  }

  // ---------- Credentials ----------

  datatype Credential = Verified(user: Record) | InvalidCredentials | UserDisabled

  /** UserService.VerifyCredentials on the store's state; passwords are compared as stored. */
  function Verify(s: Store, username: string, password: string): Credential {
    match GetByUsername(s, username)
    case None => InvalidCredentials
    case Some(u) =>
      if u.status != ACTIVE then UserDisabled
      else if u.passwordHash != password then InvalidCredentials
      else Verified(u)
  }

  /** The three outcomes, by a scan for the username among the users that are not deleted. */
  lemma VerifyOutcomes(s: Store, x: string, password: string)
    requires Agree(s)
    ensures forall id | LiveWithUsername(s.users, id, x) :: Verify(s, x, password) ==
              if s.users[id].status != "active" then UserDisabled
              else if s.users[id].passwordHash == password then Verified(s.users[id])
              else InvalidCredentials
    ensures !(exists id :: LiveWithUsername(s.users, id, x)) ==> Verify(s, x, password) == InvalidCredentials
  {
    IndexedBy(s);
    hide Agree;
    if GetByUsername(s, x).Some? { assert LiveWithUsername(s.users, s.byUsername[x], x); }
  }

  lemma EmptyAgrees()
    ensures Agree(EMPTY)
  {
  }

  /** After any run that reuses no id, a username and password are accepted exactly when some successful
      Create had them and that user's status is now active. */
  lemma CredentialsFollowHistory(ops: seq<Op>, username: string, password: string)
    requires NoReuse(EMPTY, ops)
    ensures var s := Run(EMPTY, ops);
      Verify(s, username, password).Verified? <==>
        exists i: nat :: Created(EMPTY, ops, i) && ops[i].u.username == username && ops[i].u.passwordHash == password
                 && ops[i].u.id in s.users && s.users[ops[i].u.id].status == ACTIVE
  {
    var s := Run(EMPTY, ops);
    EmptyAgrees();
    RunRefinesTable(EMPTY, ops);
    IndexedBy(s);
    hide Agree, Run, NoReuse, Results;
    if Verify(s, username, password).Verified? {
      var id := s.byUsername[username];
      var i := AccountOrigin(EMPTY, ops, id);
      CreatedIsKept(EMPTY, ops, i);
    }
    forall i: nat | Created(EMPTY, ops, i) && ops[i].u.username == username && ops[i].u.passwordHash == password
            && ops[i].u.id in s.users && s.users[ops[i].u.id].status == ACTIVE
      ensures Verify(s, username, password).Verified?
    {
      CreatedIsKept(EMPTY, ops, i);
      assert s.byUsername[s.users[ops[i].u.id].username] == ops[i].u.id;
    }
  }

  // ---------- Fields ----------

  datatype Field =
    | Username | Email | PasswordHash | DisplayName | Status | IsOnline
    | ExternalID | SourceSystem | CreatedAt | UpdatedAt

  datatype Setting = Text(text: string) | Flag(on: bool) | Time(at: int)

  function FieldOf(r: Record, f: Field): Setting {
    match f
    case Username => Text(r.username)
    case Email => Text(r.email)
    case PasswordHash => Text(r.passwordHash)
    case DisplayName => Text(r.displayName)
    case Status => Text(r.status)
    case IsOnline => Flag(r.isOnline)
    case ExternalID => Text(r.externalID)
    case SourceSystem => Text(r.sourceSystem)
    case CreatedAt => Time(r.createdAt)
    case UpdatedAt => Time(r.updatedAt)
  }

  /** The operation sets the field of that user, if it succeeds: Create all of them; Update the email, the
      display name and the status where it is given one, and always presence; Delete the status. */
  predicate Sets(op: Op, f: Field, id: string) {
    match op
    case Create(u, _) => u.id == id
    case Update(u, _) =>
      && u.id == id
      && (f == IsOnline || f == UpdatedAt || (f == Email && u.email != "") || (f == DisplayName && u.displayName != "")
          || (f == Status && u.status != ""))
    case Delete(id', _) => id' == id && (f == Status || f == UpdatedAt)
  }

  /** What it sets it to. */
  function Given(op: Op, f: Field): Setting {
    if f == CreatedAt || f == UpdatedAt then Time(op.now)
    else if op.Delete? then Text("deleted")
    else if f == Status && op.u.status == "" then Text("active")
    else FieldOf(op.u, f)
  }

  /** i is the last operation of the run that successfully set the user's field. */
  predicate LastSet(s: Store, ops: seq<Op>, f: Field, id: string, i: nat) {
    && i < |ops| == |Results(s, ops)|
    && Sets(ops[i], f, id) && Results(s, ops)[i] == None
    && forall j | i < j < |ops| && Sets(ops[j], f, id) :: Results(s, ops)[j] != None
  }

  predicate NeverSet(s: Store, ops: seq<Op>, f: Field, id: string) {
    && |ops| == |Results(s, ops)|
    && forall j | 0 <= j < |ops| && Sets(ops[j], f, id) :: Results(s, ops)[j] != None
  }

  lemma StepSets(s: Store, op: Op, f: Field, id: string)
    ensures id in s.users ==> id in Effect(s, op).0.users
    ensures Sets(op, f, id) && Effect(s, op).1 == None ==>
              id in Effect(s, op).0.users && FieldOf(Effect(s, op).0.users[id], f) == Given(op, f)
    ensures !(Sets(op, f, id) && Effect(s, op).1 == None) ==>
              (id in Effect(s, op).0.users ==> id in s.users && FieldOf(Effect(s, op).0.users[id], f) == FieldOf(s.users[id], f))
  {
    hide CreateEffect, UpdateEffect, DeleteEffect;
    if Effect(s, op).1 != None {
      FailureChangesNothing(s, op);
    } else {
      match op
      case Create(u, now) => CreateSets(s, u, now);
      case Update(u, now) => UpdateSets(s, u, now);
      case Delete(id', now) => DeleteSets(s, id', now);
    }
  }

  lemma {:induction false} FieldAfter(s: Store, ops: seq<Op>, f: Field, id: string)
    requires id in Run(s, ops).users
    ensures NeverSet(s, ops, f, id) ==> id in s.users && FieldOf(Run(s, ops).users[id], f) == FieldOf(s.users[id], f)
    ensures forall i: nat | LastSet(s, ops, f, id, i) :: FieldOf(Run(s, ops).users[id], f) == Given(ops[i], f)
    ensures NeverSet(s, ops, f, id) || exists i: nat :: LastSet(s, ops, f, id, i)
    decreases |ops|
  {
    ResultsLength(s, ops);
    if ops != [] {
      hide Effect, LastSet, NeverSet, Sets, FieldOf, Given;
      var s1, rest := Effect(s, ops[0]).0, ops[1..];
      StepSets(s, ops[0], f, id);
      FieldAfter(s1, rest, f, id);
      if NeverSet(s1, rest, f, id) {
        ShiftNeverSet(s, ops, f, id);
      } else {
        var i: nat :| LastSet(s1, rest, f, id, i);
        WithinRun(s1, rest, f, id, i);
        ShiftLast(s, ops, f, id, i + 1);
        assert LastSet(s, ops, f, id, i + 1);
      }
      forall i: nat | LastSet(s, ops, f, id, i)
        ensures FieldOf(Run(s, ops).users[id], f) == Given(ops[i], f)
      {
        WithinRun(s, ops, f, id, i);
        if i > 0 {
          ShiftLast(s, ops, f, id, i);
          assert rest[i - 1] == ops[i];
        } else {
          ShiftFirst(s, ops, f, id);
        }
      }
      if NeverSet(s, ops, f, id) { ShiftFirst(s, ops, f, id); }
    }
  }

  lemma WithinRun(s: Store, ops: seq<Op>, f: Field, id: string, i: nat)
    requires LastSet(s, ops, f, id, i)
    ensures i < |ops| && Sets(ops[i], f, id)
    ensures i == 0 ==> Effect(s, ops[0]).1 == None
  {
    LaterResults(s, ops);
  }

  lemma ShiftLast(s: Store, ops: seq<Op>, f: Field, id: string, i: nat)
    requires 0 < i < |ops|
    ensures LastSet(s, ops, f, id, i) <==> LastSet(Effect(s, ops[0]).0, ops[1..], f, id, i - 1)
  {
    hide Effect;
    LaterResults(s, ops);
    var rest, res := ops[1..], Results(Effect(s, ops[0]).0, ops[1..]);
    assert forall j | 0 < j < |ops| :: ops[j] == rest[j - 1] && Results(s, ops)[j] == res[j - 1];
    assert forall j | 0 <= j < |rest| :: rest[j] == ops[j + 1] && res[j] == Results(s, ops)[j + 1];
  }

  lemma ShiftFirst(s: Store, ops: seq<Op>, f: Field, id: string)
    requires ops != [] && (LastSet(s, ops, f, id, 0) || NeverSet(s, ops, f, id))
    ensures NeverSet(Effect(s, ops[0]).0, ops[1..], f, id)
    ensures NeverSet(s, ops, f, id) ==> !(Sets(ops[0], f, id) && Effect(s, ops[0]).1 == None)
  {
    hide Effect;
    LaterResults(s, ops);
    var rest, res := ops[1..], Results(Effect(s, ops[0]).0, ops[1..]);
    assert forall j | 0 <= j < |rest| :: rest[j] == ops[j + 1] && res[j] == Results(s, ops)[j + 1];
  }

  lemma ShiftNeverSet(s: Store, ops: seq<Op>, f: Field, id: string)
    requires ops != [] && NeverSet(Effect(s, ops[0]).0, ops[1..], f, id)
    ensures NeverSet(s, ops, f, id) || LastSet(s, ops, f, id, 0)
  {
    hide Effect;
    LaterResults(s, ops);
    var rest, res := ops[1..], Results(Effect(s, ops[0]).0, ops[1..]);
    assert forall j | 0 < j < |ops| :: ops[j] == rest[j - 1] && Results(s, ops)[j] == res[j - 1];
  }

  /** Whatever the run: each field of a stored user has the value given by the last of its successful
      operations that set the field, and there is one. */
  lemma RecordFollowsHistory(ops: seq<Op>, id: string, f: Field)
    requires id in Run(EMPTY, ops).users
    ensures exists i: nat :: LastSet(EMPTY, ops, f, id, i)
    ensures forall i: nat | LastSet(EMPTY, ops, f, id, i) :: FieldOf(Run(EMPTY, ops).users[id], f) == Given(ops[i], f)
  {
    FieldAfter(EMPTY, ops, f, id);
  }

  function OnlineIds(s: Store): set<string> {
    set id | id in s.users && Live(s.users, id) && s.users[id].isOnline
  }

  /** The users counted as online are the live ones whose last successful Create or Update said so. */
  lemma OnlineFollowsHistory(ops: seq<Op>, id: string)
    ensures var s := Run(EMPTY, ops);
      id in OnlineIds(s) <==>
        Live(s.users, id) && exists i: nat :: LastSet(EMPTY, ops, IsOnline, id, i) && ops[i].u.isOnline
  {
    var s := Run(EMPTY, ops);
    if Live(s.users, id) {
      FieldAfter(EMPTY, ops, IsOnline, id);
      hide Run, Results;
      assert forall i: nat | LastSet(EMPTY, ops, IsOnline, id, i) :: Given(ops[i], IsOnline) == Flag(ops[i].u.isOnline);
    }
  }
}
