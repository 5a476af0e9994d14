/**
  The in-memory user store on values: three maps, the effect of each operation on them, and the plain
  table with linear scans that they implement.
*/
module UserTable {
  import opened Bytes

  datatype Record = Record(
    id: string, username: string, email: string, passwordHash: string, displayName: string,
    status: string, isOnline: bool, externalID: string, sourceSystem: string,
    createdAt: int, updatedAt: int)

  const ACTIVE := "active"
  const DELETED := "deleted"

  datatype Err = UserNotFound | UserAlreadyExists

  datatype Store = Store(users: map<string, Record>, byUsername: map<string, string>, byEmail: map<string, string>)

  const EMPTY := Store(map[], map[], map[])

  /** What Create writes into the record it is given, before cloning it. */
  function Stamp(u: Record, now: int): Record {
    u.(createdAt := now, updatedAt := now, status := if u.status == "" then ACTIVE else u.status)
  }

  /** The record Update publishes over an existing one: empty fields keep their value, isOnline always moves. */
  function Merge(existing: Record, u: Record, now: int): Record {
    existing.(
      email := if ClaimsEmail(existing, u) then u.email else existing.email,
      displayName := if u.displayName != "" then u.displayName else existing.displayName,
      status := if u.status != "" then u.status else existing.status,
      isOnline := u.isOnline,
      updatedAt := now)
  }

  predicate ClaimsEmail(existing: Record, u: Record) {
    u.email != "" && u.email != existing.email
  }

  function MarkDeleted(existing: Record, now: int): Record {
    existing.(status := DELETED, updatedAt := now)
  }

  // ---------- Effects on the three maps ----------

  function CreateEffect(s: Store, u: Record, now: int): (Store, Option<Err>) {
    if u.username in s.byUsername then (s, Some(UserAlreadyExists))
    else if u.email in s.byEmail then
      // the username claim is rolled back
      (s.(byUsername := s.byUsername[u.username := u.id] - {u.username}), Some(UserAlreadyExists))
    else
      (Store(s.users[u.id := Stamp(u, now)], s.byUsername[u.username := u.id], s.byEmail[u.email := u.id]), None)
  }

  predicate Live(users: map<string, Record>, id: string) {
    id in users && users[id].status != DELETED
  }

  function UpdateEffect(s: Store, u: Record, now: int): (Store, Option<Err>) {
    if !Live(s.users, u.id) then (s, Some(UserNotFound))
    else
      var existing := s.users[u.id];
      if ClaimsEmail(existing, u) then
        if u.email in s.byEmail then (s, Some(UserAlreadyExists))
        else
          (s.(users := s.users[u.id := Merge(existing, u, now)],
              byEmail := s.byEmail[u.email := u.id] - {existing.email}), None)
      else (s.(users := s.users[u.id := Merge(existing, u, now)]), None)
  }

  function DeleteEffect(s: Store, id: string, now: int): (Store, Option<Err>) {
    if !Live(s.users, id) then (s, Some(UserNotFound))
    else (s.(users := s.users[id := MarkDeleted(s.users[id], now)]), None)
  }

  function GetByID(s: Store, id: string): Option<Record> {
    if Live(s.users, id) then Some(s.users[id]) else None
  }

  function GetByUsername(s: Store, username: string): Option<Record> {
    if username in s.byUsername then GetByID(s, s.byUsername[username]) else None
  }

  function GetByEmail(s: Store, email: string): Option<Record> {
    if email in s.byEmail then GetByID(s, s.byEmail[email]) else None
  }

  // ---------- The table ----------

  type Table = map<string, Record>

  ghost predicate UsernameTaken(t: Table, x: string) { exists id :: id in t && t[id].username == x }

  ghost predicate EmailTaken(t: Table, x: string) { exists id :: id in t && t[id].email == x }

  ghost function TableCreate(t: Table, u: Record, now: int): (Table, Option<Err>) {
    if UsernameTaken(t, u.username) || EmailTaken(t, u.email) then (t, Some(UserAlreadyExists))
    else (t[u.id := Stamp(u, now)], None)
  }

  ghost function TableUpdate(t: Table, u: Record, now: int): (Table, Option<Err>) {
    if !Live(t, u.id) then (t, Some(UserNotFound))
    else if ClaimsEmail(t[u.id], u) && EmailTaken(t, u.email) then (t, Some(UserAlreadyExists))
    else (t[u.id := Merge(t[u.id], u, now)], None)
  }

  ghost function TableDelete(t: Table, id: string, now: int): (Table, Option<Err>) {
    if !Live(t, id) then (t, Some(UserNotFound)) else (t[id := MarkDeleted(t[id], now)], None)
  }

  // ---------- Operations and runs ----------

  datatype Op = Create(u: Record, now: int) | Update(u: Record, now: int) | Delete(id: string, now: int)

  function Effect(s: Store, op: Op): (Store, Option<Err>) {
    match op
    case Create(u, now) => CreateEffect(s, u, now)
    case Update(u, now) => UpdateEffect(s, u, now)
    case Delete(id, now) => DeleteEffect(s, id, now)
  }

  ghost function TableEffect(t: Table, op: Op): (Table, Option<Err>) {
    match op
    case Create(u, now) => TableCreate(t, u, now)
    case Update(u, now) => TableUpdate(t, u, now)
    case Delete(id, now) => TableDelete(t, id, now)
  }

  function Run(s: Store, ops: seq<Op>): Store
    decreases |ops|
  {
    if ops == [] then s else Run(Effect(s, ops[0]).0, ops[1..])
  }

  function Results(s: Store, ops: seq<Op>): seq<Option<Err>>
    decreases |ops|
  {
    if ops == [] then [] else [Effect(s, ops[0]).1] + Results(Effect(s, ops[0]).0, ops[1..])
  }

  ghost function TableRun(t: Table, ops: seq<Op>): Table
    decreases |ops|
  {
    if ops == [] then t else TableRun(TableEffect(t, ops[0]).0, ops[1..])
  }

  ghost function TableResults(t: Table, ops: seq<Op>): seq<Option<Err>>
    decreases |ops|
  {
    if ops == [] then [] else [TableEffect(t, ops[0]).1] + TableResults(TableEffect(t, ops[0]).0, ops[1..])
  }

  /** The operation does not store a new user under an id that is already in use. */
  predicate KeepsIds(s: Store, op: Op) {
    op.Create? && Effect(s, op).1 == None ==> op.u.id !in s.users
  }

  predicate NoReuse(s: Store, ops: seq<Op>)
    decreases |ops|
  {
    ops == [] || (KeepsIds(s, ops[0]) && NoReuse(Effect(s, ops[0]).0, ops[1..]))
  }

  // ---------- The indexes are the inverses of their columns ----------

  /** idx maps exactly the values of the column back to their ids; so no value occurs twice. */
  ghost predicate Inverse(column: map<string, string>, idx: map<string, string>) {
    && (forall id | id in column :: column[id] in idx && idx[column[id]] == id)
    && (forall x | x in idx :: idx[x] in column && column[idx[x]] == x)
  }

  function Usernames(t: Table): map<string, string> { map id | id in t :: t[id].username }

  function Emails(t: Table): map<string, string> { map id | id in t :: t[id].email }

  ghost predicate Agree(s: Store) {
    && Inverse(Usernames(s.users), s.byUsername)
    && Inverse(Emails(s.users), s.byEmail)
    && (forall id | id in s.users :: s.users[id].id == id)
  }

  lemma InverseAdd(column: map<string, string>, idx: map<string, string>, id: string, x: string)
    requires Inverse(column, idx) && id !in column && x !in idx
    ensures Inverse(column[id := x], idx[x := id])
  {
  }

  lemma InverseMove(column: map<string, string>, idx: map<string, string>, id: string, y: string)
    requires Inverse(column, idx) && id in column && y !in idx
    ensures Inverse(column[id := y], idx[y := id] - {column[id]})
  {
  }

  lemma ColumnsAfter(t: Table, id: string, r: Record)
    ensures Usernames(t[id := r]) == Usernames(t)[id := r.username]
    ensures Emails(t[id := r]) == Emails(t)[id := r.email]
  {
  }

  /** A failed operation leaves all three maps exactly as they were, the rolled-back claim included. */
  lemma FailureChangesNothing(s: Store, op: Op)
    requires Effect(s, op).1 != None
    ensures Effect(s, op).0 == s
  {
    if op.Create? && op.u.username !in s.byUsername {
      assert s.byUsername[op.u.username := op.u.id] - {op.u.username} == s.byUsername;
    }
  }

  lemma TakenIsIndexed(s: Store, x: string)
    requires Agree(s)
    ensures x in s.byUsername <==> UsernameTaken(s.users, x)
    ensures x in s.byEmail <==> EmailTaken(s.users, x)
  {
    if x in s.byUsername { assert Usernames(s.users)[s.byUsername[x]] == x; }
    if x in s.byEmail { assert Emails(s.users)[s.byEmail[x]] == x; }
    if UsernameTaken(s.users, x) {
      var id :| id in s.users && s.users[id].username == x;
      assert Usernames(s.users)[id] == x;
    }
    if EmailTaken(s.users, x) {
      var id :| id in s.users && s.users[id].email == x;
      assert Emails(s.users)[id] == x;
    }
  }

  lemma CreateRefines(s: Store, u: Record, now: int)
    requires Agree(s) && KeepsIds(s, Create(u, now))
    ensures (CreateEffect(s, u, now).0.users, CreateEffect(s, u, now).1) == TableCreate(s.users, u, now)
    ensures Agree(CreateEffect(s, u, now).0)
  {
    TakenIsIndexed(s, u.username);
    TakenIsIndexed(s, u.email);
    hide UsernameTaken, EmailTaken;
    if CreateEffect(s, u, now).1 != None {
      FailureChangesNothing(s, Create(u, now));
    } else {
      InverseAdd(Usernames(s.users), s.byUsername, u.id, u.username);
      InverseAdd(Emails(s.users), s.byEmail, u.id, u.email);
      ColumnsAfter(s.users, u.id, Stamp(u, now));
      hide Inverse, Usernames, Emails;
    }
  }

  /** Publishing over a stored record without moving its names. */
  lemma SameColumns(t: Table, id: string, r: Record)
    requires id in t && r.username == t[id].username && r.email == t[id].email
    ensures Usernames(t[id := r]) == Usernames(t) && Emails(t[id := r]) == Emails(t)
  {
  }

  lemma UpdateRefines(s: Store, u: Record, now: int)
    requires Agree(s)
    ensures (UpdateEffect(s, u, now).0.users, UpdateEffect(s, u, now).1) == TableUpdate(s.users, u, now)
    ensures Agree(UpdateEffect(s, u, now).0)
  {
    TakenIsIndexed(s, u.email);
    hide UsernameTaken, EmailTaken;
    if UpdateEffect(s, u, now).1 == None {
      var r := Merge(s.users[u.id], u, now);
      ColumnsAfter(s.users, u.id, r);
      assert Usernames(s.users)[u.id := r.username] == Usernames(s.users);
      if ClaimsEmail(s.users[u.id], u) {
        InverseMove(Emails(s.users), s.byEmail, u.id, u.email);
      } else {
        SameColumns(s.users, u.id, r);
      }
      hide Inverse, Usernames, Emails;
    }
  }

  lemma DeleteRefines(s: Store, id: string, now: int)
    requires Agree(s)
    ensures Agree(DeleteEffect(s, id, now).0)
  {
    if Live(s.users, id) {
      SameColumns(s.users, id, MarkDeleted(s.users[id], now));
      hide Inverse, Usernames, Emails;
    }
  }

  lemma StepRefines(s: Store, op: Op)
    requires Agree(s) && KeepsIds(s, op)
    ensures (Effect(s, op).0.users, Effect(s, op).1) == TableEffect(s.users, op)
    ensures Agree(Effect(s, op).0)
  {
    match op
    case Create(u, now) => CreateRefines(s, u, now);
    case Update(u, now) => UpdateRefines(s, u, now);
    case Delete(id, now) => DeleteRefines(s, id, now);
  }

  /** Over every run that reuses no id, the three maps behave as the table with linear scans: the same
      results and the same contents, and both indexes stay the inverses of their columns. */
  lemma {:induction false} RunRefinesTable(s: Store, ops: seq<Op>)
    requires Agree(s) && NoReuse(s, ops)
    ensures Run(s, ops).users == TableRun(s.users, ops)
    ensures Results(s, ops) == TableResults(s.users, ops)
    ensures Agree(Run(s, ops))
    decreases |ops|
  {
    hide Effect, TableEffect, Agree, KeepsIds;
    if ops != [] {
      StepRefines(s, ops[0]);
      RunRefinesTable(Effect(s, ops[0]).0, ops[1..]);
    }
  }

  lemma {:induction false} RunAppend(t: Store, xs: seq<Op>, ys: seq<Op>)
    ensures Run(t, xs + ys) == Run(Run(t, xs), ys)
    ensures Results(t, xs + ys) == Results(t, xs) + Results(Run(t, xs), ys)
    ensures NoReuse(t, xs) && NoReuse(Run(t, xs), ys) ==> NoReuse(t, xs + ys)
    decreases |xs|
  {
    hide Effect, KeepsIds;
    if xs == [] {
      assert xs + ys == ys;
    } else {
      assert (xs + ys)[1..] == xs[1..] + ys;
      RunAppend(Effect(t, xs[0]).0, xs[1..], ys);
    }
  }

  // ---------- What a success stores, field by field ----------

  lemma CreateSets(s: Store, u: Record, now: int)
    requires CreateEffect(s, u, now).1 == None
    ensures var s' := CreateEffect(s, u, now).0;
      && u.id in s'.users && s'.users == s.users[u.id := s'.users[u.id]]
      && var r := s'.users[u.id];
      && r.status == (if u.status == "" then "active" else u.status)
      && r.createdAt == r.updatedAt == now
      && r == u.(status := r.status, createdAt := r.createdAt, updatedAt := r.updatedAt)
  {
  }

  lemma UpdateSets(s: Store, u: Record, now: int)
    requires UpdateEffect(s, u, now).1 == None
    ensures Live(s.users, u.id)
    ensures var s' := UpdateEffect(s, u, now).0;
      && u.id in s'.users && s'.users == s.users[u.id := s'.users[u.id]] && s'.byUsername == s.byUsername
      && var r, was := s'.users[u.id], s.users[u.id];
      && r.email == (if u.email != "" then u.email else was.email)
      && r.displayName == (if u.displayName != "" then u.displayName else was.displayName)
      && r.status == (if u.status != "" then u.status else was.status)
      && r.isOnline == u.isOnline
      && r.updatedAt == now
      && r == was.(email := r.email, displayName := r.displayName, status := r.status, isOnline := r.isOnline,
                    updatedAt := r.updatedAt)
  {
  }

  lemma DeleteSets(s: Store, id: string, now: int)
    requires DeleteEffect(s, id, now).1 == None
    ensures Live(s.users, id)
    ensures DeleteEffect(s, id, now).0 == s.(users := s.users[id := s.users[id].(status := "deleted", updatedAt := now)])
  {
  }

  // ---------- Id reuse breaks the indexes for good ----------

  /** The username is indexed but no stored record has it. */
  predicate Orphaned(s: Store, x: string) {
    x in s.byUsername && !(s.byUsername[x] in s.users && s.users[s.byUsername[x]].username == x)
  }

  lemma OrphanStays(s: Store, op: Op, x: string)
    requires Orphaned(s, x)
    ensures Orphaned(Effect(s, op).0, x)
  {
    if Effect(s, op).1 != None { FailureChangesNothing(s, op); }
  }

  lemma OrphanDisagrees(s: Store, x: string)
    requires Orphaned(s, x)
    ensures !Agree(s)
  {
  }

  lemma {:induction false} OrphanForever(s: Store, ops: seq<Op>, x: string)
    requires Orphaned(s, x)
    ensures !Agree(Run(s, ops))
    decreases |ops|
  {
    OrphanDisagrees(s, x);
    if ops != [] {
      OrphanStays(s, ops[0], x);
      OrphanForever(Effect(s, ops[0]).0, ops[1..], x);
    }
  }

  lemma ReuseOrphans(s: Store, op: Op)
    requires Agree(s) && !KeepsIds(s, op)
    ensures Orphaned(Effect(s, op).0, s.users[op.u.id].username)
  {
    assert s.byUsername[Usernames(s.users)[op.u.id]] == op.u.id;
  }

  /** The indexes agree with the table after a run exactly when no successful Create of the run reused a
      stored id; Create itself does not check this. */
  lemma {:induction false} AgreeIffNoReuse(s: Store, ops: seq<Op>)
    requires Agree(s)
    ensures Agree(Run(s, ops)) <==> NoReuse(s, ops)
    decreases |ops|
  {
    if ops != [] {
      var op := ops[0];
      if KeepsIds(s, op) {
        StepRefines(s, op);
        AgreeIffNoReuse(Effect(s, op).0, ops[1..]);
      } else {
        ReuseOrphans(s, op);
        OrphanForever(Effect(s, op).0, ops[1..], s.users[op.u.id].username);
      }
    }
  }

  // ---------- Lookups are linear scans ----------

  ghost predicate LiveWithUsername(t: Table, id: string, x: string) { Live(t, id) && t[id].username == x }

  ghost predicate LiveWithEmail(t: Table, id: string, x: string) { Live(t, id) && t[id].email == x }

  /** Agree, spelled out on records. */
  lemma IndexedBy(s: Store)
    requires Agree(s)
    ensures forall id | id in s.users :: s.users[id].username in s.byUsername && s.byUsername[s.users[id].username] == id
    ensures forall id | id in s.users :: s.users[id].email in s.byEmail && s.byEmail[s.users[id].email] == id
    ensures forall x | x in s.byUsername :: s.byUsername[x] in s.users && s.users[s.byUsername[x]].username == x
    ensures forall x | x in s.byEmail :: s.byEmail[x] in s.users && s.users[s.byEmail[x]].email == x
  {
    forall id | id in s.users
      ensures s.users[id].username in s.byUsername && s.byUsername[s.users[id].username] == id
      ensures s.users[id].email in s.byEmail && s.byEmail[s.users[id].email] == id
    {
      assert Usernames(s.users)[id] == s.users[id].username && Emails(s.users)[id] == s.users[id].email;
    }
  }

  /** A lookup by username or email returns the one live record a scan of the table would find, or
      nothing when there is none. */
  lemma LookupsAreScans(s: Store, x: string)
    requires Agree(s)
    ensures forall r :: GetByUsername(s, x) == Some(r) <==> exists id :: LiveWithUsername(s.users, id, x) && s.users[id] == r
    ensures forall id, id' | LiveWithUsername(s.users, id, x) && LiveWithUsername(s.users, id', x) :: id == id'
    ensures forall r :: GetByEmail(s, x) == Some(r) <==> exists id :: LiveWithEmail(s.users, id, x) && s.users[id] == r
    ensures forall id, id' | LiveWithEmail(s.users, id, x) && LiveWithEmail(s.users, id', x) :: id == id'
  {
    IndexedBy(s);
    hide Agree;
    forall r
      ensures GetByUsername(s, x) == Some(r) <==> exists id :: LiveWithUsername(s.users, id, x) && s.users[id] == r
      ensures GetByEmail(s, x) == Some(r) <==> exists id :: LiveWithEmail(s.users, id, x) && s.users[id] == r
    {
      if GetByUsername(s, x) == Some(r) { assert LiveWithUsername(s.users, s.byUsername[x], x); }
      if GetByEmail(s, x) == Some(r) { assert LiveWithEmail(s.users, s.byEmail[x], x); }
    }
  }

  // ---------- Deletion ----------

  predicate IsDeleted(s: Store, id: string) {
    id in s.users && s.users[id].status == DELETED
  }

  lemma {:induction false} DeletedStays(s: Store, ops: seq<Op>, id: string)
    requires Agree(s) && NoReuse(s, ops) && IsDeleted(s, id)
    ensures id in Run(s, ops).users && Run(s, ops).users[id] == s.users[id]
    decreases |ops|
  {
    if ops != [] {
      StepRefines(s, ops[0]);
      if Effect(s, ops[0]).1 != None { FailureChangesNothing(s, ops[0]); }
      DeletedStays(Effect(s, ops[0]).0, ops[1..], id);
    }
  }

  /** A deleted user cannot be found again by id, username or email, and both its names stay reserved:
      after any later run, creating a user under either of them, or moving one to its email, fails. */
  lemma DeletedForever(s: Store, ops: seq<Op>, id: string, u: Record, now: int)
    requires Agree(s) && NoReuse(s, ops) && IsDeleted(s, id)
    ensures var s', r := Run(s, ops), s.users[id];
      && GetByID(s', id) == None && GetByUsername(s', r.username) == None && GetByEmail(s', r.email) == None
      && (u.username == r.username || u.email == r.email ==> CreateEffect(s', u, now).1 == Some(UserAlreadyExists))
      && (Live(s'.users, u.id) && u.email == r.email != "" ==> UpdateEffect(s', u, now).1 == Some(UserAlreadyExists))
  {
    DeletedStays(s, ops, id);
    RunRefinesTable(s, ops);
    var s', r := Run(s, ops), s.users[id];
    IndexedBy(s');
    hide Agree;
    assert s'.byUsername[r.username] == id && s'.byEmail[r.email] == id;
    if Live(s'.users, u.id) && u.email == r.email {
      assert s'.byEmail[s'.users[u.id].email] == u.id != id;
    }
  }
}
