/**
  The user store over whole runs of calls: what the object does is what the operations do on the three
  maps, and the callers' records and the store's stay apart.
*/
module UserSharing {
  import opened Bytes
  import opened UserTable
  import opened UserStore

  /** A call on the store, with the record the caller passes in. */
  datatype Request =
    | DoCreate(user: User, now: int)
    | DoUpdate(user: User, now: int)
    | DoDelete(id: string, now: int)
    | DoGetByID(id: string)
    | DoGetByUsername(username: string)
    | DoGetByEmail(email: string)
    | DoList(offset: int64, limit: int64)

  /** The callers' records that the requests pass in. */
  ghost predicate PassedFrom(requests: seq<Request>, outside: set<User>) {
    forall i | 0 <= i < |requests| && (requests[i].DoCreate? || requests[i].DoUpdate?) :: requests[i].user in outside
  }

  predicate IsWrite(request: Request) {
    request.DoCreate? || request.DoUpdate? || request.DoDelete?
  }

  /** The writing calls, in order. */
  function Writes(requests: seq<Request>): seq<Request>
    decreases |requests|
  {
    if requests == [] then []
    else (if IsWrite(requests[0]) then [requests[0]] else []) + Writes(requests[1..])
  }

  /** The record has the caller's values, but for the three fields Create may write. */
  ghost predicate Copies(r: Record, user: User)
    reads user`id, user`username, user`email, user`passwordHash, user`displayName
    reads user`isOnline, user`externalID, user`sourceSystem
  {
    && r.id == user.id && r.username == user.username && r.email == user.email && r.passwordHash == user.passwordHash
    && r.displayName == user.displayName && r.isOnline == user.isOnline
    && r.externalID == user.externalID && r.sourceSystem == user.sourceSystem
  }

  function Passed(request: Request): set<User> {
    if request.DoCreate? || request.DoUpdate? then {request.user} else {}
  }

  /** The operation a writing call performs. */
  ghost predicate Performs(request: Request, op: Op)
    reads Passed(request)`id, Passed(request)`username, Passed(request)`email, Passed(request)`passwordHash
    reads Passed(request)`displayName, Passed(request)`isOnline, Passed(request)`externalID, Passed(request)`sourceSystem
  {
    match request
    case DoCreate(user, now) => op.Create? && op.now == now && Copies(op.u, user)
    case DoUpdate(user, now) => op.Update? && op.now == now && Copies(op.u, user)
    case DoDelete(id, now) => op == Delete(id, now)
    case _ => false
  }

  /** What a call performed can still be told from the caller's record later. */
  twostate lemma PerformsStill(request: Request, new op: Op)
    requires forall u | u in Passed(request) ::
      unchanged(u`id, u`username, u`email, u`passwordHash, u`displayName, u`isOnline, u`externalID, u`sourceSystem)
    requires old(Performs(request, op))
    ensures Performs(request, op)
  {
  }

  /** `published` holds the store's records, with the values they still have, and none of a caller's. */
  ghost predicate Kept(store: MemoryStore, outside: set<User>, published: map<User, Record>)
    reads store, published.Keys
  {
    && store.Records() <= published.Keys && outside !! published.Keys
    && forall u | u in published :: u.Value() == published[u]
  }

  method ServeWrite(store: MemoryStore, request: Request, ghost outside: set<User>) returns (err: Option<Err>, ghost op: Op)
    requires IsWrite(request) && PassedFrom([request], outside) && outside !! store.Records()
    modifies store, outside`createdAt, outside`updatedAt, outside`status
    ensures Performs(request, op) && (request.DoCreate? || request.DoUpdate? ==> op.u == old(request.user.Value()))
    ensures outside !! store.Records() && fresh(store.Records() - old(store.Records()))
    ensures store.State() == Effect(old(store.State()), op).0 && err == Effect(old(store.State()), op).1
  {
    hide MemoryStore.State, CreateEffect, UpdateEffect, DeleteEffect, Stamp;
    assert [request][0] == request;
    match request {
      case DoCreate(user, now) =>
        op := Create(user.Value(), now);
        err := store.Create(user, now);
      case DoUpdate(user, now) =>
        op := Update(user.Value(), now);
        err := store.Update(user, now);
      case DoDelete(id, now) =>
        op := Delete(id, now);
        err := store.Delete(id, now);
    }
  }

  /** `given` are the records the call returns. */
  method ServeRead(store: MemoryStore, request: Request) returns (ghost given: set<User>)
    requires !IsWrite(request)
    ensures fresh(given)
  {
    given := {};
    match request {
      case DoGetByID(id) =>
        var user := store.GetByID(id);
        given := if user != null then {user} else {};
      case DoGetByUsername(username) =>
        var user := store.GetByUsername(username);
        given := if user != null then {user} else {};
      case DoGetByEmail(email) =>
        var user := store.GetByEmail(email);
        given := if user != null then {user} else {};
      case DoList(offset, limit) =>
        var page, _, _, _ := store.List(offset, limit);
        given := set u | u in page;
    }
  }

  method Serve(store: MemoryStore, request: Request, ghost outside: set<User>, ghost published: map<User, Record>)
    returns (errs: seq<Option<Err>>, ghost given: set<User>, ghost published': map<User, Record>, ghost ops: seq<Op>)
    requires PassedFrom([request], outside) && Kept(store, outside, published)
    modifies store, outside`createdAt, outside`updatedAt, outside`status
    ensures fresh(given) && Kept(store, outside + given, published')
    ensures published.Keys <= published'.Keys && forall u | u in published :: published'[u] == published[u]
    ensures store.State() == Run(old(store.State()), ops) && errs == Results(old(store.State()), ops)
    ensures |ops| == |Writes([request])| && forall i | 0 <= i < |ops| :: Performs(request, ops[i])
  {
    hide MemoryStore.State, MemoryStore.Records, Performs, Effect, User.Value;
    errs, given, ops := [], {}, [];
    if IsWrite(request) {
      var err;
      ghost var op;
      err, op := ServeWrite(store, request, outside);
      errs, ops := [err], [op];
    } else {
      given := ServeRead(store, request);
    }
    published' := published + map u | u in store.Records() - published.Keys :: u.Value();
  }

  /** Over every run of calls the object does what the operations do on the three maps (UserTable), with the
      same results; no record passed in by a caller, and none ever returned to one, is a record of the store;
      and every record that was ever the store's still has the value it had when it became so. */
  method ServeAll(store: MemoryStore, requests: seq<Request>, ghost outside: set<User>, ghost published: map<User, Record>)
    returns (errs: seq<Option<Err>>, ghost given: set<User>, ghost published': map<User, Record>, ghost ops: seq<Op>)
    requires PassedFrom(requests, outside) && Kept(store, outside, published)
    modifies store, outside`createdAt, outside`updatedAt, outside`status
    ensures fresh(given) && Kept(store, outside + given, published')
    ensures published.Keys <= published'.Keys && forall u | u in published :: published'[u] == published[u]
    ensures store.State() == Run(old(store.State()), ops) && errs == Results(old(store.State()), ops)
    ensures |ops| == |Writes(requests)| && forall i | 0 <= i < |ops| :: Performs(Writes(requests)[i], ops[i])
    decreases |requests|
  {
    hide MemoryStore.State, MemoryStore.Records, Performs, Effect, User.Value, Kept;
    errs, given, published', ops := [], {}, published, [];
    if requests == [] {
      assert outside + given == outside;
    } else {
      ghost var start := store.State();
      errs, given, published', ops := Serve(store, requests[0], outside, published);
      assert [requests[0]][1..] == [] && Writes(requests) == Writes([requests[0]]) + Writes(requests[1..]);
      label Served:
      var moreErrs;
      ghost var more, moreOps;
      assert PassedFrom(requests[1..], outside + given);
      moreErrs, more, published', moreOps := ServeAll(store, requests[1..], outside + given, published');
      if ops != [] {
        PerformsStill@Served(requests[0], ops[0]);
      }
      assert forall i | 0 <= i < |moreOps| :: Writes(requests)[|ops| + i] == Writes(requests[1..])[i];
      RunAppend(start, ops, moreOps);
      assert outside + (given + more) == outside + given + more;
      errs, given, ops := errs + moreErrs, given + more, ops + moreOps;
    }
  }
}
