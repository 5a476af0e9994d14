/**
  The organization store over whole runs of calls: what the object does is what the operations do on the
  three maps, and the callers' records and the store's stay apart.
*/
module OrgSharing {
  import opened Bytes
  import opened OrgLedger
  import opened OrgStore

  /** A call on the store, with the record the caller passes in. */
  datatype Request =
    | DoCreate(org: Organization, now: int)
    | DoUpdate(org: Organization, now: int)
    | DoDelete(id: string)
    | DoAddMember(rel: Relation)
    | DoRemoveMember(orgID: string, userID: string)
    | DoGetByID(id: string)
    | DoListMembers(orgID: string)
    | DoGetUserOrgs(userID: string)

  function PassedOrg(request: Request): set<Organization> {
    if request.DoCreate? || request.DoUpdate? then {request.org} else {}
  }

  function PassedRel(request: Request): set<Relation> {
    if request.DoAddMember? then {request.rel} else {}
  }

  /** The requests pass in records of the callers'. */
  ghost predicate PassedFrom(requests: seq<Request>, orgs: set<Organization>, rels: set<Relation>) {
    forall i | 0 <= i < |requests| :: PassedOrg(requests[i]) <= orgs && PassedRel(requests[i]) <= rels
  }

  predicate IsRead(request: Request) {
    request.DoGetByID? || request.DoListMembers? || request.DoGetUserOrgs?
  }

  /** The writing calls, in order. */
  function Writes(requests: seq<Request>): seq<Request>
    decreases |requests|
  {
    if requests == [] then []
    else (if IsRead(requests[0]) then [] else [requests[0]]) + Writes(requests[1..])
  }

  /** The record has the caller's values, but for the three fields Create may write. */
  ghost predicate Copies(r: Org, org: Organization)
    reads org`id, org`name, org`parentID, org`externalID, org`sourceSystem
  {
    && r.id == org.id && r.name == org.name && r.parentID == org.parentID
    && r.externalID == org.externalID && r.sourceSystem == org.sourceSystem
  }

  /** The operation a writing call performs. */
  ghost predicate Performs(request: Request, op: Op)
    reads PassedOrg(request)`id, PassedOrg(request)`name, PassedOrg(request)`parentID
    reads PassedOrg(request)`externalID, PassedOrg(request)`sourceSystem, PassedRel(request)
  {
    match request
    case DoCreate(org, now) => op.CreateOrg? && op.now == now && Copies(op.org, org)
    case DoUpdate(org, now) => op.UpdateOrg? && op.now == now && Copies(op.org, org)
    case DoDelete(id) => op == DeleteOrg(id)
    case DoAddMember(rel) => op == AddMember(rel.Value())
    case DoRemoveMember(orgID, userID) => op == RemoveMember(orgID, userID)
    case _ => false
  }

  /** What a call performed can still be told from the caller's record later. */
  twostate lemma PerformsStill(request: Request, new op: Op)
    requires forall o | o in PassedOrg(request) :: unchanged(o`id, o`name, o`parentID, o`externalID, o`sourceSystem)
    requires forall r | r in PassedRel(request) :: unchanged(r)
    requires old(Performs(request, op))
    ensures Performs(request, op)
  {
  }

  /** None of the callers' records is the store's. */
  ghost predicate Apart(store: MemoryOrgStore, orgs: set<Organization>, rels: set<Relation>)
    reads store
  {
    orgs !! store.Records() && rels !! store.Relations()
  }

  /** `stored` holds the store's memberships, with the values they still have, and none of a caller's. */
  ghost predicate Kept(store: MemoryOrgStore, rels: set<Relation>, stored: map<Relation, Rel>)
    reads store, stored.Keys
  {
    && store.Relations() <= stored.Keys && rels !! stored.Keys
    && forall r | r in stored :: r.Value() == stored[r]
  }

  method ServeWrite(store: MemoryOrgStore, request: Request, ghost orgs: set<Organization>, ghost rels: set<Relation>)
    returns (err: Option<OrgErr>, ghost op: Op)
    requires !IsRead(request) && PassedFrom([request], orgs, rels) && store.Valid() && Apart(store, orgs, rels)
    modifies store, orgs`createdAt, orgs`updatedAt, orgs`path, store.Records()
    ensures store.Valid() && Performs(request, op) && Apart(store, orgs, rels)
    ensures store.State() == Effect(old(store.State()), op).0 && err == Effect(old(store.State()), op).1
    ensures fresh(store.Records() - old(store.Records())) && fresh(store.Relations() - old(store.Relations()))
  {
    hide MemoryOrgStore.State, MemoryOrgStore.Valid, CreateEffect, UpdateEffect, DeleteEffect;
    hide AddMemberEffect, RemoveMemberEffect, Filed;
    assert [request][0] == request;
    match request {
      case DoCreate(org, now) =>
        op := CreateOrg(org.Value(), now);
        err := store.Create(org, now);
      case DoUpdate(org, now) =>
        op := UpdateOrg(org.Value(), now);
        err := store.Update(org, now);
      case DoDelete(id) =>
        op := DeleteOrg(id);
        err := store.Delete(id);
      case DoAddMember(rel) =>
        op := AddMember(rel.Value());
        err := store.AddMember(rel);
      case DoRemoveMember(orgID, userID) =>
        op := RemoveMember(orgID, userID);
        err := store.RemoveMember(orgID, userID);
    }
  }

  /** `orgs'` and `rels'` are the records the call returns. */
  method ServeRead(store: MemoryOrgStore, request: Request, ghost orgs: set<Organization>, ghost rels: set<Relation>)
    returns (ghost orgs': set<Organization>, ghost rels': set<Relation>)
    requires IsRead(request) && store.Valid() && Apart(store, orgs, rels)
    ensures fresh(orgs') && fresh(rels') && store.Valid() && Apart(store, orgs + orgs', rels + rels')
    ensures store.State() == old(store.State()) && unchanged(store)
  {
    hide MemoryOrgStore.State, At;
    orgs', rels' := {}, {};
    match request {
      case DoGetByID(id) =>
        var org := store.GetByID(id);
        orgs' := if org != null then {org} else {};
      case DoListMembers(orgID) =>
        var result, _ := store.ListMembers(orgID);
        rels' := set r | r in result;
      case DoGetUserOrgs(userID) =>
        var result := store.GetUserOrgs(userID);
        rels' := set r | r in result;
    }
  }

  method Serve(store: MemoryOrgStore, request: Request, ghost orgs: set<Organization>, ghost rels: set<Relation>,
               ghost stored: map<Relation, Rel>)
    returns (errs: seq<Option<OrgErr>>, ghost orgs': set<Organization>, ghost rels': set<Relation>,
             ghost stored': map<Relation, Rel>, ghost ops: seq<Op>)
    requires store.Valid() && PassedFrom([request], orgs, rels) && Apart(store, orgs, rels) && Kept(store, rels, stored)
    modifies store, orgs`createdAt, orgs`updatedAt, orgs`path, store.Records()
    ensures store.Valid() && fresh(orgs') && fresh(rels') && fresh(store.Records() - old(store.Records()))
    ensures Apart(store, orgs + orgs', rels + rels') && Kept(store, rels + rels', stored')
    ensures stored.Keys <= stored'.Keys && forall r | r in stored :: stored'[r] == stored[r]
    ensures store.State() == Run(old(store.State()), ops) && errs == Results(old(store.State()), ops)
    ensures |ops| == |Writes([request])| && forall i | 0 <= i < |ops| :: Performs(request, ops[i])
  {
    hide MemoryOrgStore.State, MemoryOrgStore.Valid, MemoryOrgStore.Relations, MemoryOrgStore.Records;
    hide Performs, Effect, Relation.Value;
    errs, orgs', rels', ops := [], {}, {}, [];
    if IsRead(request) {
      orgs', rels' := ServeRead(store, request, orgs, rels);
    } else {
      var err;
      ghost var op;
      err, op := ServeWrite(store, request, orgs, rels);
      errs, ops := [err], [op];
    }
    stored' := stored + map r | r in store.Relations() - stored.Keys :: r.Value();
  }

  /** Over every run of calls the object does what the operations do on the three maps (OrgLedger), with the
      same results; no record passed in by a caller, and none ever returned to one, is a record of the store;
      and every membership that was ever the store's still has the value it had when it became so. */
  method ServeAll(store: MemoryOrgStore, requests: seq<Request>, ghost orgs: set<Organization>, ghost rels: set<Relation>,
                  ghost stored: map<Relation, Rel>)
    returns (errs: seq<Option<OrgErr>>, ghost orgs': set<Organization>, ghost rels': set<Relation>,
             ghost stored': map<Relation, Rel>, ghost ops: seq<Op>)
    requires store.Valid() && PassedFrom(requests, orgs, rels) && Apart(store, orgs, rels) && Kept(store, rels, stored)
    modifies store, orgs`createdAt, orgs`updatedAt, orgs`path, store.Records()
    ensures store.Valid() && fresh(orgs') && fresh(rels')
    ensures Apart(store, orgs + orgs', rels + rels') && Kept(store, rels + rels', stored')
    ensures stored.Keys <= stored'.Keys && forall r | r in stored :: stored'[r] == stored[r]
    ensures store.State() == Run(old(store.State()), ops) && errs == Results(old(store.State()), ops)
    ensures |ops| == |Writes(requests)| && forall i | 0 <= i < |ops| :: Performs(Writes(requests)[i], ops[i])
    decreases |requests|
  {
    hide MemoryOrgStore.State, MemoryOrgStore.Valid, MemoryOrgStore.Relations, MemoryOrgStore.Records;
    hide Performs, Effect, Relation.Value, Kept;
    errs, orgs', rels', stored', ops := [], {}, {}, stored, [];
    if requests == [] {
      assert orgs + orgs' == orgs && rels + rels' == rels;
    } else {
      ghost var start := store.State();
      errs, orgs', rels', stored', ops := Serve(store, requests[0], orgs, rels, stored);
      assert [requests[0]][1..] == [] && Writes(requests) == Writes([requests[0]]) + Writes(requests[1..]);
      label Served:
      var moreErrs;
      ghost var moreOrgs, moreRels, moreOps;
      assert PassedFrom(requests[1..], orgs + orgs', rels + rels');
      moreErrs, moreOrgs, moreRels, stored', moreOps := ServeAll(store, requests[1..], orgs + orgs', rels + rels', stored');
      if ops != [] {
        PerformsStill@Served(requests[0], ops[0]);
      }
      assert forall i | 0 <= i < |moreOps| :: Writes(requests)[|ops| + i] == Writes(requests[1..])[i];
      RunAppend(start, ops, moreOps);
      assert orgs + (orgs' + moreOrgs) == orgs + orgs' + moreOrgs && rels + (rels' + moreRels) == rels + rels' + moreRels;
      errs, ops := errs + moreErrs, ops + moreOps;
      orgs', rels' := orgs' + moreOrgs, rels' + moreRels;
    }
  }
}
