/**
  MemoryOrgStore as an object: organizations and memberships live on the heap, and callers hold records
  of their own.  Every operation is proved against its effect on the three maps (OrgLedger).  No record of
  the store is ever a caller's record, and no membership is written after it has been stored.
*/
module OrgStore {
  import opened Bytes
  import opened OrgLedger

  class Organization {
    var id: string
    var name: string
    var parentID: string
    var path: string
    var externalID: string
    var sourceSystem: string
    var createdAt: int
    var updatedAt: int

    ghost function Value(): Org
      reads this
    {
      Org(id, name, parentID, path, externalID, sourceSystem, createdAt, updatedAt)
    }

    /** clone := *org */
    constructor Clone(org: Organization)
      ensures Value() == org.Value()
    {
      id, name, parentID, path := org.id, org.name, org.parentID, org.path;
      externalID, sourceSystem, createdAt, updatedAt := org.externalID, org.sourceSystem, org.createdAt, org.updatedAt;
    }

    /** What Create writes into the caller's record. */
    method Timestamp(now: int)
      modifies this`createdAt, this`updatedAt
      ensures Value() == old(Value()).(createdAt := now, updatedAt := now)
    {
      createdAt := now;
      updatedAt := now;
    }

    method Locate(path: string)
      modifies this`path
      ensures Value() == old(Value()).(path := path)
    {
      this.path := path;
    }

    /** The field assignments of Update, on the stored record itself. */
    method Overwrite(org: Organization, now: int)
      requires org != this
      modifies this`name, this`parentID, this`updatedAt
      ensures Value() == Revise(old(Value()), org.Value(), now)
    {
      if org.name != "" {
        name := org.name;
      }
      if org.parentID != "" {
        parentID := org.parentID;
      }
      updatedAt := now;
    }
  }

  class Relation {
    var userID: string
    var orgID: string
    var role: string
    var isPrimary: bool

    constructor (r: Rel)
      ensures Value() == r
    {
      userID, orgID, role, isPrimary := r.userID, r.orgID, r.role, r.isPrimary;
    }

    ghost function Value(): Rel
      reads this`userID, this`orgID, this`role, this`isPrimary
    {
      Rel(userID, orgID, role, isPrimary)
    }

    /** clone := *rel */
    constructor Clone(rel: Relation)
      ensures Value() == rel.Value()
    {
      userID, orgID, role, isPrimary := rel.userID, rel.orgID, rel.role, rel.isPrimary;
    }
  }

  ghost function Elements(rels: seq<Relation>): set<Relation> {
    set r | r in rels
  }

  /** The frames below name the fields of memberships one by one, so that a change of the store's own fields
      is seen to leave them alone. */
  ghost function Values(rels: seq<Relation>): (values: seq<Rel>)
    reads Elements(rels)`userID, Elements(rels)`orgID, Elements(rels)`role, Elements(rels)`isPrimary
    ensures |values| == |rels| && forall i | 0 <= i < |rels| :: values[i] == rels[i].Value()
    decreases |rels|
  {
    if rels == [] then [] else Values(rels[..|rels| - 1]) + [rels[|rels| - 1].Value()]
  }

  lemma ValuesSnoc(rels: seq<Relation>, r: Relation)
    ensures Values(rels + [r]) == Values(rels) + [r.Value()]
  {
    assert (rels + [r])[..|rels|] == rels;
  }

  /** The memberships an index holds. */
  ghost function Cells(m: map<string, seq<Relation>>): set<Relation> {
    set k, r | k in m && r in m[k] :: r
  }

  /** An index on values. */
  ghost function View(m: map<string, seq<Relation>>): map<string, seq<Rel>>
    reads Cells(m)`userID, Cells(m)`orgID, Cells(m)`role, Cells(m)`isPrimary
  {
    map k | k in m :: Values(m[k])
  }

  lemma ViewAt(m: map<string, seq<Relation>>, k: string)
    ensures Values(At(m, k)) == At(View(m), k) && forall r | r in At(m, k) :: r in Cells(m)
  {
  }

  lemma ViewStore(m: map<string, seq<Relation>>, k: string, rels: seq<Relation>)
    ensures View(m[k := rels]) == View(m)[k := Values(rels)]
    ensures forall r | r in Cells(m[k := rels]) :: r in Cells(m) || r in rels
  {
  }

  lemma ViewDrop(m: map<string, seq<Relation>>, k: string)
    ensures View(m - {k}) == View(m) - {k} && Cells(m - {k}) <= Cells(m)
  {
  }

  ghost function OrgView(m: map<string, Organization>): map<string, Org>
    reads m.Values
  {
    map k | k in m :: m[k].Value()
  }

  twostate lemma ValuesUndisturbed(rels: seq<Relation>)
    requires forall r | r in rels :: r.Value() == old(r.Value())
    ensures Values(rels) == old(Values(rels))
  {
    forall i | 0 <= i < |rels| ensures Values(rels)[i] == old(Values(rels))[i] { assert rels[i] in rels; }
  }

  twostate lemma ViewUndisturbed(m: map<string, seq<Relation>>)
    requires forall r | r in Cells(m) :: r.Value() == old(r.Value())
    ensures View(m) == old(View(m))
  {
    forall k | k in m ensures Values(m[k]) == old(Values(m[k])) {
      forall r | r in m[k] ensures r.Value() == old(r.Value()) { assert r in Cells(m); }
      ValuesUndisturbed(m[k]);
    }
  }

  twostate lemma OrgViewUndisturbed(m: map<string, Organization>)
    requires forall k | k in m :: unchanged(m[k])
    ensures OrgView(m) == old(OrgView(m))
  {
  }

  /** While the records under the other keys stay the same, only the value under k can differ. */
  twostate lemma OtherOrgsUndisturbed(m: map<string, Organization>, new k: string, new r: Org)
    requires forall j | j in m && j != k :: unchanged(m[j])
    ensures OrgView(m)[k := r] == old(OrgView(m))[k := r]
  {
  }

  lemma OrgViewAt(m: map<string, Organization>, k: string)
    ensures (k in OrgView(m) <==> k in m) && (k in m ==> OrgView(m)[k] == m[k].Value())
  {
  }

  lemma OrgViewStore(m: map<string, Organization>, k: string, org: Organization)
    ensures OrgView(m[k := org]) == OrgView(m)[k := org.Value()]
    ensures m[k := org].Values <= m.Values + {org}
  {
  }

  lemma OrgViewDrop(m: map<string, Organization>, k: string)
    ensures OrgView(m - {k}) == OrgView(m) - {k}
  {
  }

  lemma CreateCases(d: Directory, org: Org, now: int)
    ensures CreateEffect(d, org, now) ==
      if org.id in d.orgs then (d, Some(OrgAlreadyExists))
      else if !ParentOk(d.orgs, org.parentID) then (d, Some(ParentNotFound(org.parentID)))
      else (d.(orgs := d.orgs[org.id := Filed(d.orgs, org, now)]), None)
  {
  }

  lemma ListsSnoc(s: seq<Rel>, r: Rel, user: string)
    ensures Lists(s + [r], user) <==> Lists(s, user) || r.userID == user
  {
    assert (s + [r])[|s|] == r;
    if Lists(s, user) {
      var i :| 0 <= i < |s| && s[i].userID == user;
      assert (s + [r])[i] == s[i];
    }
  }

  /** The search loop of AddMember. */
  method Member(rels: seq<Relation>, userID: string) returns (found: bool)
    ensures found <==> Lists(Values(rels), userID)
  {
    hide Values;
    ghost var values := Values(rels);
    for i := 0 to |rels|
      invariant Values(rels) == values && !Lists(values[..i], userID)
    {
      assert values[..i + 1] == values[..i] + [values[i]];
      ListsSnoc(values[..i], values[i], userID);
      if rels[i].userID == userID {
        assert values[i].userID == userID && Lists(values, userID);
        return true;
      }
    }
    assert values[..|rels|] == values;
    return false;
  }

  method WithoutOrg(rels: seq<Relation>, orgID: string) returns (kept: seq<Relation>)
    ensures (forall r | r in kept :: r in rels) && Values(kept) == Filter(Values(rels), NotOrg(orgID))
  {
    hide Values;
    ghost var values := Values(rels);
    kept := [];
    for i := 0 to |rels|
      invariant forall r | r in kept :: r in rels
      invariant Values(rels) == values && Values(kept) == Filter(values[..i], NotOrg(orgID))
    {
      FilterSnoc(values[..i], values[i], NotOrg(orgID));
      assert values[..i + 1] == values[..i] + [values[i]];
      if rels[i].orgID != orgID {
        ValuesSnoc(kept, rels[i]);
        kept := kept + [rels[i]];
      }
    }
    assert values[..|rels|] == values;
  }

  method WithoutUser(rels: seq<Relation>, userID: string) returns (kept: seq<Relation>, found: bool)
    ensures (forall r | r in kept :: r in rels) && Values(kept) == Filter(Values(rels), NotUser(userID))
    ensures found <==> Lists(Values(rels), userID)
  {
    hide Values;
    ghost var values := Values(rels);
    kept, found := [], false;
    for i := 0 to |rels|
      invariant forall r | r in kept :: r in rels
      invariant Values(rels) == values && Values(kept) == Filter(values[..i], NotUser(userID))
      invariant found <==> Lists(values[..i], userID)
    {
      FilterSnoc(values[..i], values[i], NotUser(userID));
      assert values[..i + 1] == values[..i] + [values[i]];
      ListsSnoc(values[..i], values[i], userID);
      if rels[i].userID == userID {
        found := true;
      } else {
        ValuesSnoc(kept, rels[i]);
        kept := kept + [rels[i]];
      }
    }
    assert values[..|rels|] == values;
  }

  class MemoryOrgStore {
    var orgs: map<string, Organization>
    var members: map<string, seq<Relation>>
    var userOrgs: map<string, seq<Relation>>

    /** The organizations that belong to the store. */
    ghost function Records(): set<Organization>
      reads this`orgs
    {
      orgs.Values
    }

    /** The memberships that belong to the store, by either index. */
    ghost function Relations(): set<Relation>
      reads this`members, this`userOrgs
    {
      Cells(members) + Cells(userOrgs)
    }

    /** The stored record under an id, if any. */
    ghost function StoredUnder(id: string): set<Organization>
      reads this`orgs
    {
      set k | k in orgs && k == id :: orgs[k]
    }

    ghost function State(): Directory
      reads this, Records(), Relations()
    {
      Directory(OrgView(orgs), View(members), View(userOrgs))
    }

    /** Every organization is stored under its own id; so no record is stored twice. */
    ghost predicate Valid()
      reads this`orgs, Records()
    {
      forall id | id in orgs :: orgs[id].id == id
    }

    constructor ()
      ensures Valid() && State() == EMPTY && Records() == {} && Relations() == {}
    {
      orgs, members, userOrgs := map[], map[], map[];
    }

    /** The first half of Create: refuses, or writes the timestamps and the path into the caller's record. */
    method Describe(org: Organization, now: int) returns (err: Option<OrgErr>)
      requires org !in Records()
      modifies org`createdAt, org`updatedAt, org`path
      ensures err == CreateEffect(old(State()), old(org.Value()), now).1
      ensures org.Value() == Filed(old(State()).orgs, old(org.Value()), now) && org.id == old(org.id)
      ensures OrgView(orgs) == old(OrgView(orgs)) && View(members) == old(View(members)) && View(userOrgs) == old(View(userOrgs))
    {
      hide View, OrgView, CreateEffect;
      CreateCases(State(), org.Value(), now);
      OrgViewAt(orgs, org.id);
      OrgViewAt(orgs, org.parentID);
      if org.id in orgs {
        return Some(OrgAlreadyExists);
      }
      org.Timestamp(now);
      if org.parentID == "" {
        org.Locate("/" + org.id);
      } else {
        if org.parentID !in orgs {
          OrgViewUndisturbed(orgs);
          IndexesKept();
          return Some(ParentNotFound(org.parentID));
        }
        org.Locate(orgs[org.parentID].path + "/" + org.id);
      }
      OrgViewUndisturbed(orgs);
      IndexesKept();
      return None;
    }

    /** Describes the caller's record and stores a clone of it. */
    method Create(org: Organization, now: int) returns (err: Option<OrgErr>)
      requires Valid() && org !in Records()
      modifies this`orgs, org`createdAt, org`updatedAt, org`path
      ensures Valid()
      ensures State() == CreateEffect(old(State()), old(org.Value()), now).0
      ensures err == CreateEffect(old(State()), old(org.Value()), now).1
      ensures org.Value() == Filed(old(State()).orgs, old(org.Value()), now)
      ensures fresh(Records() - old(Records())) && org !in Records()
    {
      CreateCases(State(), org.Value(), now);
      hide View, OrgView, CreateEffect, Filed, MemoryOrgStore.Records, MemoryOrgStore.Valid;
      err := Describe(org, now);
      if err == None {
        label Described:
        var clone := new Organization.Clone(org);
        Undisturbed@Described();
        Put(org.id, clone);
      }
    }

    /** While no membership is written, the indexes show what they did. */
    twostate lemma IndexesKept()
      requires unchanged(`members) && unchanged(`userOrgs)
      requires forall r | r in old(Relations()) :: r.Value() == old(r.Value())
      ensures View(members) == old(View(members)) && View(userOrgs) == old(View(userOrgs))
    {
      assert forall r | r in Cells(members) :: r in old(Relations());
      assert forall r | r in Cells(userOrgs) :: r in old(Relations());
      ViewUndisturbed(members);
      ViewUndisturbed(userOrgs);
    }

    /** While nothing is written, the views stay as they are. */
    twostate lemma Undisturbed()
      requires unchanged(this) && forall o | o in old(Records()) :: unchanged(o)
      requires forall r | r in old(Relations()) :: r.Value() == old(r.Value())
      ensures OrgView(orgs) == old(OrgView(orgs)) && View(members) == old(View(members)) && View(userOrgs) == old(View(userOrgs))
    {
      assert forall k | k in orgs :: orgs[k] in old(Records());
      OrgViewUndisturbed(orgs);
      IndexesKept();
    }

    // Each single write, and what it leaves alone.

    /** orgs[id] = record: the record becomes part of the store. */
    method Put(id: string, record: Organization)
      modifies this`orgs
      ensures orgs == old(orgs)[id := record] && OrgView(orgs) == old(OrgView(orgs))[id := record.Value()]
      ensures View(members) == old(View(members)) && View(userOrgs) == old(View(userOrgs))
      ensures Records() <= old(Records()) + {record} && (old(Valid()) && record.id == id ==> Valid())
    {
      hide OrgView, View;
      OrgViewStore(orgs, id, record);
      orgs := orgs[id := record];
    }

    /** members[orgID] = rels */
    method PutMembers(orgID: string, rels: seq<Relation>)
      modifies this`members
      ensures members == old(members)[orgID := rels] && View(members) == old(View(members))[orgID := old(Values(rels))]
      ensures View(userOrgs) == old(View(userOrgs)) && OrgView(orgs) == old(OrgView(orgs))
    {
      hide OrgView, View, Values;
      ViewStore(members, orgID, rels);
      members := members[orgID := rels];
    }

    /** userOrgs[userID] = rels */
    method PutUserOrgs(userID: string, rels: seq<Relation>)
      modifies this`userOrgs
      ensures userOrgs == old(userOrgs)[userID := rels] && View(userOrgs) == old(View(userOrgs))[userID := old(Values(rels))]
      ensures View(members) == old(View(members)) && OrgView(orgs) == old(OrgView(orgs))
    {
      hide OrgView, View, Values;
      ViewStore(userOrgs, userID, rels);
      userOrgs := userOrgs[userID := rels];
    }

    /** delete(members, id) and delete(orgs, id) */
    method Forget(id: string)
      modifies this`members, this`orgs
      ensures orgs == old(orgs) - {id} && OrgView(orgs) == old(OrgView(orgs)) - {id}
      ensures members == old(members) - {id} && View(members) == old(View(members)) - {id}
      ensures View(userOrgs) == old(View(userOrgs))
    {
      hide OrgView, View;
      OrgViewDrop(orgs, id);
      ViewDrop(members, id);
      members := members - {id};
      orgs := orgs - {id};
    }

    /** A clone of the caller's membership. */
    method Copy(rel: Relation) returns (clone: Relation)
      ensures fresh(clone) && clone.Value() == rel.Value() && rel.Value() == old(rel.Value())
      ensures OrgView(orgs) == old(OrgView(orgs)) && View(members) == old(View(members)) && View(userOrgs) == old(View(userOrgs))
    {
      hide OrgView, View, Values;
      clone := new Relation.Clone(rel);
      Undisturbed();
    }

    method GetByID(id: string) returns (org: Organization?)
      ensures org == null <==> id !in State().orgs
      ensures org != null ==> fresh(org) && org.Value() == State().orgs[id]
    {
      if id !in orgs {
        return null;
      }
      org := new Organization.Clone(orgs[id]);
    }

    /** Writes a stored record, and clones it. */
    method Rewrite(existing: Organization, org: Organization, now: int) returns (clone: Organization)
      requires Valid() && org !in Records() && existing in Records()
      modifies existing
      ensures fresh(clone) && clone.Value() == Revise(old(existing.Value()), org.Value(), now) && clone.id == old(existing.id)
      ensures org.Value() == old(org.Value()) && Valid()
      ensures OrgView(orgs)[clone.id := clone.Value()] == old(OrgView(orgs))[clone.id := clone.Value()]
      ensures View(members) == old(View(members)) && View(userOrgs) == old(View(userOrgs))
    {
      hide View, OrgView;
      existing.Overwrite(org, now);
      clone := new Organization.Clone(existing);
      OtherOrgsUndisturbed(orgs, clone.id, clone.Value());
      IndexesKept();
    }

    /** Writes the stored record, then replaces it by a clone. */
    method Update(org: Organization, now: int) returns (err: Option<OrgErr>)
      requires Valid() && org !in Records()
      modifies this`orgs, StoredUnder(org.id)
      ensures Valid()
      ensures State() == UpdateEffect(old(State()), org.Value(), now).0
      ensures err == UpdateEffect(old(State()), org.Value(), now).1
      ensures fresh(Records() - old(Records())) && org !in Records()
    {
      hide View, OrgView, Revise;
      OrgViewAt(orgs, org.id);
      if org.id !in orgs {
        return Some(OrgNotFound);
      }
      var clone := Rewrite(orgs[org.id], org, now);
      Put(org.id, clone);
      return None;
    }

    /** The filter loop both removals share: the user's list without the organization. */
    method RemoveUserOrgRelation(userID: string, orgID: string)
      modifies this`userOrgs
      ensures View(userOrgs) == old(View(userOrgs))[userID := Filter(At(old(View(userOrgs)), userID), NotOrg(orgID))]
      ensures Cells(userOrgs) <= old(Cells(userOrgs))
      ensures View(members) == old(View(members)) && OrgView(orgs) == old(OrgView(orgs))
    {
      hide View, OrgView, Values, At;
      var kept := WithoutOrg(At(userOrgs, userID), orgID);
      Undisturbed();
      ViewAt(userOrgs, userID);
      PutUserOrgs(userID, kept);
    }

    /** Drops the organization from the list of each of its members, then the members and the organization. */
    method Delete(id: string) returns (err: Option<OrgErr>)
      requires Valid()
      modifies this
      ensures Valid()
      ensures State() == DeleteEffect(old(State()), id).0
      ensures err == DeleteEffect(old(State()), id).1
      ensures Records() <= old(Records()) && Relations() <= old(Relations())
    {
      OrgViewAt(orgs, id);
      ViewAt(members, id);
      OrgViewDrop(orgs, id);
      ViewDrop(members, id);
      hide View, OrgView, Cells, Values, At, Filter;
      if id !in orgs {
        return Some(OrgNotFound);
      }
      var rels := At(members, id);
      ghost var values, before := Values(rels), View(userOrgs);
      for i := 0 to |rels|
        invariant orgs == old(orgs) && members == old(members)
        invariant OrgView(orgs) == old(OrgView(orgs)) && View(members) == old(View(members))
        invariant Cells(userOrgs) <= old(Cells(userOrgs))
        invariant View(userOrgs) == Cascade(before, values[..i], id)
      {
        assert values[..i + 1] == values[..i] + [values[i]] && values[..i + 1][..i] == values[..i];
        RemoveUserOrgRelation(rels[i].userID, id);
      }
      assert values[..|rels|] == values;
      Forget(id);
      return None;
    }

    /** Appends one clone, shared by both lists. */
    method AddMember(rel: Relation) returns (err: Option<OrgErr>)
      modifies this`members, this`userOrgs
      ensures State() == AddMemberEffect(old(State()), rel.Value()).0
      ensures err == AddMemberEffect(old(State()), rel.Value()).1
      ensures fresh(Relations() - old(Relations()))
    {
      hide View, Values, At, OrgView, Lists;
      OrgViewAt(orgs, rel.orgID);
      if rel.orgID !in orgs {
        return Some(OrgNotFound);
      }
      var found := Member(At(members, rel.orgID), rel.userID);
      Undisturbed();
      ViewAt(members, rel.orgID);
      if found {
        return Some(MemberExists);
      }
      Append(rel);
      return None;
    }

    /** One clone at the end of both lists. */
    method Append(rel: Relation)
      modifies this`members, this`userOrgs
      ensures View(members) == old(View(members))[rel.orgID := At(old(View(members)), rel.orgID) + [old(rel.Value())]]
      ensures View(userOrgs) == old(View(userOrgs))[rel.userID := At(old(View(userOrgs)), rel.userID) + [old(rel.Value())]]
      ensures OrgView(orgs) == old(OrgView(orgs)) && fresh(Relations() - old(Relations()))
    {
      hide View, Values, At, OrgView;
      var clone := Copy(rel);
      var listed, held := At(members, rel.orgID), At(userOrgs, rel.userID);
      ViewAt(members, rel.orgID);
      ValuesSnoc(listed, clone);
      PutMembers(rel.orgID, listed + [clone]);
      ViewAt(userOrgs, rel.userID);
      ValuesSnoc(held, clone);
      PutUserOrgs(rel.userID, held + [clone]);
    }

    /** Filters the user out of the organization's list, then the organization out of the user's. */
    method RemoveMember(orgID: string, userID: string) returns (err: Option<OrgErr>)
      modifies this`members, this`userOrgs
      ensures State() == RemoveMemberEffect(old(State()), orgID, userID).0
      ensures err == RemoveMemberEffect(old(State()), orgID, userID).1
      ensures Relations() <= old(Relations())
    {
      hide View, Values, At, OrgView, Lists, Filter;
      var kept, found := WithoutUser(At(members, orgID), userID);
      Undisturbed();
      ViewAt(members, orgID);
      if !found {
        return Some(MemberNotFound);
      }
      PutMembers(orgID, kept);
      RemoveUserOrgRelation(userID, orgID);
      return None;
    }

    /** Clones of a list, in its order. */
    method Clones(rels: seq<Relation>) returns (result: seq<Relation>)
      ensures Values(result) == Values(rels) && forall i | 0 <= i < |result| :: fresh(result[i])
    {
      result := [];
      for i := 0 to |rels|
        invariant |result| == i
        invariant forall j | 0 <= j < i :: fresh(result[j]) && result[j].Value() == rels[j].Value()
      {
        var clone := new Relation.Clone(rels[i]);
        result := result + [clone];
      }
    }

    method ListMembers(orgID: string) returns (result: seq<Relation>, err: Option<OrgErr>)
      ensures err == if orgID in State().orgs then None else Some(OrgNotFound)
      ensures Values(result) == if err == None then At(State().members, orgID) else []
      ensures forall i | 0 <= i < |result| :: fresh(result[i])
    {
      if orgID !in orgs {
        return [], Some(OrgNotFound);
      }
      ViewAt(members, orgID);
      result := Clones(At(members, orgID));
      return result, None;
    }

    method GetUserOrgs(userID: string) returns (result: seq<Relation>)
      ensures Values(result) == At(State().userOrgs, userID)
      ensures forall i | 0 <= i < |result| :: fresh(result[i])
    {
      ViewAt(userOrgs, userID);
      result := Clones(At(userOrgs, userID));
    }
  }
}
