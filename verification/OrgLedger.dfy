/**
  The organization directory on values: the organizations and two ordered indexes of the memberships
  (by organization and by user), the effect of each operation on them, and the single insertion-ordered
  ledger of memberships that both indexes are projections of.
*/
module OrgLedger {
  import opened Bytes

  datatype Org = Org(
    id: string, name: string, parentID: string, path: string, externalID: string, sourceSystem: string,
    createdAt: int, updatedAt: int)

  datatype Rel = Rel(userID: string, orgID: string, role: string, isPrimary: bool)

  datatype OrgErr = OrgNotFound | OrgAlreadyExists | ParentNotFound(parent: string) | MemberNotFound | MemberExists

  datatype Directory = Directory(orgs: map<string, Org>, members: map<string, seq<Rel>>, userOrgs: map<string, seq<Rel>>)

  const EMPTY := Directory(map[], map[], map[])

  /** A missing key reads as the empty list. */
  function At<T>(m: map<string, seq<T>>, k: string): seq<T> {
    if k in m then m[k] else []
  }

  // ---------- Filters ----------

  datatype Test =
    | Everything
    | ByOrg(o: string) | ByUser(u: string)
    | NotOrg(o: string) | NotUser(u: string) | NotPair(o: string, u: string)

  predicate Keeps(t: Test, r: Rel) {
    match t
    case Everything => true
    case ByOrg(o) => r.orgID == o
    case ByUser(u) => r.userID == u
    case NotOrg(o) => r.orgID != o
    case NotUser(u) => r.userID != u
    case NotPair(o, u) => !(r.orgID == o && r.userID == u)
  }

  /** The entries a test keeps, in their order. */
  function Filter(s: seq<Rel>, t: Test): seq<Rel>
    decreases |s|
  {
    if s == [] then []
    else Filter(s[..|s| - 1], t) + if Keeps(t, s[|s| - 1]) then [s[|s| - 1]] else []
  }

  lemma FilterSnoc(s: seq<Rel>, r: Rel, t: Test)
    ensures Filter(s + [r], t) == Filter(s, t) + if Keeps(t, r) then [r] else []
  {
    assert (s + [r])[..|s|] == s;
  }

  lemma {:induction false} FilterMembers(s: seq<Rel>, t: Test)
    ensures forall r :: r in Filter(s, t) <==> r in s && Keeps(t, r)
    decreases |s|
  {
    hide Keeps;
    if s != [] {
      FilterMembers(s[..|s| - 1], t);
      assert s == s[..|s| - 1] + [s[|s| - 1]];
    }
  }

  lemma {:induction false} FilterAll(s: seq<Rel>, t: Test)
    requires forall r | r in s :: Keeps(t, r)
    ensures Filter(s, t) == s
    decreases |s|
  {
    hide Keeps;
    if s != [] {
      FilterAll(s[..|s| - 1], t);
      assert s == s[..|s| - 1] + [s[|s| - 1]];
    }
  }

  lemma {:induction false} FilterNone(s: seq<Rel>, t: Test)
    requires forall r | r in s :: !Keeps(t, r)
    ensures Filter(s, t) == []
    decreases |s|
  {
    hide Keeps;
    if s != [] { FilterNone(s[..|s| - 1], t); }
  }

  /** Two filters in a row depend only on which entries both keep. */
  lemma {:induction false} FilterTwice(s: seq<Rel>, a: Test, b: Test, c: Test, d: Test)
    requires forall r | r in s :: Keeps(a, r) && Keeps(b, r) <==> Keeps(c, r) && Keeps(d, r)
    ensures Filter(Filter(s, a), b) == Filter(Filter(s, c), d)
    decreases |s|
  {
    if s != [] {
      var init, last := s[..|s| - 1], s[|s| - 1];
      FilterTwice(init, a, b, c, d);
      assert Keeps(a, last) && Keeps(b, last) <==> Keeps(c, last) && Keeps(d, last);
      FilterSnoc(Filter(init, a), last, b);
      FilterSnoc(Filter(init, c), last, d);
      assert Filter(s, a) == if Keeps(a, last) then Filter(init, a) + [last] else Filter(init, a);
      assert Filter(s, c) == if Keeps(c, last) then Filter(init, c) + [last] else Filter(init, c);
      hide Keeps, Filter;
    }
  }

  lemma FilterOnce(s: seq<Rel>, a: Test, b: Test, c: Test)
    requires forall r | r in s :: Keeps(a, r) && Keeps(b, r) <==> Keeps(c, r)
    ensures Filter(Filter(s, a), b) == Filter(s, c)
  {
    FilterTwice(s, a, b, c, Everything);
    FilterAll(Filter(s, c), Everything);
  }

  ghost predicate DistinctPairs(s: seq<Rel>) {
    forall i, j | 0 <= i < j < |s| :: s[i].orgID != s[j].orgID || s[i].userID != s[j].userID
  }

  lemma {:induction false} FilterKeepsDistinct(s: seq<Rel>, t: Test)
    requires DistinctPairs(s)
    ensures DistinctPairs(Filter(s, t))
    decreases |s|
  {
    hide Keeps;
    if s != [] {
      var init, last, kept := s[..|s| - 1], s[|s| - 1], Filter(s[..|s| - 1], t);
      FilterKeepsDistinct(init, t);
      FilterMembers(init, t);
      forall i | 0 <= i < |kept| ensures kept[i].orgID != last.orgID || kept[i].userID != last.userID {
        assert kept[i] in init;
        var j :| 0 <= j < |init| && init[j] == kept[i];
        assert s[j] == init[j];
      }
    }
  }

  // ---------- Effects on the maps ----------

  predicate ParentOk(orgs: map<string, Org>, parentID: string) {
    parentID == "" || parentID in orgs
  }

  function PathUnder(orgs: map<string, Org>, parentID: string, id: string): string
    requires ParentOk(orgs, parentID)
  {
    if parentID == "" then "/" + id else orgs[parentID].path + "/" + id
  }

  function CreateEffect(d: Directory, org: Org, now: int): (Directory, Option<OrgErr>) {
    if org.id in d.orgs then (d, Some(OrgAlreadyExists))
    else if !ParentOk(d.orgs, org.parentID) then (d, Some(ParentNotFound(org.parentID)))
    else
      (d.(orgs := d.orgs[org.id := org.(createdAt := now, updatedAt := now, path := PathUnder(d.orgs, org.parentID, org.id))]),
       None)
  }

  /** What Create leaves in the caller's record: the timestamps stay even when the parent is missing. */
  function Filed(orgs: map<string, Org>, org: Org, now: int): Org {
    if org.id in orgs then org
    else if !ParentOk(orgs, org.parentID) then org.(createdAt := now, updatedAt := now)
    else org.(createdAt := now, updatedAt := now, path := PathUnder(orgs, org.parentID, org.id))
  }

  /** The stored organization after an Update: empty fields keep their value, the path is not touched. */
  function Revise(existing: Org, org: Org, now: int): Org {
    existing.(
      name := if org.name != "" then org.name else existing.name,
      parentID := if org.parentID != "" then org.parentID else existing.parentID,
      updatedAt := now)
  }

  function UpdateEffect(d: Directory, org: Org, now: int): (Directory, Option<OrgErr>) {
    if org.id !in d.orgs then (d, Some(OrgNotFound))
    else (d.(orgs := d.orgs[org.id := Revise(d.orgs[org.id], org, now)]), None)
  }

  /** The cascade of Delete: for each of the organization's memberships, filter the user's list. */
  function Cascade(userOrgs: map<string, seq<Rel>>, rels: seq<Rel>, o: string): map<string, seq<Rel>>
    decreases |rels|
  {
    if rels == [] then userOrgs
    else
      var m := Cascade(userOrgs, rels[..|rels| - 1], o);
      var u := rels[|rels| - 1].userID;
      m[u := Filter(At(m, u), NotOrg(o))]
  }

  function DeleteEffect(d: Directory, id: string): (Directory, Option<OrgErr>) {
    if id !in d.orgs then (d, Some(OrgNotFound))
    else (Directory(d.orgs - {id}, d.members - {id}, Cascade(d.userOrgs, At(d.members, id), id)), None)
  }

  predicate Lists(rels: seq<Rel>, user: string) {
    exists i :: 0 <= i < |rels| && rels[i].userID == user
  }

  function AddMemberEffect(d: Directory, rel: Rel): (Directory, Option<OrgErr>) {
    if rel.orgID !in d.orgs then (d, Some(OrgNotFound))
    else if Lists(At(d.members, rel.orgID), rel.userID) then (d, Some(MemberExists))
    else
      (d.(members := d.members[rel.orgID := At(d.members, rel.orgID) + [rel]],
          userOrgs := d.userOrgs[rel.userID := At(d.userOrgs, rel.userID) + [rel]]), None)
  }

  function RemoveMemberEffect(d: Directory, o: string, u: string): (Directory, Option<OrgErr>) {
    if !Lists(At(d.members, o), u) then (d, Some(MemberNotFound))
    else
      (d.(members := d.members[o := Filter(At(d.members, o), NotUser(u))],
          userOrgs := d.userOrgs[u := Filter(At(d.userOrgs, u), NotOrg(o))]), None)
  }

  datatype Op = CreateOrg(org: Org, now: int) | UpdateOrg(org: Org, now: int) | DeleteOrg(id: string)
    | AddMember(rel: Rel) | RemoveMember(o: string, u: string)

  function Effect(d: Directory, op: Op): (Directory, Option<OrgErr>) {
    match op
    case CreateOrg(org, now) => CreateEffect(d, org, now)
    case UpdateOrg(org, now) => UpdateEffect(d, org, now)
    case DeleteOrg(id) => DeleteEffect(d, id)
    case AddMember(rel) => AddMemberEffect(d, rel)
    case RemoveMember(o, u) => RemoveMemberEffect(d, o, u)
  }

  // ---------- The ledger ----------

  datatype Ledger = Ledger(orgs: map<string, Org>, log: seq<Rel>)

  predicate Recorded(log: seq<Rel>, o: string, u: string) {
    exists i :: 0 <= i < |log| && log[i].orgID == o && log[i].userID == u
  }

  /** One list: adding appends, removing and deleting filter. */
  function LedgerEffect(l: Ledger, op: Op): (Ledger, Option<OrgErr>) {
    match op
    case CreateOrg(_, _) =>
      var (d, err) := Effect(Directory(l.orgs, map[], map[]), op);
      (l.(orgs := d.orgs), err)
    case UpdateOrg(_, _) =>
      var (d, err) := Effect(Directory(l.orgs, map[], map[]), op);
      (l.(orgs := d.orgs), err)
    case DeleteOrg(id) =>
      if id !in l.orgs then (l, Some(OrgNotFound)) else (Ledger(l.orgs - {id}, Filter(l.log, NotOrg(id))), None)
    case AddMember(rel) =>
      if rel.orgID !in l.orgs then (l, Some(OrgNotFound))
      else if Recorded(l.log, rel.orgID, rel.userID) then (l, Some(MemberExists))
      else (l.(log := l.log + [rel]), None)
    case RemoveMember(o, u) =>
      if !Recorded(l.log, o, u) then (l, Some(MemberNotFound)) else (l.(log := Filter(l.log, NotPair(o, u))), None)
  }

  ghost predicate MembersProject(members: map<string, seq<Rel>>, log: seq<Rel>) {
    forall o :: At(members, o) == Filter(log, ByOrg(o))
  }

  ghost predicate UsersProject(userOrgs: map<string, seq<Rel>>, log: seq<Rel>) {
    forall u :: At(userOrgs, u) == Filter(log, ByUser(u))
  }

  /** Both indexes are projections of the ledger, which holds each pair once and no absent organization. */
  ghost predicate Agree(d: Directory, l: Ledger) {
    && d.orgs == l.orgs
    && MembersProject(d.members, l.log)
    && UsersProject(d.userOrgs, l.log)
    && DistinctPairs(l.log)
    && forall r | r in l.log :: r.orgID in l.orgs
  }

  lemma ListedIsRecorded(s: seq<Rel>, o: string, u: string)
    ensures Lists(Filter(s, ByOrg(o)), u) <==> Recorded(s, o, u)
  {
    var kept := Filter(s, ByOrg(o));
    FilterMembers(s, ByOrg(o));
    if Lists(kept, u) {
      var i :| 0 <= i < |kept| && kept[i].userID == u;
      assert kept[i] in s;
    }
    if Recorded(s, o, u) {
      var i :| 0 <= i < |s| && s[i].orgID == o && s[i].userID == u;
      assert s[i] in kept;
    }
  }

  lemma AddProjects(d: Directory, log: seq<Rel>, rel: Rel)
    requires MembersProject(d.members, log) && UsersProject(d.userOrgs, log)
    ensures MembersProject(d.members[rel.orgID := At(d.members, rel.orgID) + [rel]], log + [rel])
    ensures UsersProject(d.userOrgs[rel.userID := At(d.userOrgs, rel.userID) + [rel]], log + [rel])
  {
    hide Filter;
    forall o ensures Filter(log + [rel], ByOrg(o)) == Filter(log, ByOrg(o)) + if o == rel.orgID then [rel] else [] {
      FilterSnoc(log, rel, ByOrg(o));
    }
    forall u ensures Filter(log + [rel], ByUser(u)) == Filter(log, ByUser(u)) + if u == rel.userID then [rel] else [] {
      FilterSnoc(log, rel, ByUser(u));
    }
  }

  lemma NewPairIsDistinct(l: Ledger, rel: Rel)
    requires DistinctPairs(l.log) && !Recorded(l.log, rel.orgID, rel.userID)
    requires rel.orgID in l.orgs && forall r | r in l.log :: r.orgID in l.orgs
    ensures DistinctPairs(l.log + [rel]) && forall r | r in l.log + [rel] :: r.orgID in l.orgs
  {
  }

  lemma AddRefines(d: Directory, l: Ledger, rel: Rel)
    requires Agree(d, l)
    ensures AddMemberEffect(d, rel).1 == LedgerEffect(l, AddMember(rel)).1
    ensures Agree(AddMemberEffect(d, rel).0, LedgerEffect(l, AddMember(rel)).0)
  {
    ListedIsRecorded(l.log, rel.orgID, rel.userID);
    assert At(d.members, rel.orgID) == Filter(l.log, ByOrg(rel.orgID));
    hide Filter, Lists, Recorded, Effect;
    if rel.orgID in l.orgs && !Recorded(l.log, rel.orgID, rel.userID) {
      AddProjects(d, l.log, rel);
      NewPairIsDistinct(l, rel);
      hide At, DistinctPairs, MembersProject, UsersProject;
    }
  }

  lemma RemoveProjects(d: Directory, log: seq<Rel>, o: string, u: string)
    requires MembersProject(d.members, log) && UsersProject(d.userOrgs, log)
    ensures MembersProject(d.members[o := Filter(At(d.members, o), NotUser(u))], Filter(log, NotPair(o, u)))
    ensures UsersProject(d.userOrgs[u := Filter(At(d.userOrgs, u), NotOrg(o))], Filter(log, NotPair(o, u)))
  {
    hide Filter;
    forall o' ensures Filter(Filter(log, NotPair(o, u)), ByOrg(o')) ==
                      if o' == o then Filter(Filter(log, ByOrg(o)), NotUser(u)) else Filter(log, ByOrg(o')) {
      if o' == o {
        FilterTwice(log, NotPair(o, u), ByOrg(o), ByOrg(o), NotUser(u));
      } else {
        FilterOnce(log, NotPair(o, u), ByOrg(o'), ByOrg(o'));
      }
    }
    forall u' ensures Filter(Filter(log, NotPair(o, u)), ByUser(u')) ==
                      if u' == u then Filter(Filter(log, ByUser(u)), NotOrg(o)) else Filter(log, ByUser(u')) {
      if u' == u {
        FilterTwice(log, NotPair(o, u), ByUser(u), ByUser(u), NotOrg(o));
      } else {
        FilterOnce(log, NotPair(o, u), ByUser(u'), ByUser(u'));
      }
    }
  }

  lemma RemoveRefines(d: Directory, l: Ledger, o: string, u: string)
    requires Agree(d, l)
    ensures RemoveMemberEffect(d, o, u).1 == LedgerEffect(l, RemoveMember(o, u)).1
    ensures Agree(RemoveMemberEffect(d, o, u).0, LedgerEffect(l, RemoveMember(o, u)).0)
  {
    ListedIsRecorded(l.log, o, u);
    assert At(d.members, o) == Filter(l.log, ByOrg(o));
    RemoveProjects(d, l.log, o, u);
    FilterKeepsDistinct(l.log, NotPair(o, u));
    FilterMembers(l.log, NotPair(o, u));
    hide Filter, At, Lists, Recorded, DistinctPairs, MembersProject, UsersProject, Keeps;
  }

  /** The half-finished cascade: the users of the processed memberships have lost the organization, all
      others still have their whole list. */
  lemma {:induction false} CascadeSoFar(userOrgs: map<string, seq<Rel>>, rels: seq<Rel>, o: string, u: string)
    ensures At(Cascade(userOrgs, rels, o), u) == if Lists(rels, u) then Filter(At(userOrgs, u), NotOrg(o)) else At(userOrgs, u)
    decreases |rels|
  {
    if rels != [] {
      var init := rels[..|rels| - 1];
      CascadeSoFar(userOrgs, init, o, u);
      assert Lists(init, u) ==> Lists(rels, u) by {
        if Lists(init, u) {
          var i :| 0 <= i < |init| && init[i].userID == u;
          assert rels[i].userID == u;
        }
      }
      if rels[|rels| - 1].userID == u {
        FilterOnce(At(userOrgs, u), NotOrg(o), NotOrg(o), NotOrg(o));
      } else if Lists(rels, u) {
        var i :| 0 <= i < |rels| && rels[i].userID == u;
        assert init[i].userID == u;
      }
    }
  }

  lemma CascadeProjects(userOrgs: map<string, seq<Rel>>, log: seq<Rel>, id: string)
    requires UsersProject(userOrgs, log)
    ensures UsersProject(Cascade(userOrgs, Filter(log, ByOrg(id)), id), Filter(log, NotOrg(id)))
  {
    hide Filter, Cascade, At, Lists;
    var rels := Filter(log, ByOrg(id));
    forall u ensures At(Cascade(userOrgs, rels, id), u) == Filter(Filter(log, NotOrg(id)), ByUser(u)) {
      CascadeSoFar(userOrgs, rels, id, u);
      ListedIsRecorded(log, id, u);
      if Recorded(log, id, u) {
        FilterTwice(log, NotOrg(id), ByUser(u), ByUser(u), NotOrg(id));
      } else {
        FilterOnce(log, NotOrg(id), ByUser(u), ByUser(u));
      }
    }
  }

  lemma DropProjects(members: map<string, seq<Rel>>, log: seq<Rel>, id: string)
    requires MembersProject(members, log)
    ensures MembersProject(members - {id}, Filter(log, NotOrg(id)))
  {
    hide Filter;
    forall o ensures Filter(Filter(log, NotOrg(id)), ByOrg(o)) == if o == id then [] else Filter(log, ByOrg(o)) {
      if o != id {
        FilterOnce(log, NotOrg(id), ByOrg(o), ByOrg(o));
      } else {
        FilterMembers(log, NotOrg(id));
        FilterNone(Filter(log, NotOrg(id)), ByOrg(id));
      }
    }
  }

  lemma DeleteRefines(d: Directory, l: Ledger, id: string)
    requires Agree(d, l)
    ensures DeleteEffect(d, id).1 == LedgerEffect(l, DeleteOrg(id)).1
    ensures Agree(DeleteEffect(d, id).0, LedgerEffect(l, DeleteOrg(id)).0)
  {
    assert At(d.members, id) == Filter(l.log, ByOrg(id));
    CascadeProjects(d.userOrgs, l.log, id);
    DropProjects(d.members, l.log, id);
    FilterKeepsDistinct(l.log, NotOrg(id));
    FilterMembers(l.log, NotOrg(id));
    hide Filter, At, Cascade, DistinctPairs, MembersProject, UsersProject;
  }

  lemma StepRefines(d: Directory, l: Ledger, op: Op)
    requires Agree(d, l)
    ensures Effect(d, op).1 == LedgerEffect(l, op).1
    ensures Agree(Effect(d, op).0, LedgerEffect(l, op).0)
  {
    match op
    case CreateOrg(_, _) =>
    case UpdateOrg(_, _) =>
    case DeleteOrg(id) => DeleteRefines(d, l, id);
    case AddMember(rel) => AddRefines(d, l, rel);
    case RemoveMember(o, u) => RemoveRefines(d, l, o, u);
  }

  // ---------- Runs ----------

  function Run(d: Directory, ops: seq<Op>): Directory
    decreases |ops|
  {
    if ops == [] then d else Run(Effect(d, ops[0]).0, ops[1..])
  }

  function Results(d: Directory, ops: seq<Op>): seq<Option<OrgErr>>
    decreases |ops|
  {
    if ops == [] then [] else [Effect(d, ops[0]).1] + Results(Effect(d, ops[0]).0, ops[1..])
  }

  function LedgerRun(l: Ledger, ops: seq<Op>): Ledger
    decreases |ops|
  {
    if ops == [] then l else LedgerRun(LedgerEffect(l, ops[0]).0, ops[1..])
  }

  function LedgerResults(l: Ledger, ops: seq<Op>): seq<Option<OrgErr>>
    decreases |ops|
  {
    if ops == [] then [] else [LedgerEffect(l, ops[0]).1] + LedgerResults(LedgerEffect(l, ops[0]).0, ops[1..])
  }

  /** Over every run the two indexes behave as one ordered list of memberships: the same results, each
      index the projection of the list in its order, no pair twice and no entry of an absent
      organization. */
  lemma {:induction false} RunRefinesLedger(d: Directory, l: Ledger, ops: seq<Op>)
    requires Agree(d, l)
    ensures Results(d, ops) == LedgerResults(l, ops)
    ensures Agree(Run(d, ops), LedgerRun(l, ops))
    decreases |ops|
  {
    hide Effect, LedgerEffect, Agree;
    if ops != [] {
      StepRefines(d, l, ops[0]);
      RunRefinesLedger(Effect(d, ops[0]).0, LedgerEffect(l, ops[0]).0, ops[1..]);
    }
  }

  lemma {:induction false} RunAppend(d: Directory, xs: seq<Op>, ys: seq<Op>)
    ensures Run(d, xs + ys) == Run(Run(d, xs), ys)
    ensures Results(d, xs + ys) == Results(d, xs) + Results(Run(d, xs), ys)
    decreases |xs|
  {
    hide Effect;
    if xs == [] {
      assert xs + ys == ys;
    } else {
      assert (xs + ys)[1..] == xs[1..] + ys;
      RunAppend(Effect(d, xs[0]).0, xs[1..], ys);
    }
  }

  /** What callers see after any run: a membership is listed under its organization exactly if it is listed
      under its user, once on each side, and never for an organization that does not exist. */
  lemma IndexesAgree(ops: seq<Op>, r: Rel, o: string, u: string)
    ensures var d := Run(EMPTY, ops);
      && (r in At(d.members, r.orgID) <==> r in At(d.userOrgs, r.userID))
      && (r in At(d.members, o) ==> r.orgID == o && o in d.orgs)
      && (r in At(d.userOrgs, u) ==> r.userID == u && r.orgID in d.orgs)
      && DistinctPairs(At(d.members, o)) && DistinctPairs(At(d.userOrgs, u))
  {
    var l := Ledger(map[], []);
    assert Agree(EMPTY, l);
    RunRefinesLedger(EMPTY, l, ops);
    var log := LedgerRun(l, ops).log;
    FilterKeepsDistinct(log, ByOrg(o));
    FilterKeepsDistinct(log, ByUser(u));
    FilterMembers(log, ByOrg(o));
    FilterMembers(log, ByOrg(r.orgID));
    FilterMembers(log, ByUser(u));
    FilterMembers(log, ByUser(r.userID));
  }

  /** On the ledger a removal undoes an addition. */
  lemma LedgerUndone(l: Ledger, rel: Rel)
    requires LedgerEffect(l, AddMember(rel)).1 == None
    ensures LedgerEffect(LedgerEffect(l, AddMember(rel)).0, RemoveMember(rel.orgID, rel.userID)) == (l, None)
  {
    hide Filter, Effect;
    var log', others := l.log + [rel], NotPair(rel.orgID, rel.userID);
    assert log'[|l.log|] == rel && Recorded(log', rel.orgID, rel.userID);
    FilterSnoc(l.log, rel, others);
    FilterAll(l.log, others);
    assert Filter(log', others) == l.log + [] == l.log;
    assert LedgerEffect(l, AddMember(rel)).0 == l.(log := log');
  }

  /** Removing a member undoes adding it: afterwards every list is the one it was before. */
  lemma RemoveUndoesAdd(d: Directory, l: Ledger, rel: Rel)
    requires Agree(d, l) && AddMemberEffect(d, rel).1 == None
    ensures var d' := AddMemberEffect(d, rel).0;
      var (d'', err) := RemoveMemberEffect(d', rel.orgID, rel.userID);
      && err == None && d''.orgs == d.orgs
      && forall k :: At(d''.members, k) == At(d.members, k) && At(d''.userOrgs, k) == At(d.userOrgs, k)
  {
    hide Filter, AddMemberEffect, RemoveMemberEffect, LedgerEffect, DistinctPairs, At;
    AddRefines(d, l, rel);
    LedgerUndone(l, rel);
    RemoveRefines(AddMemberEffect(d, rel).0, LedgerEffect(l, AddMember(rel)).0, rel.orgID, rel.userID);
  }
}
