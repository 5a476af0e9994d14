/**
  What a whole run of directory operations determines: the fields of the stored organizations.
*/
module OrgHistory {
  import opened Bytes
  import opened OrgLedger

  // ---------- What a success stores, field by field ----------

  /** Create refuses a stored id and an unknown parent, and otherwise stores the record under its id. */
  lemma CreateSets(d: Directory, org: Org, now: int)
    ensures var (d', e) := CreateEffect(d, org, now);
      if org.id in d.orgs then e == Some(OrgAlreadyExists) && d' == d
      else if org.parentID != "" && org.parentID !in d.orgs then e == Some(ParentNotFound(org.parentID)) && d' == d
      else
        && e == None && org.id in d'.orgs && d' == d.(orgs := d.orgs[org.id := d'.orgs[org.id]])
        && var r := d'.orgs[org.id];
        && r.createdAt == r.updatedAt == now
        && r.path == (if org.parentID == "" then "" else d.orgs[org.parentID].path) + "/" + org.id
        && r == org.(createdAt := r.createdAt, updatedAt := r.updatedAt, path := r.path)
  {
  }

  /** Update refuses an unknown id; otherwise name and parent are those it is given, if any. */
  lemma UpdateSets(d: Directory, org: Org, now: int)
    ensures var (d', e) := UpdateEffect(d, org, now);
      if org.id !in d.orgs then e == Some(OrgNotFound) && d' == d
      else
        && e == None && org.id in d'.orgs && d' == d.(orgs := d.orgs[org.id := d'.orgs[org.id]])
        && var r, was := d'.orgs[org.id], d.orgs[org.id];
        && r.name == (if org.name != "" then org.name else was.name)
        && r.parentID == (if org.parentID != "" then org.parentID else was.parentID)
        && r.updatedAt == now
        && r == was.(name := r.name, parentID := r.parentID, updatedAt := r.updatedAt)
  {
  }

  lemma DeleteDrops(d: Directory, id: string)
    ensures var (d', e) := DeleteEffect(d, id);
      if id !in d.orgs then e == Some(OrgNotFound) && d' == d else e == None && d'.orgs == d.orgs - {id}
  {
  }

  /** A membership needs a stored organization and is listed once; only a listed one can be removed. */
  lemma MembershipErrors(d: Directory, rel: Rel, o: string, u: string)
    ensures var e := AddMemberEffect(d, rel).1;
      && (e == Some(OrgNotFound) <==> rel.orgID !in d.orgs)
      && (e == Some(MemberExists) <==> rel.orgID in d.orgs && Lists(At(d.members, rel.orgID), rel.userID))
      && (e == None || e == Some(OrgNotFound) || e == Some(MemberExists))
    ensures RemoveMemberEffect(d, o, u).1 == if Lists(At(d.members, o), u) then None else Some(MemberNotFound)
  {
  }

  /** What Create writes into the caller's record, the refused one included. */
  lemma CallerSees(orgs: map<string, Org>, org: Org, now: int)
    ensures var r := Filed(orgs, org, now);
      && (org.id in orgs ==> r == org)
      && (org.id !in orgs ==>
            && r.createdAt == r.updatedAt == now
            && r == org.(createdAt := r.createdAt, updatedAt := r.updatedAt, path := r.path)
            && r.path == if org.parentID == "" then "/" + org.id
                         else if org.parentID in orgs then orgs[org.parentID].path + "/" + org.id
                         else org.path)
  {
  }

  // ---------- Fields over runs ----------

  datatype Field = Name | ParentID | ExternalID | SourceSystem | CreatedAt | UpdatedAt

  datatype Setting = Text(text: string) | Time(at: int)

  function FieldOf(r: Org, f: Field): Setting {
    match f
    case Name => Text(r.name)
    case ParentID => Text(r.parentID)
    case ExternalID => Text(r.externalID)
    case SourceSystem => Text(r.sourceSystem)
    case CreatedAt => Time(r.createdAt)
    case UpdatedAt => Time(r.updatedAt)
  }

  /** The operation sets the field of that organization, if it succeeds: Create all of them, Update the name
      and the parent where it is given one. */
  predicate Sets(op: Op, f: Field, id: string) {
    match op
    case CreateOrg(org, _) => org.id == id
    case UpdateOrg(org, _) =>
      org.id == id && (f == UpdatedAt || (f == Name && org.name != "") || (f == ParentID && org.parentID != ""))
    case _ => false
  }

  /** What it sets it to. */
  function Given(op: Op, f: Field): Setting
    requires op.CreateOrg? || op.UpdateOrg?
  {
    if f == CreatedAt || f == UpdatedAt then Time(op.now) else FieldOf(op.org, f)
  }

  /** i is the last operation of the run that successfully set the user'd field. */
  predicate LastSet(d: Directory, ops: seq<Op>, f: Field, id: string, i: nat) {
    && i < |ops| == |Results(d, ops)|
    && Sets(ops[i], f, id) && Results(d, ops)[i] == None
    && forall j | i < j < |ops| && Sets(ops[j], f, id) :: Results(d, ops)[j] != None
  }

  predicate NeverSet(d: Directory, ops: seq<Op>, f: Field, id: string) {
    && |ops| == |Results(d, ops)|
    && forall j | 0 <= j < |ops| && Sets(ops[j], f, id) :: Results(d, ops)[j] != None
  }

  lemma StepSets(d: Directory, op: Op, f: Field, id: string)
    ensures Sets(op, f, id) && Effect(d, op).1 == None ==>
              id in Effect(d, op).0.orgs && FieldOf(Effect(d, op).0.orgs[id], f) == Given(op, f)
    ensures !(Sets(op, f, id) && Effect(d, op).1 == None) ==>
              (id in Effect(d, op).0.orgs ==> id in d.orgs && FieldOf(Effect(d, op).0.orgs[id], f) == FieldOf(d.orgs[id], f))
  {
    hide CreateEffect, UpdateEffect, DeleteEffect;
    match op
    case CreateOrg(org, now) => CreateSets(d, org, now);
    case UpdateOrg(org, now) => UpdateSets(d, org, now);
    case DeleteOrg(id') => DeleteDrops(d, id');
    case _ =>
  }

  lemma {:induction false} FieldAfter(d: Directory, ops: seq<Op>, f: Field, id: string)
    requires id in Run(d, ops).orgs
    ensures NeverSet(d, ops, f, id) ==> id in d.orgs && FieldOf(Run(d, ops).orgs[id], f) == FieldOf(d.orgs[id], f)
    ensures forall i: nat | LastSet(d, ops, f, id, i) :: FieldOf(Run(d, ops).orgs[id], f) == Given(ops[i], f)
    ensures NeverSet(d, ops, f, id) || exists i: nat :: LastSet(d, ops, f, id, i)
    decreases |ops|
  {
    ResultsLength(d, ops);
    if ops != [] {
      hide Effect, LastSet, NeverSet, Sets, FieldOf, Given;
      var d1, rest := Effect(d, ops[0]).0, ops[1..];
      StepSets(d, ops[0], f, id);
      FieldAfter(d1, rest, f, id);
      if NeverSet(d1, rest, f, id) {
        ShiftNeverSet(d, ops, f, id);
      } else {
        var i: nat :| LastSet(d1, rest, f, id, i);
        WithinRun(d1, rest, f, id, i);
        ShiftLast(d, ops, f, id, i + 1);
        assert LastSet(d, ops, f, id, i + 1);
      }
      forall i: nat | LastSet(d, ops, f, id, i)
        ensures FieldOf(Run(d, ops).orgs[id], f) == Given(ops[i], f)
      {
        WithinRun(d, ops, f, id, i);
        if i > 0 {
          ShiftLast(d, ops, f, id, i);
          assert rest[i - 1] == ops[i];
        } else {
          ShiftFirst(d, ops, f, id);
        }
      }
      if NeverSet(d, ops, f, id) { ShiftFirst(d, ops, f, id); }
    }
  }

  lemma WithinRun(d: Directory, ops: seq<Op>, f: Field, id: string, i: nat)
    requires LastSet(d, ops, f, id, i)
    ensures i < |ops| && Sets(ops[i], f, id)
    ensures i == 0 ==> Effect(d, ops[0]).1 == None
  {
    LaterResults(d, ops);
  }

  lemma ShiftLast(d: Directory, ops: seq<Op>, f: Field, id: string, i: nat)
    requires 0 < i < |ops|
    ensures LastSet(d, ops, f, id, i) <==> LastSet(Effect(d, ops[0]).0, ops[1..], f, id, i - 1)
  {
    hide Effect;
    LaterResults(d, ops);
    var rest, res := ops[1..], Results(Effect(d, ops[0]).0, ops[1..]);
    assert forall j | 0 < j < |ops| :: ops[j] == rest[j - 1] && Results(d, ops)[j] == res[j - 1];
    assert forall j | 0 <= j < |rest| :: rest[j] == ops[j + 1] && res[j] == Results(d, ops)[j + 1];
  }

  lemma ShiftFirst(d: Directory, ops: seq<Op>, f: Field, id: string)
    requires ops != [] && (LastSet(d, ops, f, id, 0) || NeverSet(d, ops, f, id))
    ensures NeverSet(Effect(d, ops[0]).0, ops[1..], f, id)
    ensures NeverSet(d, ops, f, id) ==> !(Sets(ops[0], f, id) && Effect(d, ops[0]).1 == None)
  {
    hide Effect;
    LaterResults(d, ops);
    var rest, res := ops[1..], Results(Effect(d, ops[0]).0, ops[1..]);
    assert forall j | 0 <= j < |rest| :: rest[j] == ops[j + 1] && res[j] == Results(d, ops)[j + 1];
  }

  lemma ShiftNeverSet(d: Directory, ops: seq<Op>, f: Field, id: string)
    requires ops != [] && NeverSet(Effect(d, ops[0]).0, ops[1..], f, id)
    ensures NeverSet(d, ops, f, id) || LastSet(d, ops, f, id, 0)
  {
    hide Effect;
    LaterResults(d, ops);
    var rest, res := ops[1..], Results(Effect(d, ops[0]).0, ops[1..]);
    assert forall j | 0 < j < |ops| :: ops[j] == rest[j - 1] && Results(d, ops)[j] == res[j - 1];
  }

  lemma {:induction false} ResultsLength(d: Directory, ops: seq<Op>)
    ensures |Results(d, ops)| == |ops|
    decreases |ops|
  {
    if ops != [] { ResultsLength(Effect(d, ops[0]).0, ops[1..]); }
  }

  /** Results after the first operation are those of the remaining run. */
  lemma LaterResults(d: Directory, ops: seq<Op>)
    requires ops != []
    ensures |Results(d, ops)| == |ops| && |Results(Effect(d, ops[0]).0, ops[1..])| == |ops| - 1
    ensures Results(d, ops)[0] == Effect(d, ops[0]).1
    ensures forall i | 0 < i < |ops| :: Results(d, ops)[i] == Results(Effect(d, ops[0]).0, ops[1..])[i - 1]
  {
    ResultsLength(d, ops);
    ResultsLength(Effect(d, ops[0]).0, ops[1..]);
  }

  /** Whatever the run, deletions included: each field of a stored organization has the value given by the last
      of its successful operations that set the field, and there is one. */
  lemma OrganizationFollowsHistory(ops: seq<Op>, id: string, f: Field)
    requires id in Run(EMPTY, ops).orgs
    ensures exists i: nat :: LastSet(EMPTY, ops, f, id, i)
    ensures forall i: nat | LastSet(EMPTY, ops, f, id, i) :: FieldOf(Run(EMPTY, ops).orgs[id], f) == Given(ops[i], f)
  {
    FieldAfter(EMPTY, ops, f, id);
  }
}
