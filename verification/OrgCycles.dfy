/**
  Cycles among ParentIDs.  Neither Create nor Update looks for one.  This module proves which calls close
  a cycle: those whose new ParentID already leads, over the stored ParentIDs, to the organization itself.
*/
module OrgCycles {
  import opened Bytes
  import opened OrgLedger
  import opened OrgPaths

  ghost predicate Acyclic(orgs: map<string, Org>) {
    forall x, n: nat | n > 0 :: !Walks(orgs, x, x, n)
  }

  /** Some walk up the ParentIDs leads from o to a; of no steps, if they are the same. */
  ghost predicate Leads(orgs: map<string, Org>, o: string, a: string) {
    exists n: nat :: Walks(orgs, o, a, n)
  }

  lemma {:induction false} WalkOn(orgs: map<string, Org>, o: string, b: string, a: string, n: nat, m: nat)
    requires Walks(orgs, o, b, n) && Walks(orgs, b, a, m)
    ensures Walks(orgs, o, a, n + m)
    decreases n
  {
    if n > 0 { WalkOn(orgs, orgs[o].parentID, b, a, n - 1, m); }
  }

  /** A walk to x does not use x's own record when x is on no cycle, so replacing that record keeps it. */
  lemma {:induction false} WalkToKept(orgs: map<string, Org>, x: string, r: Org, o: string, n: nat)
    requires Acyclic(orgs) && Walks(orgs, o, x, n)
    ensures Walks(orgs[x := r], o, x, n)
    decreases n
  {
    if n > 0 { WalkToKept(orgs, x, r, orgs[o].parentID, n - 1); }
  }

  /** A walk after the record of x was replaced is an old walk, or it comes to x by one and goes on. */
  lemma {:induction false} FirstHit(orgs: map<string, Org>, x: string, r: Org, o: string, a: string, n: nat) returns (k: nat)
    requires Walks(orgs[x := r], o, a, n)
    ensures Walks(orgs, o, a, n) || (k < n && Walks(orgs, o, x, k) && Walks(orgs[x := r], x, a, n - k))
    decreases n
  {
    k := 0;
    if n > 0 && o != x {
      k := FirstHit(orgs, x, r, orgs[o].parentID, a, n - 1);
      k := k + 1;
    }
  }

  lemma CycleCloses(orgs: map<string, Org>, x: string, r: Org)
    requires Acyclic(orgs) && r.parentID != "" && Leads(orgs, r.parentID, x)
    ensures !Acyclic(orgs[x := r])
  {
    var n: nat :| Walks(orgs, r.parentID, x, n);
    WalkToKept(orgs, x, r, r.parentID, n);
    assert Walks(orgs[x := r], x, x, n + 1);
  }

  lemma CycleWasClosed(orgs: map<string, Org>, x: string, r: Org, y: string, n: nat)
    requires Acyclic(orgs) && n > 0 && Walks(orgs[x := r], y, y, n)
    ensures r.parentID != "" && Leads(orgs, r.parentID, x)
  {
    var p := r.parentID;
    var k := FirstHit(orgs, x, r, y, y, n);
    assert Walks(orgs[x := r], p, y, n - k - 1);
    var j := FirstHit(orgs, x, r, p, y, n - k - 1);
    if Walks(orgs, p, y, n - k - 1) { WalkOn(orgs, p, y, x, n - k - 1, k); }
  }

  /** Storing a record for x, new or replaced, keeps the ParentIDs free of cycles if and only if it names
      no parent, or one from which no walk up the stored ParentIDs leads to x. */
  lemma StoringKeepsAcyclicIff(orgs: map<string, Org>, x: string, r: Org)
    requires Acyclic(orgs)
    ensures Acyclic(orgs[x := r]) <==> r.parentID == "" || !Leads(orgs, r.parentID, x)
  {
    if r.parentID != "" && Leads(orgs, r.parentID, x) { CycleCloses(orgs, x, r); }
    var after := orgs[x := r];
    if y, n: nat :| n > 0 && Walks(after, y, y, n) { CycleWasClosed(orgs, x, r, y, n); }
  }

  /** An Update that names a parent keeps the ParentIDs free of cycles exactly if that parent is not
      already below the organization, or the organization itself. */
  lemma UpdateKeepsAcyclicIff(d: Directory, org: Org, now: int)
    requires Acyclic(d.orgs) && org.id in d.orgs && org.parentID != ""
    ensures Acyclic(UpdateEffect(d, org, now).0.orgs) <==> !Leads(d.orgs, org.parentID, org.id)
  {
    StoringKeepsAcyclicIff(d.orgs, org.id, Revise(d.orgs[org.id], org, now));
  }

  /** A Create keeps them free of cycles exactly if its parent does not lead to the new id over a ParentID
      left dangling by a Delete. */
  lemma CreateKeepsAcyclicIff(d: Directory, org: Org, now: int)
    requires Acyclic(d.orgs) && CreateEffect(d, org, now).1 == None
    ensures Acyclic(CreateEffect(d, org, now).0.orgs) <==> org.parentID == "" || !Leads(d.orgs, org.parentID, org.id)
  {
    StoringKeepsAcyclicIff(d.orgs, org.id, CreateEffect(d, org, now).0.orgs[org.id]);
  }

  lemma {:induction false} WalkWasThere(orgs: map<string, Org>, x: string, o: string, a: string, n: nat)
    requires Walks(orgs - {x}, o, a, n)
    ensures Walks(orgs, o, a, n)
    decreases n
  {
    if n > 0 { WalkWasThere(orgs, x, orgs[o].parentID, a, n - 1); }
  }

  lemma DeleteKeepsAcyclic(d: Directory, id: string)
    requires Acyclic(d.orgs)
    ensures Acyclic(DeleteEffect(d, id).0.orgs)
  {
    forall x, n: nat | n > 0 ensures !Walks(d.orgs - {id}, x, x, n) {
      if Walks(d.orgs - {id}, x, x, n) { WalkWasThere(d.orgs, id, x, x, n); }
    }
  }

  /** The check the code lacks, made before the call. */
  ghost predicate ClosesCycle(d: Directory, op: Op) {
    match op
    case CreateOrg(org, _) => Effect(d, op).1 == None && org.parentID != "" && Leads(d.orgs, org.parentID, org.id)
    case UpdateOrg(org, _) => org.id in d.orgs && org.parentID != "" && Leads(d.orgs, org.parentID, org.id)
    case _ => false
  }

  lemma UpdateWithoutParent(d: Directory, org: Org, now: int)
    requires Acyclic(d.orgs) && (org.id !in d.orgs || org.parentID == "")
    ensures Acyclic(UpdateEffect(d, org, now).0.orgs)
  {
    if org.id in d.orgs {
      var e := d.orgs[org.id];
      assert d.orgs[org.id := e] == d.orgs;
      StoringKeepsAcyclicIff(d.orgs, org.id, e);
      StoringKeepsAcyclicIff(d.orgs, org.id, Revise(e, org, now));
    }
  }

  /** From a directory without cycles, an operation leads to one without cycles exactly if it passes the
      check. */
  lemma StepKeepsAcyclicIff(d: Directory, op: Op)
    requires Acyclic(d.orgs)
    ensures Acyclic(Effect(d, op).0.orgs) <==> !ClosesCycle(d, op)
  {
    hide Acyclic, Leads;
    match op
    case CreateOrg(org, now) => if Effect(d, op).1 == None { CreateKeepsAcyclicIff(d, org, now); }
    case UpdateOrg(org, now) =>
      if org.id in d.orgs && org.parentID != "" {
        UpdateKeepsAcyclicIff(d, org, now);
      } else {
        UpdateWithoutParent(d, org, now);
      }
    case DeleteOrg(id) => DeleteKeepsAcyclic(d, id);
    case _ =>
  }

  // ---------- Whole runs ----------

  ghost predicate NeverCloses(d: Directory, ops: seq<Op>)
    decreases |ops|
  {
    ops == [] || (!ClosesCycle(d, ops[0]) && NeverCloses(Effect(d, ops[0]).0, ops[1..]))
  }

  lemma RunPrefix(d: Directory, ops: seq<Op>, k: nat)
    requires 0 < k <= |ops|
    ensures Run(d, ops[..k]) == Run(Effect(d, ops[0]).0, ops[1..][..k - 1])
  {
    assert ops[..k][1..] == ops[1..][..k - 1];
  }

  /** A run stays free of cycles throughout if and only if each of its operations passes the check. */
  lemma {:induction false} RunAcyclicIff(d: Directory, ops: seq<Op>)
    requires Acyclic(d.orgs)
    ensures (forall k | 0 <= k <= |ops| :: Acyclic(Run(d, ops[..k]).orgs)) <==> NeverCloses(d, ops)
    decreases |ops|
  {
    hide Acyclic, Effect, ClosesCycle;
    if ops != [] {
      var d1, rest := Effect(d, ops[0]).0, ops[1..];
      StepKeepsAcyclicIff(d, ops[0]);
      RunPrefix(d, ops, 1);
      forall k | 0 < k <= |ops| ensures Run(d, ops[..k]) == Run(d1, rest[..k - 1]) { RunPrefix(d, ops, k); }
      if Acyclic(d1.orgs) {
        RunAcyclicIff(d1, rest);
        assert forall k | 0 <= k <= |rest| :: Run(d1, rest[..k]) == Run(d, ops[..k + 1]);
      } else {
        assert !Acyclic(Run(d, ops[..1]).orgs);
      }
    }
  }

  /** In particular a run of a new store. */
  lemma NewStoreAcyclicIff(ops: seq<Op>)
    ensures (forall k | 0 <= k <= |ops| :: Acyclic(Run(EMPTY, ops[..k]).orgs)) <==> NeverCloses(EMPTY, ops)
  {
    assert Acyclic(EMPTY.orgs);
    hide Acyclic;
    RunAcyclicIff(EMPTY, ops);
  }
}
