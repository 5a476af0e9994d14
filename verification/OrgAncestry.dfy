/**
  When Path tells ancestors from others: which ids and which reuse of ids break it, exactly.
*/
module OrgAncestry {
  import opened Bytes
  import opened OrgLedger
  import opened OrgPaths

  /** Among the stored organizations, Path(a) + "/" begins Path(o) exactly if a is a proper ancestor of o at
      creation. */
  ghost predicate Ancestral(d: Directory, chains: Chains) {
    forall a, o | a in d.orgs && o in d.orgs :: TellsPair(d, chains, a, o)
  }

  predicate TellsPair(d: Directory, chains: Chains, a: string, o: string)
    requires a in d.orgs && o in d.orgs
  {
    PathBelow(d.orgs, a, o) <==> a in At(chains, o) && a != o
  }

  ghost predicate AncestralAfter(ops: seq<Op>) {
    Ancestral(Run(EMPTY, ops), History(EMPTY, map[], ops))
  }

  // ---------- Slashes ----------

  /** The two roots y and x. */
  function TwoRoots(y: string, x: string): seq<Op> {
    [CreateOrg(Named(y, ""), 0), CreateOrg(Named(x, ""), 0)]
  }

  lemma RunCons(d: Directory, chains: Chains, op: Op, rest: seq<Op>)
    ensures Run(d, [op] + rest) == Run(Effect(d, op).0, rest)
    ensures History(d, chains, [op] + rest) == History(Effect(d, op).0, ChainsAfter(d, chains, op), rest)
    ensures NeverReused(d, chains, [op] + rest) <==>
            NewId(d, chains, op) && NeverReused(Effect(d, op).0, ChainsAfter(d, chains, op), rest)
  {
    assert ([op] + rest)[1..] == rest;
  }

  lemma RootsCreated(y: string, x: string)
    requires y != x
    ensures var d, chains := Run(EMPTY, TwoRoots(y, x)), History(EMPTY, map[], TwoRoots(y, x));
      && NeverReused(EMPTY, map[], TwoRoots(y, x))
      && d.orgs.Keys == {y, x} && d.orgs[y].path == "/" + y && d.orgs[x].path == "/" + x
      && At(chains, x) == [x]
  {
    var o1, o2 := CreateOrg(Named(y, ""), 0), CreateOrg(Named(x, ""), 0);
    var d1, c1 := Effect(EMPTY, o1).0, ChainsAfter(EMPTY, map[], o1);
    RunCons(d1, c1, o2, []);
    RunCons(EMPTY, map[], o1, [o2]);
    assert [o1] + [o2] == TwoRoots(y, x) && [o2] + [] == [o2];
  }

  lemma FirstSlash(x: string) returns (i: nat)
    requires !SlashFree(x)
    ensures i < |x| && x[i] == '/' && SlashFree(x[..i])
  {
    i := 0;
    while x[i] != '/'
      invariant i < |x| && SlashFree(x[..i]) && '/' in x[i..]
      decreases |x| - i
    {
      assert x[i..] == [x[i]] + x[i + 1..] && x[..i + 1] == x[..i] + [x[i]];
      i := i + 1;
    }
  }

  /** Every id with a slash breaks it: the root named by the part before its first slash looks like an
      ancestor of the root it names. */
  lemma SlashBreaksAncestry(x: string) returns (y: string)
    requires !SlashFree(x)
    ensures SlashFree(y) && y != x && NeverReused(EMPTY, map[], TwoRoots(y, x)) && !AncestralAfter(TwoRoots(y, x))
  {
    var i := FirstSlash(x);
    y := x[..i];
    RootsCreated(y, x);
    var d, chains := Run(EMPTY, TwoRoots(y, x)), History(EMPTY, map[], TwoRoots(y, x));
    hide Run, History, NeverReused;
    assert ("/" + x)[..i + 2] == "/" + y + "/";
    assert PathBelow(d.orgs, y, x) && !TellsPair(d, chains, y, x);
  }

  ghost predicate SlashFreeBut(ops: seq<Op>, x: string) {
    forall i | 0 <= i < |ops| && ops[i].CreateOrg? :: SlashFree(ops[i].org.id) || ops[i].org.id == x
  }

  /** An id is safe in every run whose other ids are slash-free and never reused if and only if it holds no
      slash itself. */
  lemma SlashFreeIff(x: string)
    ensures SlashFree(x) <==>
            forall ops | NeverReused(EMPTY, map[], ops) && SlashFreeBut(ops, x) :: AncestralAfter(ops)
  {
    hide NeverReused, Run, History, SlashFree, PathBelow;
    if SlashFree(x) {
      forall ops | NeverReused(EMPTY, map[], ops) && SlashFreeBut(ops, x) ensures AncestralAfter(ops) {
        var d, chains := Run(EMPTY, ops), History(EMPTY, map[], ops);
        forall a, o | a in d.orgs && o in d.orgs
          ensures TellsPair(d, chains, a, o)
        {
          PathCharacterisesAncestry(ops, a, o);
        }
      }
    } else {
      var y := SlashBreaksAncestry(x);
      assert SlashFreeBut(TwoRoots(y, x), x);
    }
  }

  // ---------- Reused ids ----------

  /** The chain a successful Create gives the new organization. */
  function NewChain(chains: Chains, org: Org): seq<string> {
    (if org.parentID == "" then [] else At(chains, org.parentID)) + [org.id]
  }

  /** A Create brings its id back to where it was: every stored organization that has the id on its chain
      has the new chain as the beginning of its own. */
  ghost predicate Rejoins(d: Directory, chains: Chains, op: Op) {
    op.CreateOrg? && Effect(d, op).1 == None ==>
      forall o | o in d.orgs && op.org.id in At(chains, o) :: NewChain(chains, op.org) <= At(chains, o)
  }

  lemma BelowIsPrefix(d: Directory, chains: Chains, a: string, o: string)
    requires PathsAreChains(d, chains) && ChainsSlashFree(chains) && a in d.orgs && o in d.orgs
    ensures PathBelow(d.orgs, a, o) <==> |chains[a]| < |chains[o]| && chains[o][..|chains[a]|] == chains[a]
  {
    hide Join, AllSlashFree;
    PrefixIffChain(chains[a], chains[o]);
  }

  /** The new organization's own ancestors are right whatever its id. */
  lemma NewIsBelow(d: Directory, chains: Chains, org: Org, a: string)
    requires PathsAreChains(d, chains) && ChainsSlashFree(chains) && Ancestral(d, chains)
    requires org.id !in d.orgs && ParentOk(d.orgs, org.parentID) && a in d.orgs
    ensures var c := NewChain(chains, org);
      (|chains[a]| < |c| && c[..|chains[a]|] == chains[a]) <==> a in c && a != org.id
  {
    var base := if org.parentID == "" then [] else At(chains, org.parentID);
    var c := NewChain(chains, org);
    assert a != org.id && forall x :: x in c <==> x in base || x == org.id;
    assert |chains[a]| <= |base| ==> c[..|chains[a]|] == base[..|chains[a]|];
    if org.parentID != "" {
      BelowIsPrefix(d, chains, a, org.parentID);
      assert EndsIn(chains[a], a) && EndsIn(base, org.parentID);
      assert org.parentID in base;
      hide PathsAreChains, ChainsSlashFree, Join;
      assert base[..|base|] == base;
    }
  }

  lemma SlashFreeAfter(d: Directory, chains: Chains, op: Op)
    requires ChainsSlashFree(chains) && (op.CreateOrg? ==> SlashFree(op.org.id))
    ensures ChainsSlashFree(ChainsAfter(d, chains, op))
  {
    hide SlashFree, Effect;
  }

  /** What a successful Create does to directory and chains. */
  lemma CreatedAs(d: Directory, chains: Chains, org: Org, now: int)
    requires PathsAreChains(d, chains) && ChainsSlashFree(chains) && SlashFree(org.id) && CreateEffect(d, org, now).1 == None
    ensures var d', chains' := CreateEffect(d, org, now).0, ChainsAfter(d, chains, CreateOrg(org, now));
      && org.id !in d.orgs && ParentOk(d.orgs, org.parentID) && d'.orgs.Keys == d.orgs.Keys + {org.id}
      && (forall id | id in d.orgs :: d'.orgs[id] == d.orgs[id])
      && chains' == chains[org.id := NewChain(chains, org)]
      && PathsAreChains(d', chains') && ChainsSlashFree(chains')
  {
    hide PathsAreChains, ChainsSlashFree, SlashFree;
    PathsStep(d, chains, CreateOrg(org, now));
    SlashFreeAfter(d, chains, CreateOrg(org, now));
  }

  lemma CreatedPair(d: Directory, chains: Chains, org: Org, now: int, a: string, o: string)
    requires PathsAreChains(d, chains) && ChainsSlashFree(chains) && Ancestral(d, chains) && SlashFree(org.id)
    requires CreateEffect(d, org, now).1 == None
    requires var d' := CreateEffect(d, org, now).0; a in d'.orgs && o in d'.orgs
    ensures var d', chains' := CreateEffect(d, org, now).0, ChainsAfter(d, chains, CreateOrg(org, now));
      TellsPair(d', chains', a, o) <==>
      (a == org.id && o in d.orgs && org.id in At(chains, o) ==> NewChain(chains, org) <= At(chains, o))
  {
    hide CreateEffect, ChainsAfter, Join, ChainsSlashFree, SlashFree, AllSlashFree, Ancestral;
    CreatedAs(d, chains, org, now);
    var d', chains', c := CreateEffect(d, org, now).0, ChainsAfter(d, chains, CreateOrg(org, now)), NewChain(chains, org);
    BelowIsPrefix(d', chains', a, o);
    if a != org.id && o != org.id {
      AncestralPair(d, chains, a, o);
    } else if a != org.id {
      NewIsBelow(d, chains, org, a);
    } else if o != org.id {
      PrefixHasLast(c, chains[o], org.id);
    }
  }

  lemma AncestralPair(d: Directory, chains: Chains, a: string, o: string)
    requires Ancestral(d, chains) && a in d.orgs && o in d.orgs
    ensures TellsPair(d, chains, a, o)
  {
  }

  lemma PrefixHasLast(c: seq<string>, chain: seq<string>, x: string)
    requires EndsIn(c, x) && chain != [] && chain[|chain| - 1] != x
    ensures |c| < |chain| && chain[..|c|] == c <==> c <= chain
    ensures c <= chain ==> x in chain
  {
    if c <= chain { assert chain[|c| - 1] == x; }
  }

  lemma CreateAddsKey(d: Directory, org: Org, now: int)
    requires CreateEffect(d, org, now).1 == None
    ensures CreateEffect(d, org, now).0.orgs.Keys == d.orgs.Keys + {org.id}
  {
  }

  lemma CreateAncestryIff(d: Directory, chains: Chains, org: Org, now: int)
    requires PathsAreChains(d, chains) && ChainsSlashFree(chains) && Ancestral(d, chains) && SlashFree(org.id)
    requires CreateEffect(d, org, now).1 == None
    ensures Ancestral(CreateEffect(d, org, now).0, ChainsAfter(d, chains, CreateOrg(org, now)))
       <==> Rejoins(d, chains, CreateOrg(org, now))
  {
    hide CreateEffect, ChainsAfter, TellsPair, NewChain, PathsAreChains, ChainsSlashFree, SlashFree, At;
    var d', chains' := CreateEffect(d, org, now).0, ChainsAfter(d, chains, CreateOrg(org, now));
    CreateAddsKey(d, org, now);
    forall a, o | a in d'.orgs && o in d'.orgs
      ensures TellsPair(d', chains', a, o) <==>
              (a == org.id && o in d.orgs && org.id in At(chains, o) ==> NewChain(chains, org) <= At(chains, o))
    {
      CreatedPair(d, chains, org, now, a, o);
    }
    if Ancestral(d', chains') {
      forall o | o in d.orgs && org.id in At(chains, o) ensures NewChain(chains, org) <= At(chains, o) {
        assert TellsPair(d', chains', org.id, o);
      }
    }
  }

  /** While Path tells ancestors, an operation keeps it doing so exactly if it is no Create that brings an
      id back elsewhere. */
  lemma AncestryStepIff(d: Directory, chains: Chains, op: Op)
    requires PathsAreChains(d, chains) && ChainsSlashFree(chains) && Ancestral(d, chains)
    requires op.CreateOrg? ==> SlashFree(op.org.id)
    ensures Ancestral(Effect(d, op).0, ChainsAfter(d, chains, op)) <==> Rejoins(d, chains, op)
  {
    hide Cascade, Filter, Lists, NewChain;
    if op.CreateOrg? && Effect(d, op).1 == None {
      CreateAncestryIff(d, chains, op.org, op.now);
    }
  }

  ghost predicate Throughout(d: Directory, chains: Chains, ops: seq<Op>)
    decreases |ops|
  {
    && Ancestral(d, chains)
    && (ops == [] || Throughout(Effect(d, ops[0]).0, ChainsAfter(d, chains, ops[0]), ops[1..]))
  }

  ghost predicate AlwaysRejoins(d: Directory, chains: Chains, ops: seq<Op>)
    decreases |ops|
  {
    ops == [] ||
    (Rejoins(d, chains, ops[0]) && AlwaysRejoins(Effect(d, ops[0]).0, ChainsAfter(d, chains, ops[0]), ops[1..]))
  }

  /** With slash-free ids, Path tells ancestors after every operation of a run if and only if no Create of
      the run brings an id back elsewhere than where its remaining descendants knew it. */
  lemma {:induction false} RunAncestralIff(d: Directory, chains: Chains, ops: seq<Op>)
    requires PathsAreChains(d, chains) && ChainsSlashFree(chains) && Ancestral(d, chains) && SlashFreeIds(ops)
    ensures Throughout(d, chains, ops) <==> AlwaysRejoins(d, chains, ops)
    decreases |ops|
  {
    hide PathsAreChains, ChainsSlashFree, Ancestral, Rejoins, Effect, ChainsAfter, SlashFree;
    if ops != [] {
      var d1, chains1 := Effect(d, ops[0]).0, ChainsAfter(d, chains, ops[0]);
      AncestryStepIff(d, chains, ops[0]);
      if Ancestral(d1, chains1) {
        PathsStep(d, chains, ops[0]);
        SlashFreeAfter(d, chains, ops[0]);
        assert SlashFreeIds(ops[1..]);
        RunAncestralIff(d1, chains1, ops[1..]);
      }
    }
  }

  // A reused id that breaks it.

  const REUSE: seq<Op> :=
    [CreateOrg(Named("a", ""), 0), CreateOrg(Named("o", "a"), 0), DeleteOrg("a"), CreateOrg(Named("a", "o"), 0)]

  /** The directory and the chains after the first k operations. */
  function Reused(k: nat): (Directory, Chains)
    requires k <= |REUSE|
  {
    if k == 0 then (EMPTY, map[])
    else
      var (d, chains) := Reused(k - 1);
      (Effect(d, REUSE[k - 1]).0, ChainsAfter(d, chains, REUSE[k - 1]))
  }

  lemma {:induction false} ReusedRun(k: nat)
    requires k <= |REUSE|
    ensures var (d, chains) := Reused(k);
      Run(EMPTY, REUSE) == Run(d, REUSE[k..]) && History(EMPTY, map[], REUSE) == History(d, chains, REUSE[k..])
  {
    hide Effect, ChainsAfter;
    if k > 0 {
      ReusedRun(k - 1);
      assert REUSE[k - 1..] == [REUSE[k - 1]] + REUSE[k..];
      RunCons(Reused(k - 1).0, Reused(k - 1).1, REUSE[k - 1], REUSE[k..]);
    }
  }

  lemma ReusedBefore()
    ensures var (d, chains) := Reused(3);
      && d.orgs.Keys == {"o"} && d.orgs["o"].path == "/a/o" && d.orgs["o"].parentID == "a"
      && "o" in chains && chains["o"] == ["a", "o"]
  {
    var (d1, c1) := Reused(1);
    assert d1.orgs.Keys == {"a"} && d1.orgs["a"].path == "/a" && "a" in c1 && c1["a"] == ["a"];
    var (d2, c2) := Reused(2);
    assert d2.orgs.Keys == {"a", "o"} && d2.orgs["o"].path == "/a/o";
  }

  /** Re-created below its old descendant, an organization is still on that one's chain, but its new Path
      does not begin the other's; and the two are each other's parent. */
  lemma ReuseBreaksAncestry()
    ensures SlashFreeIds(REUSE) && NoReparenting(EMPTY, REUSE)
    ensures !AncestralAfter(REUSE) && Walks(Run(EMPTY, REUSE).orgs, "a", "a", 2)
  {
    ReusedRun(4);
    ReusedBefore();
    ReusedKeepsParents(0);
    hide NoReparenting, Cascade, Filter, History, Run;
    var (d, chains) := Reused(4);
    var d3 := Reused(3).0;
    assert d == Effect(d3, REUSE[3]).0 && REUSE[4..] == [];
    RunNil(d, chains);
    assert d.orgs.Keys == {"a", "o"} && d.orgs["a"].path == "/a/o/a" && d.orgs["a"].parentID == "o";
    assert |d.orgs["a"].path| > |d.orgs["o"].path| && "a" in At(chains, "o");
    assert !TellsPair(d, chains, "a", "o");
    assert Walks(d.orgs, "a", "a", 0) && Walks(d.orgs, "o", "a", 1);
  }

  lemma {:induction false} ReusedKeepsParents(k: nat)
    requires k <= |REUSE|
    ensures NoReparenting(Reused(k).0, REUSE[k..])
    decreases |REUSE| - k
  {
    hide Effect, ChainsAfter;
    if k < |REUSE| {
      ReusedKeepsParents(k + 1);
      assert REUSE[k..][1..] == REUSE[k + 1..];
    }
  }

  lemma RunNil(d: Directory, chains: Chains)
    ensures Run(d, []) == d && History(d, chains, []) == chains
  {
  }
}
