/**
  Organization paths.  Create builds Path from the parent's Path once and nothing ever rebuilds it, so Path
  is the chain of ancestors an organization had when it was created.  While no Update changes a ParentID,
  that is also the chain the ParentIDs walk.
*/
module OrgPaths {
  import opened Bytes
  import opened OrgLedger

  // ---------- Chains as strings ----------

  /** "/a/b/c" for the chain a, b, c. */
  function Join(chain: seq<string>): string
    decreases |chain|
  {
    if chain == [] then "" else Join(chain[..|chain| - 1]) + ("/" + chain[|chain| - 1])
  }

  /** The pieces once one more character is put in front. */
  function Extend(c: char, pieces: seq<string>): (extended: seq<string>)
    requires |pieces| >= 1
    ensures |extended| >= 1
  {
    if c == '/' then [""] + pieces else [[c] + pieces[0]] + pieces[1..]
  }

  /** The pieces of a string between its slashes. */
  function Split(s: string): (pieces: seq<string>)
    ensures |pieces| >= 1
    decreases |s|
  {
    if s == "" then [""] else Extend(s[0], Split(s[1..]))
  }

  predicate SlashFree(x: string) { '/' !in x }

  ghost predicate AllSlashFree(chain: seq<string>) {
    forall k | 0 <= k < |chain| :: SlashFree(chain[k])
  }

  lemma Assoc<T>(a: seq<T>, b: seq<T>, c: seq<T>)
    ensures (a + b) + c == a + (b + c)
  {
  }

  lemma ExtendAppend(c: char, p: seq<string>, q: seq<string>)
    requires |p| >= 1
    ensures Extend(c, p + q) == Extend(c, p) + q
  {
  }

  lemma {:induction false} SplitAppend(s: string, rest: string)
    ensures Split(s + ("/" + rest)) == Split(s) + Split(rest)
    decreases |s|
  {
    hide Extend;
    var tail := "/" + rest;
    if s == "" {
      assert s + tail == tail && tail[0] == '/' && tail[1..] == rest;
      ExtendSlash(Split(rest));
    } else {
      assert (s + tail)[0] == s[0] && (s + tail)[1..] == s[1..] + tail;
      SplitAppend(s[1..], rest);
      ExtendAppend(s[0], Split(s[1..]), Split(rest));
    }
  }

  lemma ExtendSlash(pieces: seq<string>)
    requires |pieces| >= 1
    ensures Extend('/', pieces) == [""] + pieces
  {
  }

  lemma {:induction false} SplitOne(x: string)
    requires SlashFree(x)
    ensures Split(x) == [x]
    decreases |x|
  {
    if x != "" {
      assert x[0] in x && forall c | c in x[1..] :: c in x;
      SplitOne(x[1..]);
      assert [x[0]] + x[1..] == x;
    }
  }

  /** Splitting a joined chain of slash-free ids gives the chain back, after the empty piece in front. */
  lemma {:induction false} SplitJoin(chain: seq<string>)
    requires AllSlashFree(chain)
    ensures Split(Join(chain)) == [""] + chain
    decreases |chain|
  {
    if chain != [] {
      var init, last := chain[..|chain| - 1], chain[|chain| - 1];
      SplitJoin(init);
      SplitAppend(Join(init), last);
      SplitOne(last);
      assert init + [last] == chain;
    }
  }

  lemma JoinLast(chain: seq<string>)
    requires chain != []
    ensures Join(chain) == Join(chain[..|chain| - 1]) + ("/" + chain[|chain| - 1])
  {
  }

  lemma {:induction false} JoinAppend(a: seq<string>, b: seq<string>)
    ensures Join(a + b) == Join(a) + Join(b)
    decreases |b|
  {
    if b == [] {
      assert a + b == a;
    } else {
      hide Join;
      var init, last := b[..|b| - 1], b[|b| - 1];
      assert (a + b)[..|a + b| - 1] == a + init && (a + b)[|a + b| - 1] == last;
      JoinLast(a + b);
      JoinLast(b);
      JoinAppend(a, init);
      Assoc(Join(a), Join(init), "/" + last);
    }
  }

  lemma {:induction false} JoinStarts(chain: seq<string>)
    requires chain != []
    ensures "/" <= Join(chain)
    decreases |chain|
  {
    if |chain| > 1 { JoinStarts(chain[..|chain| - 1]); }
  }

  lemma Cut(s: string, whole: string)
    requires s + "/" <= whole
    ensures whole == s + ("/" + whole[|s| + 1..])
  {
  }

  lemma Cancel(a: seq<string>, b: seq<string>, pieces: seq<string>)
    requires [""] + b == ([""] + a) + pieces && |pieces| >= 1
    ensures |a| < |b| && b[..|a|] == a
  {
    assert forall k | 0 <= k < |a| :: a[k] == (([""] + a) + pieces)[k + 1] == ([""] + b)[k + 1] == b[k];
  }

  lemma PrefixHasChain(a: seq<string>, b: seq<string>)
    requires AllSlashFree(a) && AllSlashFree(b) && Join(a) + "/" <= Join(b)
    ensures |a| < |b| && b[..|a|] == a
  {
    hide *;
    Cut(Join(a), Join(b));
    SplitAppend(Join(a), Join(b)[|Join(a)| + 1..]);
    SplitJoin(a);
    SplitJoin(b);
    Cancel(a, b, Split(Join(b)[|Join(a)| + 1..]));
  }

  lemma ChainHasPrefix(a: seq<string>, b: seq<string>)
    requires |a| < |b| && b[..|a|] == a
    ensures Join(a) + "/" <= Join(b)
  {
    hide Join;
    var c := b[|a|..];
    assert b == a + c;
    JoinAppend(a, c);
    JoinStarts(c);
  }

  /** One path followed by a slash begins another exactly if its chain properly begins the other's. */
  lemma PrefixIffChain(a: seq<string>, b: seq<string>)
    requires AllSlashFree(a) && AllSlashFree(b)
    ensures Join(a) + "/" <= Join(b) <==> |a| < |b| && b[..|a|] == a
  {
    hide Join, AllSlashFree;
    if Join(a) + "/" <= Join(b) { PrefixHasChain(a, b); }
    if |a| < |b| && b[..|a|] == a { ChainHasPrefix(a, b); }
  }

  // ---------- Creation-time chains ----------

  type Chains = map<string, seq<string>>

  /** The history variable: for every id ever created, its chain of ancestors at that moment, itself last. */
  function ChainsAfter(d: Directory, chains: Chains, op: Op): Chains {
    if op.CreateOrg? && Effect(d, op).1 == None then
      chains[op.org.id := (if op.org.parentID == "" then [] else At(chains, op.org.parentID)) + [op.org.id]]
    else chains
  }

  function History(d: Directory, chains: Chains, ops: seq<Op>): Chains
    decreases |ops|
  {
    if ops == [] then chains else History(Effect(d, ops[0]).0, ChainsAfter(d, chains, ops[0]), ops[1..])
  }

  /** No Create brings back an id that was ever created. */
  predicate NewId(d: Directory, chains: Chains, op: Op) {
    op.CreateOrg? && Effect(d, op).1 == None ==> op.org.id !in chains
  }

  predicate NeverReused(d: Directory, chains: Chains, ops: seq<Op>)
    decreases |ops|
  {
    ops == [] ||
    (NewId(d, chains, ops[0]) && NeverReused(Effect(d, ops[0]).0, ChainsAfter(d, chains, ops[0]), ops[1..]))
  }

  ghost predicate SlashFreeIds(ops: seq<Op>) {
    forall i | 0 <= i < |ops| && ops[i].CreateOrg? :: SlashFree(ops[i].org.id)
  }

  predicate EndsIn(chain: seq<string>, id: string) {
    chain != [] && chain[|chain| - 1] == id
  }

  ghost predicate PathsAreChains(d: Directory, chains: Chains) {
    && (forall id | id in chains :: EndsIn(chains[id], id))
    && (forall id | id in d.orgs :: id in chains && d.orgs[id].path == Join(chains[id]))
  }

  lemma JoinSnoc(base: seq<string>, id: string)
    ensures Join(base + [id]) == Join(base) + "/" + id
  {
    assert (base + [id])[..|base|] == base;
  }

  lemma PathsStep(d: Directory, chains: Chains, op: Op)
    requires PathsAreChains(d, chains)
    ensures PathsAreChains(Effect(d, op).0, ChainsAfter(d, chains, op))
  {
    hide Join, Cascade, Filter, Lists;
    if op.CreateOrg? && Effect(d, op).1 == None {
      var base := if op.org.parentID == "" then [] else At(chains, op.org.parentID);
      JoinSnoc(base, op.org.id);
      JoinNone();
    }
  }

  lemma JoinNone()
    ensures Join([]) == ""
  {
  }

  /** Over every run, with re-parenting and reused ids too, Path spells the creation-time chain. */
  lemma {:induction false} PathsAlways(d: Directory, chains: Chains, ops: seq<Op>)
    requires PathsAreChains(d, chains)
    ensures PathsAreChains(Run(d, ops), History(d, chains, ops))
    decreases |ops|
  {
    hide Effect, ChainsAfter, PathsAreChains;
    if ops != [] {
      PathsStep(d, chains, ops[0]);
      PathsAlways(Effect(d, ops[0]).0, ChainsAfter(d, chains, ops[0]), ops[1..]);
    }
  }

  ghost predicate ChainsSlashFree(chains: Chains) {
    forall id | id in chains :: AllSlashFree(chains[id])
  }

  lemma {:induction false} SlashFreeAlways(d: Directory, chains: Chains, ops: seq<Op>)
    requires ChainsSlashFree(chains) && SlashFreeIds(ops)
    ensures ChainsSlashFree(History(d, chains, ops))
    decreases |ops|
  {
    hide Effect, SlashFree;
    if ops != [] {
      assert SlashFreeIds(ops[1..]);
      SlashFreeAlways(Effect(d, ops[0]).0, ChainsAfter(d, chains, ops[0]), ops[1..]);
    }
  }

  /** Every beginning of a chain is the chain of the organization it ends in; only root Creates bring the
      empty parent id, so it occurs in no chain but at the end. */
  ghost predicate Closed(chains: Chains) {
    forall o, k | o in chains && 0 <= k < |chains[o]| ::
      && chains[o][k] in chains && chains[chains[o][k]] == chains[o][..k + 1]
      && (k + 1 < |chains[o]| ==> chains[o][k] != "")
  }

  lemma ExtendClosed(chains: Chains, base: seq<string>, id: string)
    requires Closed(chains) && id !in chains && forall o | o in chains :: EndsIn(chains[o], o)
    requires base != [] ==> base[|base| - 1] != "" && base[|base| - 1] in chains && chains[base[|base| - 1]] == base
    ensures Closed(chains[id := base + [id]])
  {
    var chains', chain := chains[id := base + [id]], base + [id];
    forall k | 0 <= k < |chain|
      ensures chain[k] in chains' && chains'[chain[k]] == chain[..k + 1] && (k + 1 < |chain| ==> chain[k] != "")
    {
      if k < |base| {
        var p := base[|base| - 1];
        assert chains[p][k] in chains && chains[chains[p][k]] == base[..k + 1] == chain[..k + 1];
      } else {
        assert chain[..k + 1] == chain;
      }
    }
  }

  lemma ClosedStep(d: Directory, chains: Chains, op: Op)
    requires PathsAreChains(d, chains) && Closed(chains) && NewId(d, chains, op)
    ensures Closed(ChainsAfter(d, chains, op))
  {
    if op.CreateOrg? && Effect(d, op).1 == None {
      var base := if op.org.parentID == "" then [] else At(chains, op.org.parentID);
      assert op.org.parentID != "" ==> op.org.parentID in d.orgs && EndsIn(base, op.org.parentID);
      ExtendClosed(chains, base, op.org.id);
    }
  }

  lemma {:induction false} ClosedAlways(d: Directory, chains: Chains, ops: seq<Op>)
    requires PathsAreChains(d, chains) && Closed(chains) && NeverReused(d, chains, ops)
    ensures Closed(History(d, chains, ops))
    decreases |ops|
  {
    hide Effect, ChainsAfter, PathsAreChains, Closed, NewId;
    if ops != [] {
      PathsStep(d, chains, ops[0]);
      ClosedStep(d, chains, ops[0]);
      ClosedAlways(Effect(d, ops[0]).0, ChainsAfter(d, chains, ops[0]), ops[1..]);
    }
  }

  lemma StartsEmpty()
    ensures PathsAreChains(EMPTY, map[]) && Closed(map[]) && ChainsSlashFree(map[]) && Linked(EMPTY, map[])
  {
  }

  // ---------- Path and ancestry ----------

  predicate PathBelow(orgs: map<string, Org>, a: string, o: string)
    requires a in orgs && o in orgs
  {
    orgs[a].path + "/" <= orgs[o].path
  }

  lemma OnChainIffPrefix(chains: Chains, a: string, o: string)
    requires Closed(chains) && a in chains && o in chains && EndsIn(chains[a], a) && EndsIn(chains[o], o)
    ensures a in chains[o] && a != o <==> |chains[a]| < |chains[o]| && chains[o][..|chains[a]|] == chains[a]
  {
    if a in chains[o] {
      var k :| 0 <= k < |chains[o]| && chains[o][k] == a;
      assert chains[a] == chains[o][..k + 1];
    }
    if |chains[a]| < |chains[o]| && chains[o][..|chains[a]|] == chains[a] {
      assert chains[o][|chains[a]| - 1] == a;
    }
  }

  /** After every run that creates slash-free ids, splitting a stored organization's Path on "/" gives its
      creation-time chain, and Path(a) + "/" begins Path(o) exactly when the chain of a properly begins that
      of o; if no id was ever reused, exactly when a is one of o's proper ancestors at creation. */
  lemma PathCharacterisesAncestry(ops: seq<Op>, a: string, o: string)
    requires SlashFreeIds(ops)
    requires a in Run(EMPTY, ops).orgs && o in Run(EMPTY, ops).orgs
    ensures var d, chains := Run(EMPTY, ops), History(EMPTY, map[], ops);
      && o in chains && Split(d.orgs[o].path) == [""] + chains[o]
      && a in chains
      && (PathBelow(d.orgs, a, o) <==> |chains[a]| < |chains[o]| && chains[o][..|chains[a]|] == chains[a])
      && (NeverReused(EMPTY, map[], ops) ==> (PathBelow(d.orgs, a, o) <==> a in chains[o] && a != o))
  {
    hide Run, History, Closed, AllSlashFree, Split, NeverReused;
    StartsEmpty();
    PathsAlways(EMPTY, map[], ops);
    SlashFreeAlways(EMPTY, map[], ops);
    var chains := History(EMPTY, map[], ops);
    SplitJoin(chains[o]);
    PrefixIffChain(chains[a], chains[o]);
    if NeverReused(EMPTY, map[], ops) {
      ClosedAlways(EMPTY, map[], ops);
      OnChainIffPrefix(chains, a, o);
    }
  }

  function Named(id: string, parentID: string): Org {
    Org(id, "", parentID, "", "", "", 0, 0)
  }

  // ---------- Path and ParentID ----------

  /** The second-last of a chain: the parent the organization was created under. */
  function ParentIn(chain: seq<string>): string {
    if |chain| < 2 then "" else chain[|chain| - 2]
  }

  ghost predicate Linked(d: Directory, chains: Chains) {
    forall id | id in d.orgs :: d.orgs[id].parentID == ParentIn(At(chains, id))
  }

  predicate Reparents(d: Directory, op: Op) {
    op.UpdateOrg? && op.org.id in d.orgs && op.org.parentID != "" && op.org.parentID != d.orgs[op.org.id].parentID
  }

  /** An Update keeps ParentID and Path in step exactly if it names no parent, or the one already stored. */
  lemma UpdateKeepsLinkIff(d: Directory, chains: Chains, org: Org, now: int)
    requires Linked(d, chains)
    ensures Linked(UpdateEffect(d, org, now).0, chains) <==> !Reparents(d, UpdateOrg(org, now))
  {
    if Reparents(d, UpdateOrg(org, now)) {
      assert UpdateEffect(d, org, now).0.orgs[org.id].parentID == org.parentID;
    }
  }

  predicate NoReparenting(d: Directory, ops: seq<Op>)
    decreases |ops|
  {
    ops == [] || (!Reparents(d, ops[0]) && NoReparenting(Effect(d, ops[0]).0, ops[1..]))
  }

  lemma LinkedCreate(d: Directory, chains: Chains, org: Org, now: int)
    requires Linked(d, chains) && PathsAreChains(d, chains)
    ensures Linked(CreateEffect(d, org, now).0, ChainsAfter(d, chains, CreateOrg(org, now)))
  {
    hide Join;
    var d', chains' := CreateEffect(d, org, now).0, ChainsAfter(d, chains, CreateOrg(org, now));
    if CreateEffect(d, org, now).1 == None {
      forall id | id in d'.orgs ensures d'.orgs[id].parentID == ParentIn(At(chains', id)) {
        if id != org.id { assert At(chains', id) == At(chains, id); }
      }
    }
  }

  lemma LinkedStep(d: Directory, chains: Chains, op: Op)
    requires Linked(d, chains) && PathsAreChains(d, chains) && !Reparents(d, op)
    ensures Linked(Effect(d, op).0, ChainsAfter(d, chains, op))
  {
    hide PathsAreChains, Cascade, Filter, Lists, At, ParentIn, CreateEffect;
    match op
    case CreateOrg(org, now) => LinkedCreate(d, chains, org, now);
    case UpdateOrg(org, now) => UpdateKeepsLinkIff(d, chains, org, now);
    case _ =>
  }

  lemma {:induction false} LinkedAlways(d: Directory, chains: Chains, ops: seq<Op>)
    requires Linked(d, chains) && PathsAreChains(d, chains) && NoReparenting(d, ops)
    ensures Linked(Run(d, ops), History(d, chains, ops))
    decreases |ops|
  {
    hide Effect, ChainsAfter, PathsAreChains, Linked, Reparents;
    if ops != [] {
      PathsStep(d, chains, ops[0]);
      LinkedStep(d, chains, ops[0]);
      LinkedAlways(Effect(d, ops[0]).0, ChainsAfter(d, chains, ops[0]), ops[1..]);
    }
  }

  ghost predicate LinkedThroughout(d: Directory, chains: Chains, ops: seq<Op>)
    decreases |ops|
  {
    && Linked(d, chains)
    && (ops == [] || LinkedThroughout(Effect(d, ops[0]).0, ChainsAfter(d, chains, ops[0]), ops[1..]))
  }

  /** ParentID and Path stay in step throughout a run if and only if no Update of it names another parent
      than the stored one. */
  lemma {:induction false} RunLinkedIff(d: Directory, chains: Chains, ops: seq<Op>)
    requires Linked(d, chains) && PathsAreChains(d, chains)
    ensures LinkedThroughout(d, chains, ops) <==> NoReparenting(d, ops)
    decreases |ops|
  {
    hide PathsAreChains, Linked, UpdateEffect;
    if ops != [] {
      PathsStep(d, chains, ops[0]);
      if Reparents(d, ops[0]) {
        UpdateKeepsLinkIff(d, chains, ops[0].org, ops[0].now);
      } else {
        LinkedStep(d, chains, ops[0]);
        RunLinkedIff(Effect(d, ops[0]).0, ChainsAfter(d, chains, ops[0]), ops[1..]);
      }
    }
  }

  /** Following ParentID n times from o, through stored organizations, arrives at a. */
  ghost predicate Walks(orgs: map<string, Org>, o: string, a: string, n: nat)
    decreases n
  {
    if n == 0 then a == o
    else o in orgs && orgs[o].parentID != "" && Walks(orgs, orgs[o].parentID, a, n - 1)
  }

  ghost predicate Sound(d: Directory, chains: Chains) {
    Linked(d, chains) && PathsAreChains(d, chains) && Closed(chains)
  }

  /** One step up: ParentID is the second-last of the chain, and its own chain is the rest. */
  lemma ParentStep(d: Directory, chains: Chains, o: string)
    requires Sound(d, chains) && o in d.orgs
    ensures o in chains && EndsIn(chains[o], o)
    ensures var c, p := chains[o], d.orgs[o].parentID;
      if |c| == 1 then p == "" else p != "" && p == c[|c| - 2] && p in chains && chains[p] == c[..|c| - 1]
  {
  }

  lemma {:induction false} WalkIsOnChain(d: Directory, chains: Chains, o: string, a: string, n: nat)
    requires Sound(d, chains) && o in d.orgs && Walks(d.orgs, o, a, n)
    ensures o in chains && n < |chains[o]| && chains[o][|chains[o]| - 1 - n] == a
    ensures forall k | |chains[o]| - n <= k < |chains[o]| :: chains[o][k] in d.orgs
    decreases n
  {
    hide Sound;
    ParentStep(d, chains, o);
    if n > 1 { WalkIsOnChain(d, chains, d.orgs[o].parentID, a, n - 1); }
  }

  lemma {:induction false} ChainIsWalked(d: Directory, chains: Chains, o: string, n: nat)
    requires Sound(d, chains) && o in d.orgs && o in chains && n < |chains[o]|
    requires forall k | |chains[o]| - n <= k < |chains[o]| :: chains[o][k] in d.orgs
    ensures Walks(d.orgs, o, chains[o][|chains[o]| - 1 - n], n)
    decreases n
  {
    hide Sound;
    ParentStep(d, chains, o);
    if n == 1 {
      assert Walks(d.orgs, d.orgs[o].parentID, chains[o][|chains[o]| - 2], 0);
    } else if n > 1 {
      assert chains[o][|chains[o]| - 2] in d.orgs;
      ChainIsWalked(d, chains, d.orgs[o].parentID, n - 1);
    }
  }

  /** All organizations of the chain between a and the chain's end are still stored. */
  ghost predicate Unbroken(orgs: map<string, Org>, chain: seq<string>, a: string) {
    forall k | 0 < k < |chain| && a in chain[..k] :: chain[k] in orgs
  }

  /** No id occurs twice on a chain. */
  lemma OnceOnChain(d: Directory, chains: Chains, o: string)
    requires Sound(d, chains) && o in chains
    ensures forall i, j | 0 <= i < |chains[o]| && 0 <= j < |chains[o]| && chains[o][i] == chains[o][j] :: i == j
  {
    assert Closed(chains);
    forall i, j | 0 <= i < |chains[o]| && 0 <= j < |chains[o]| && chains[o][i] == chains[o][j] ensures i == j {
      assert chains[chains[o][i]] == chains[o][..i + 1] && chains[chains[o][j]] == chains[o][..j + 1];
    }
  }

  lemma WalkIsUnbroken(d: Directory, chains: Chains, o: string, a: string, n: nat)
    requires Sound(d, chains) && o in d.orgs && n > 0 && Walks(d.orgs, o, a, n)
    ensures o in chains && a in chains[o] && a != o && Unbroken(d.orgs, chains[o], a)
  {
    hide Sound, Walks;
    WalkIsOnChain(d, chains, o, a, n);
    ParentStep(d, chains, o);
    OnceOnChain(d, chains, o);
    var c := chains[o];
    forall k | 0 < k < |c| && a in c[..k] ensures c[k] in d.orgs {
      var j :| 0 <= j < k && c[j] == a;
      assert j == |c| - 1 - n;
    }
  }

  lemma UnbrokenIsWalked(d: Directory, chains: Chains, o: string, a: string) returns (n: nat)
    requires Sound(d, chains) && o in d.orgs && o in chains
    requires a in chains[o] && a != o && Unbroken(d.orgs, chains[o], a)
    ensures n > 0 && Walks(d.orgs, o, a, n)
  {
    hide Sound, Walks;
    ParentStep(d, chains, o);
    var c := chains[o];
    var i :| 0 <= i < |c| && c[i] == a;
    n := |c| - 1 - i;
    forall k | i < k < |c| ensures c[k] in d.orgs { assert c[..k][i] == a; }
    ChainIsWalked(d, chains, o, n);
  }

  lemma WalksIffUnbroken(d: Directory, chains: Chains, o: string, a: string)
    requires Sound(d, chains) && o in d.orgs && o in chains
    ensures (exists n: nat :: n > 0 && Walks(d.orgs, o, a, n)) <==>
            a in chains[o] && a != o && Unbroken(d.orgs, chains[o], a)
  {
    hide Sound, Walks, Unbroken;
    if n: nat :| n > 0 && Walks(d.orgs, o, a, n) { WalkIsUnbroken(d, chains, o, a, n); }
    if a in chains[o] && a != o && Unbroken(d.orgs, chains[o], a) {
      var n := UnbrokenIsWalked(d, chains, o, a);
    }
  }

  /** Without re-parenting and with never-reused, slash-free ids the ParentIDs form a forest, and the walk
      up them is what Path says: it never returns to where it began, and it leads from o to a stored a
      exactly if Path(a) + "/" begins Path(o) and no organization in between has been deleted. */
  lemma ParentsFollowPath(ops: seq<Op>, a: string, o: string)
    requires SlashFreeIds(ops) && NeverReused(EMPTY, map[], ops) && NoReparenting(EMPTY, ops)
    requires a in Run(EMPTY, ops).orgs && o in Run(EMPTY, ops).orgs
    ensures var d, chains := Run(EMPTY, ops), History(EMPTY, map[], ops);
      && !(exists n: nat :: n > 0 && Walks(d.orgs, o, o, n))
      && o in chains
      && ((exists n: nat :: n > 0 && Walks(d.orgs, o, a, n)) <==>
            PathBelow(d.orgs, a, o) && Unbroken(d.orgs, chains[o], a))
  {
    hide Run, History, Closed, Split, NeverReused, NoReparenting, Walks, Unbroken, PathBelow;
    StartsEmpty();
    PathsAlways(EMPTY, map[], ops);
    ClosedAlways(EMPTY, map[], ops);
    LinkedAlways(EMPTY, map[], ops);
    PathCharacterisesAncestry(ops, a, o);
    WalksIffUnbroken(Run(EMPTY, ops), History(EMPTY, map[], ops), o, a);
    WalksIffUnbroken(Run(EMPTY, ops), History(EMPTY, map[], ops), o, o);
  }

  /** Update checks neither for a cycle nor rebuilds Path: an organization can become its own parent. */
  lemma ReparentingMakesCycle()
    ensures var ops := [CreateOrg(Named("a", ""), 0), UpdateOrg(Named("a", "a"), 1)];
      var d := Run(EMPTY, ops);
      && SlashFreeIds(ops) && NeverReused(EMPTY, map[], ops) && !NoReparenting(EMPTY, ops)
      && Walks(d.orgs, "a", "a", 1) && d.orgs["a"].path == "/a"
  {
    var first, second := CreateOrg(Named("a", ""), 0), UpdateOrg(Named("a", "a"), 1);
    var ops, d1, chains1 := [first, second], Effect(EMPTY, first).0, ChainsAfter(EMPTY, map[], first);
    assert ops[1..] == [second] && [second][1..] == [];
    var d2 := Effect(d1, second).0;
    assert Run(d1, [second]) == Run(d2, []) == d2;
    assert NeverReused(d2, chains1, []) && NeverReused(d1, chains1, [second]);
    assert d2.orgs["a"].parentID == "a" && Walks(d2.orgs, "a", "a", 0);
  }
}
