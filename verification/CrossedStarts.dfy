/**
 Start indices paired with the wrong commitments. `getIncompleteCommitmentsForTxs` of
 src/sdk/paramManagers/CommitmentManager.ts:38-60 returns the start indices in another order than the commitments,
 and `activateCommitments` looks each commitment up from the start index beside it. Here is exactly when that does
 harm: when some commitment is handed a start index of another chunk account.
 */
module CrossedStarts {
  import opened Common
  import opened IndexConverter
  import opened ChunkScan
  import opened SkippingScan
  import opened StorageSearch
  import opened TreeSearch
  import opened AnyStarts
  import opened Openings
  import opened FullTree

  /** The hashes, each to be sought from the start index beside it. */
  function Want(hashes: seq<Hash>, starts: seq<nat>): (wanted: seq<Wanted>)
    requires |hashes| == |starts|
  {
    seq(|hashes|, i requires 0 <= i < |hashes| && |hashes| == |starts| => Wanted(hashes[i], starts[i]))
  }

  function LeafNode(start: nat): LocalIndex { LocalIndex(MERKLE_TREE_HEIGHT, start) }

  /** The hash is that of its start leaf or a later one, of none before, and from there on the tree has no holes. */
  ghost predicate Lies(flat: seq<Hash>, hash: Hash, start: nat) {
    && hash != 0 && start < 1_048_576 && Populated(flat, 1_048_575 + start)
    && (exists g :: 1_048_575 + start <= g < |flat| && flat[g] == hash)
    && (forall g :: 1_048_575 <= g < 1_048_575 + start && g < |flat| ==> flat[g] != hash)
  }

  /** A tree as the program keeps it, with each hash at or behind its own start. */
  ghost predicate TreeHolds(p: Poseidon, tree: Tree, hashes: seq<Hash>, own: seq<nat>)
    requires |hashes| == |own|
  {
    && WellSized(tree) && AllActive(tree) && SpareEmpty(Flat(tree)) && KeptUp(p, MERKLE_TREE_HEIGHT, Stored(tree))
    && forall i :: 0 <= i < |hashes| ==> Lies(Flat(tree), hashes[i], own[i])
  }

  /** In no chunk account the scan can skip anything with the start indices that lie there. */
  ghost predicate StartsScan(wanted: seq<Wanted>) {
    ToSought(Queries(wanted)).Ok? ==> ScansRight(ToSought(Queries(wanted)).value)
  }

  ghost predicate SameAccounts(starts: seq<nat>, own: seq<nat>)
    requires |starts| == |own|
  {
    forall i :: 0 <= i < |starts| ==> SameAccount(LeafNode(starts[i]), LeafNode(own[i]))
  }

  ghost predicate InTheTree(starts: seq<nat>) { forall i :: 0 <= i < |starts| ==> starts[i] < 1_048_576 }

  // ---------------------------------------------------------------- from its own start each is found

  lemma {:induction false} LiesIsFound(flat: seq<Hash>, hash: Hash, start: nat)
    requires Lies(flat, hash, start)
    ensures QueryPlace(flat, Query(hash, LeafNode(start))).Some?
  {
    TreeSize();
    LeafPosition(start);
    var from := 1_048_575 + start;
    var g :| from <= g < |flat| && flat[g] == hash;
    SeekExactly(flat, hash, from);
    assert forall j :: from <= j < g ==> flat[j] != 0;
  }

  lemma {:induction false} EntryOfLeaf(wanted: seq<Wanted>, i: nat)
    requires ToSought(Queries(wanted)).Ok? && i < |wanted| && wanted[i].leafStart < 1_048_576
    ensures var c := ToSought(Queries(wanted)).value[i];
            c.hash == wanted[i].hash && Global(c) == 1_048_575 + wanted[i].leafStart
  {
    TreeSize();
    var qs := Queries(wanted);
    ToSoughtIs(qs);
    LeafPosition(wanted[i].leafStart);
    NodeHasPlace(qs[i].start);
    assert ToSought(qs).value[i] == Entry(qs, i);
  }

  lemma {:induction false} LiesIsLookable(flat: seq<Hash>, wanted: seq<Wanted>)
    requires forall i :: 0 <= i < |wanted| ==> Lies(flat, wanted[i].hash, wanted[i].leafStart)
    requires SpareEmpty(flat) && StartsScan(wanted)
    ensures Lookable(flat, wanted)
  {
    hide SpareEmpty, ScansRight;
    if ToSought(Queries(wanted)).Ok? {
      var comms := ToSought(Queries(wanted)).value;
      forall c | c in comms
        ensures Populated(flat, Global(c)) && Global(c) >= 1_048_575
        ensures forall g :: 1_048_575 <= g < |flat| && g < Global(c) ==> flat[g] != c.hash
      {
        var i :| 0 <= i < |comms| && comms[i] == c;
        EntryOfLeaf(wanted, i);
        assert Lies(flat, wanted[i].hash, wanted[i].leafStart);
      }
    }
  }

  /** Sought from its own start every commitment is found. */
  lemma {:induction false} OwnStartsServe(p: Poseidon, tree: Tree, hashes: seq<Hash>, own: seq<nat>)
    requires |hashes| == |own| && TreeHolds(p, tree, hashes, own) && StartsScan(Want(hashes, own))
    ensures InfoLeaves(tree, Want(hashes, own)).Ok?
  {
    hide Lies, Flat, WellSized, AllActive, SpareEmpty, StartsScan, Lookable, QueryPlace, InfoLeaves, KeptUp, Stored;
    var wanted := Want(hashes, own);
    forall i | 0 <= i < |wanted|
      ensures Lies(Flat(tree), wanted[i].hash, wanted[i].leafStart) && wanted[i].leafStart < 1_048_576
      ensures QueryPlace(Flat(tree), Queries(wanted)[i]).Some?
    {
      assert Lies(Flat(tree), hashes[i], own[i]);
      LiesIsFound(Flat(tree), hashes[i], own[i]);
      LiesInTree(Flat(tree), hashes[i], own[i]);
    }
    TreeSize();
    LiesIsLookable(Flat(tree), wanted);
    InfoExactly(tree, wanted);
  }

  lemma LiesInTree(flat: seq<Hash>, hash: Hash, start: nat)
    requires Lies(flat, hash, start)
    ensures start < 1_048_576
  {
  }

  // ---------------------------------------------------------------- handed around within the accounts

  lemma StartNodesOf(hashes: seq<Hash>, starts: seq<nat>)
    requires |hashes| == |starts|
    ensures StartNodes(Queries(Want(hashes, starts))) == MapTo(starts, LeafNode)
  {
    var nodes := StartNodes(Queries(Want(hashes, starts)));
    assert forall i :: 0 <= i < |starts| ==> nodes[i] == LeafNode(starts[i]);
  }

  /** Within the accounts the start indices may be handed around: the outcome is the same on every tree. */
  lemma {:induction false} SameAccountsSameOutcome(tree: Tree, hashes: seq<Hash>, own: seq<nat>, starts: seq<nat>)
    requires WellSized(tree) && |hashes| == |own| == |starts|
    requires multiset(starts) == multiset(own) && SameAccounts(starts, own)
    ensures InfoLeaves(tree, Want(hashes, starts)) == InfoLeaves(tree, Want(hashes, own))
  {
    hide WellSized, GetCommitmentIndices, AllReadable, AllOpenings, SameAccount;
    TreeSize();
    StartNodesOf(hashes, own);
    StartNodesOf(hashes, starts);
    MapKeepsContents(starts, own, LeafNode);
    forall i | 0 <= i < |starts| ensures starts[i] < 1_048_576 && own[i] < 1_048_576 {
      LeavesOfOneAccount(starts[i], own[i]);
    }
    HandingAroundIsHarmless(tree, Queries(Want(hashes, starts)), Queries(Want(hashes, own)));
  }

  lemma LeavesOfOneAccount(a: nat, b: nat)
    requires SameAccount(LeafNode(a), LeafNode(b))
    ensures a < 1_048_576 && b < 1_048_576
  {
    TreeSize();
  }

  // ---------------------------------------------------------------- handed across accounts: some tree defeats it

  function AccountOf(start: nat): nat { PlaceOfNode(LeafNode(start)).indexOfAccount }

  lemma {:induction false} SumOfContents(s: seq<nat>, t: seq<nat>)
    requires multiset(s) == multiset(t)
    ensures Sum(s) == Sum(t)
  {
    if s == [] {
      assert |multiset(t)| == 0;
    } else {
      assert s[0] in multiset(t);
      var k :| 0 <= k < |t| && t[k] == s[0];
      TakeOut(t, k);
      assert s == [s[0]] + s[1..] && multiset(s) == multiset(s[1..]) + multiset{s[0]};
      SumCancels(multiset(s[1..]), multiset(t[..k] + t[k + 1..]), s[0]);
      SumOfContents(s[1..], t[..k] + t[k + 1..]);
      SumConcat(t[..k], t[k + 1..]);
      SumConcat(t[..k], [t[k]] + t[k + 1..]);
      SumConcat([t[k]], t[k + 1..]);
    }
  }

  lemma {:induction false} SumGrows(s: seq<nat>, t: seq<nat>)
    requires |s| == |t| && forall i :: 0 <= i < |s| ==> s[i] <= t[i]
    ensures Sum(s) <= Sum(t)
    ensures Sum(s) == Sum(t) ==> s == t
  {
    if s != [] {
      SumGrows(s[1..], t[1..]);
      assert s == [s[0]] + s[1..] && t == [t[0]] + t[1..];
    }
  }

  /** When start indices cross accounts, one commitment is sought from an account behind its own. */
  lemma {:induction false} OneIsSoughtBehind(starts: seq<nat>, own: seq<nat>) returns (i: nat)
    requires |starts| == |own| && multiset(starts) == multiset(own) && InTheTree(starts) && InTheTree(own)
    requires !SameAccounts(starts, own)
    ensures i < |own| && AccountOf(own[i]) < AccountOf(starts[i])
  {
    hide Sum, PlaceOfNode, SameAccount;
    var s, t := MapTo(starts, AccountOf), MapTo(own, AccountOf);
    MapKeepsContents(starts, own, AccountOf);
    SumOfContents(s, t);
    i :| 0 <= i < |own| && !SameAccount(LeafNode(starts[i]), LeafNode(own[i]));
    AccountsOfLeaves(starts[i], own[i]);
    assert s[i] != t[i];
    if forall j :: 0 <= j < |s| ==> s[j] <= t[j] {
      SumGrows(s, t);
      assert false;
    }
    i :| 0 <= i < |s| && t[i] < s[i];
  }

  lemma AccountsOfLeaves(a: nat, b: nat)
    requires a < 1_048_576 && b < 1_048_576
    ensures SameAccount(LeafNode(a), LeafNode(b)) <==> AccountOf(a) == AccountOf(b)
  {
    TreeSize();
    LeafPosition(a);
    LeafPosition(b);
    NodeHasPlace(LeafNode(a));
    NodeHasPlace(LeafNode(b));
  }

  lemma {:induction false} FreeFrom(used: set<nat>, from: nat) returns (p: nat)
    ensures from <= p <= from + |used| && p !in used
    decreases |used|
  {
    p := from;
    if from in used {
      p := FreeFrom(used - {from}, from + 1);
    }
  }

  function Max(a: nat, b: nat): nat { if a < b then b else a }

  /** Leaves for some, at or behind their starts and all different. */
  ghost predicate Planned(own: seq<nat>, plan: map<nat, nat>) {
    && (forall j :: j in plan ==> j < |own| && own[j] <= plan[j] < 1_048_576)
    && forall i, j :: i in plan && j in plan && plan[i] == plan[j] ==> i == j
  }

  /** The plan can be completed: a leaf for each, those planned as they were, the others not below `floor`. */
  lemma {:induction false} CompletePlan(own: seq<nat>, plan: map<nat, nat>, floor: nat) returns (all: map<nat, nat>)
    requires Planned(own, plan) && forall j :: 0 <= j < |own| ==> Max(own[j], floor) + |own| <= 1_048_576
    ensures Planned(own, all) && forall j :: 0 <= j < |own| ==> j in all
    ensures forall j :: j in plan ==> j in all && all[j] == plan[j]
    ensures forall j :: j in all && j !in plan ==> all[j] >= floor
    decreases UpTo(|own|) - plan.Keys
  {
    if j: nat :| j < |own| && j !in plan {
      var more := PlanOne(own, plan, j, floor);
      assert j in UpTo(|own|);
      all := CompletePlan(own, more, floor);
    } else {
      all := plan;
    }
  }

  lemma PlanOne(own: seq<nat>, plan: map<nat, nat>, j: nat, floor: nat) returns (more: map<nat, nat>)
    requires Planned(own, plan) && j < |own| && j !in plan && Max(own[j], floor) + |own| <= 1_048_576
    ensures Planned(own, more) && more.Keys == plan.Keys + {j} && forall i :: i in plan ==> more[i] == plan[i]
    ensures more[j] >= floor
  {
    hide Planned;
    KeysInside(own, plan);
    SubsetSize(plan.Keys + {j}, UpTo(|own|));
    ImageSize(plan);
    var leaf := FreeFrom(plan.Values, Max(own[j], floor));
    more := plan[j := leaf];
    OneMorePlanned(own, plan, j, leaf);
  }

  lemma KeysInside(own: seq<nat>, plan: map<nat, nat>)
    requires Planned(own, plan)
    ensures plan.Keys <= UpTo(|own|)
  {
  }

  lemma OneMorePlanned(own: seq<nat>, plan: map<nat, nat>, j: nat, leaf: nat)
    requires Planned(own, plan) && j < |own| && own[j] <= leaf < 1_048_576 && leaf !in plan.Values
    ensures Planned(own, plan[j := leaf])
  {
    assert forall i :: i in plan ==> plan[i] in plan.Values;
  }

  lemma {:induction false} ImageSize(plan: map<nat, nat>)
    ensures |plan.Values| <= |plan.Keys|
    decreases plan.Keys
  {
    if plan != map[] {
      var k :| k in plan;
      var rest := map j | j in plan && j != k :: plan[j];
      assert rest.Keys == plan.Keys - {k};
      ImageSize(rest);
      forall v | v in plan.Values ensures v in rest.Values + {plan[k]} {
        var j :| j in plan && plan[j] == v;
        assert j != k ==> rest[j] == v;
      }
      SubsetSize(plan.Values, rest.Values + {plan[k]});
    } else {
      assert plan.Values == {};
    }
  }

  /** Different leaves for all, each at or behind its start, the planned ones where they were planned. */
  lemma LayOut(own: seq<nat>, plan: map<nat, nat>, floor: nat) returns (leaves: seq<nat>)
    requires Planned(own, plan) && forall j :: 0 <= j < |own| ==> Max(own[j], floor) + |own| <= 1_048_576
    ensures |leaves| == |own| && AllDifferent(leaves)
    ensures forall j :: 0 <= j < |own| ==> own[j] <= leaves[j] < 1_048_576
    ensures forall j :: j in plan ==> leaves[j] == plan[j]
    ensures forall j :: 0 <= j < |own| && j !in plan ==> leaves[j] >= floor
  {
    var all := CompletePlan(own, plan, floor);
    leaves := seq(|own|, j requires 0 <= j < |own| && j in all => all[j]);
  }

  /** The hash laid out at leaf number `g - 1_048_575`, or the filler. */
  function Laid(leaves: seq<nat>, hashes: seq<Hash>, filler: Hash, g: nat): Hash
    requires |leaves| == |hashes|
  {
    if leaves == [] then filler
    else if 1_048_575 + leaves[0] == g then hashes[0]
    else Laid(leaves[1..], hashes[1..], filler, g)
  }

  lemma {:induction false} LaidIs(leaves: seq<nat>, hashes: seq<Hash>, filler: Hash, g: nat)
    requires |leaves| == |hashes| && AllDifferent(leaves)
    ensures forall j :: 0 <= j < |leaves| && 1_048_575 + leaves[j] == g ==> Laid(leaves, hashes, filler, g) == hashes[j]
    ensures (forall j :: 0 <= j < |leaves| ==> 1_048_575 + leaves[j] != g) ==> Laid(leaves, hashes, filler, g) == filler
  {
    if leaves != [] {
      assert AllDifferent(leaves[1..]) by {
        assert forall i :: 0 <= i < |leaves[1..]| ==> leaves[1..][i] == leaves[i + 1];
      }
      LaidIs(leaves[1..], hashes[1..], filler, g);
      assert forall j :: 1 <= j < |leaves| ==> leaves[1..][j - 1] == leaves[j] && hashes[1..][j - 1] == hashes[j];
    }
  }

  lemma {:induction false} LaidIsSet(leaves: seq<nat>, hashes: seq<Hash>, filler: Hash, g: nat)
    requires |leaves| == |hashes| && filler != 0 && forall j :: 0 <= j < |hashes| ==> hashes[j] != 0
    ensures Laid(leaves, hashes, filler, g) != 0
  {
    if leaves != [] {
      assert forall j :: 0 <= j < |hashes[1..]| ==> hashes[1..][j] == hashes[j + 1];
      LaidIsSet(leaves[1..], hashes[1..], filler, g);
    }
  }

  /** Hashes as commitments have them: none is zero, and no two are equal. */
  ghost predicate ProperHashes(hashes: seq<Hash>) {
    AllDifferent(hashes) && forall i :: 0 <= i < |hashes| ==> hashes[i] != 0
  }

  /** The tree is full, and of its leaves those laid out hold the hashes and no others do. */
  ghost predicate LaidOut(flat: seq<Hash>, hashes: seq<Hash>, leaves: seq<nat>)
    requires |leaves| == |hashes|
  {
    && |flat| == 2_097_175 && (forall g :: 0 <= g < |flat| ==> (flat[g] == 0 <==> g >= 2_097_151))
    && (forall j :: 0 <= j < |leaves| ==> 1_048_575 + leaves[j] < |flat| && flat[1_048_575 + leaves[j]] == hashes[j])
    && forall j, g :: 0 <= j < |leaves| && 1_048_575 <= g < |flat| && flat[g] == hashes[j] ==>
         g == 1_048_575 + leaves[j]
  }

  lemma {:induction false} LaidOutTree(p: Poseidon, hashes: seq<Hash>, leaves: seq<nat>) returns (tree: Tree)
    requires |leaves| == |hashes| && ProperHashes(hashes) && AllDifferent(leaves) && InTheTree(leaves) && Storable(p)
    ensures WellSized(tree) && AllActive(tree) && KeptUp(p, MERKLE_TREE_HEIGHT, Stored(tree))
    ensures LaidOut(Flat(tree), hashes, leaves)
  {
    hide WellSized, AllActive, KeptUp, Stored, Storable;
    var filler := Sum(hashes) + 1;
    var leaf: nat -> Hash := (g: nat) => if |leaves| == |hashes| then Laid(leaves, hashes, filler, g) else 1;
    forall g: nat ensures leaf(g) != 0 { LaidIsSet(leaves, hashes, filler, g); }
    tree := AFullTree(p, leaf);
    LaidOutFlat(Flat(tree), hashes, leaves, filler);
  }

  lemma {:induction false} SumIsAbove(s: seq<nat>)
    ensures forall i :: 0 <= i < |s| ==> s[i] <= Sum(s)
  {
    if s != [] {
      SumIsAbove(s[1..]);
      assert forall i :: 1 <= i < |s| ==> s[i] == s[1..][i - 1];
    }
  }

  lemma {:induction false} LaidOutFlat(flat: seq<Hash>, hashes: seq<Hash>, leaves: seq<nat>, filler: Hash)
    requires |leaves| == |hashes| && ProperHashes(hashes) && AllDifferent(leaves) && InTheTree(leaves)
    requires |flat| == 2_097_175 && filler == Sum(hashes) + 1
    requires forall g :: 0 <= g < |flat| ==> (flat[g] == 0 <==> g >= 2_097_151)
    requires forall g :: 1_048_575 <= g < 2_097_151 ==> flat[g] == Laid(leaves, hashes, filler, g)
    ensures LaidOut(flat, hashes, leaves)
  {
    SumIsAbove(hashes);
    forall g | 1_048_575 <= g < |flat|
      ensures forall j :: 0 <= j < |leaves| ==> (flat[g] == hashes[j] <==> g == 1_048_575 + leaves[j])
    {
      if g < 2_097_151 { LaidIs(leaves, hashes, filler, g); }
    }
  }

  lemma LaidOutLies(flat: seq<Hash>, hashes: seq<Hash>, own: seq<nat>, leaves: seq<nat>, j: nat)
    requires |hashes| == |own| == |leaves| && LaidOut(flat, hashes, leaves) && ProperHashes(hashes)
    requires j < |own| && own[j] <= leaves[j] < 1_048_576
    ensures Lies(flat, hashes[j], own[j])
  {
    assert flat[1_048_575 + leaves[j]] == hashes[j];
  }

  /** The only place of the hash is in an account before that of every start it may be found behind: it is not found. */
  lemma {:induction false} NotFoundBehind(tree: Tree, flat: seq<Hash>, wanted: seq<Wanted>, i: nat, leaf: nat)
    requires WellSized(tree) && Covers(tree, flat) && i < |wanted| && leaf < 1_048_576
    requires forall g :: 1_048_575 <= g < |flat| && flat[g] == wanted[i].hash ==> g == 1_048_575 + leaf
    requires AccountOf(leaf) < AccountOf(wanted[i].leafStart)
    ensures GetCommitmentIndices(tree, Queries(wanted)).Err?
  {
    hide WellSized, Covers, GetCommitmentIndices;
    var qs := Queries(wanted);
    LookupIsSound(tree, flat, qs);
    var r := GetCommitmentIndices(tree, qs);
    if r.Ok? {
      var node := r.value[i];
      assert FoundRight(flat, qs, i, node);
      var j :| 0 <= j < |qs| && SameAccount(qs[j].start, qs[i].start)
        && LocalToGlobal(qs[j].start).value <= LocalToGlobal(node).value;
      StartIsLeaf(wanted, j);
      BehindTheAccount(leaf, qs[j].start);
      assert false;
    }
  }

  lemma StartIsLeaf(wanted: seq<Wanted>, j: nat)
    requires j < |wanted| && LocalToGlobal(Queries(wanted)[j].start).Ok?
    ensures LocalToGlobal(Queries(wanted)[j].start).value >= 1_048_575
  {
    TreeSize();
    LeafPosition(wanted[j].leafStart);
  }

  lemma BehindTheAccount(leaf: nat, n: LocalIndex)
    requires leaf < 1_048_576 && LocalToGlobal(n).Ok? && LocalToAcc(n).Ok?
    requires AccountOf(leaf) < LocalToAcc(n).value.indexOfAccount
    ensures 1_048_575 + leaf < LocalToGlobal(n).value
  {
    TreeSize();
    LeafPosition(leaf);
    LocalGlobalBijection(n);
    LocalGlobalBijection(LeafNode(leaf));
    NodeHasPlace(LeafNode(leaf));
    NodeHasPlace(n);
    BaseGrows(AccountOf(leaf) + 1, LocalToAcc(n).value.indexOfAccount);
  }

  /** The hashes lie at leaves as planned, those not planned from `floor` on, and at no others. */
  ghost predicate AsPlanned(flat: seq<Hash>, hashes: seq<Hash>, plan: map<nat, nat>, floor: nat) {
    && |flat| == 2_097_175
    && (forall i :: i in plan ==>
          i < |hashes| && 1_048_575 + plan[i] < |flat| && flat[1_048_575 + plan[i]] == hashes[i])
    && forall i, g :: 0 <= i < |hashes| && 1_048_575 <= g < |flat| && flat[g] == hashes[i] ==>
         if i in plan then g == 1_048_575 + plan[i] else g >= 1_048_575 + floor
  }

  /** There is a tree that holds the commitments, the planned ones at their leaves and the others from `floor` on. */
  lemma {:induction false} ATreeHolds(p: Poseidon, hashes: seq<Hash>, own: seq<nat>, plan: map<nat, nat>, floor: nat)
    returns (tree: Tree)
    requires |hashes| == |own| && ProperHashes(hashes) && Storable(p) && Planned(own, plan)
    requires forall j :: 0 <= j < |own| ==> Max(own[j], floor) + |own| <= 1_048_576
    ensures WellSized(tree) && TreeHolds(p, tree, hashes, own) && AsPlanned(Flat(tree), hashes, plan, floor)
  {
    hide WellSized, AllActive, Lies, Flat, ProperHashes, AllDifferent, KeptUp, Stored, Storable, SpareEmpty;
    var leaves := LayOut(own, plan, floor);
    tree := LaidOutTree(p, hashes, leaves);
    forall j | 0 <= j < |hashes| ensures Lies(Flat(tree), hashes[j], own[j]) {
      LaidOutLies(Flat(tree), hashes, own, leaves, j);
    }
    SpareOfLaidOut(Flat(tree), hashes, leaves);
  }

  lemma {:induction false} SomeTreeDefeatsIt(p: Poseidon, hashes: seq<Hash>, own: seq<nat>, starts: seq<nat>)
    returns (tree: Tree)
    requires |hashes| == |own| == |starts| && ProperHashes(hashes) && Storable(p)
    requires forall j :: 0 <= j < |own| ==> own[j] + |own| <= 1_048_576
    requires multiset(starts) == multiset(own) && !SameAccounts(starts, own)
    ensures WellSized(tree) && TreeHolds(p, tree, hashes, own) && InfoLeaves(tree, Want(hashes, starts)).Err?
  {
    hide SameAccounts, WellSized, TreeHolds, Flat, Covers, GetCommitmentIndices, ProperHashes, AccountOf, Storable;
    StartsStayIn(own, starts);
    var i := OneIsSoughtBehind(starts, own);
    tree := ATreeHolds(p, hashes, own, map[i := own[i]], 0);
    FlatCovers(tree);
    NotFoundBehind(tree, Flat(tree), Want(hashes, starts), i, own[i]);
  }

  lemma SpareOfLaidOut(flat: seq<Hash>, hashes: seq<Hash>, leaves: seq<nat>)
    requires |leaves| == |hashes| && LaidOut(flat, hashes, leaves)
    ensures SpareEmpty(flat)
  {
    TreeSize();
  }

  lemma StartsStayIn(own: seq<nat>, starts: seq<nat>)
    requires multiset(starts) == multiset(own) && forall j :: 0 <= j < |own| ==> own[j] + |own| <= 1_048_576
    ensures InTheTree(own) && InTheTree(starts)
  {
    forall i | 0 <= i < |starts| ensures starts[i] < 1_048_576 {
      assert starts[i] in multiset(own);
    }
  }

  /**
   With the start indices handed around, the lookup succeeds on every tree that holds the commitments only if each is
   handed a start index of its own account; and if the scan can skip nothing, then also whenever that is so. That it
   must not be able to is `SkippedInTree.FoundOnEveryExactly`.
   */
  lemma {:induction false} CrossedStartsExactly(p: Poseidon, hashes: seq<Hash>, own: seq<nat>, starts: seq<nat>)
    requires |hashes| == |own| == |starts| && ProperHashes(hashes) && Storable(p)
    requires forall j :: 0 <= j < |own| ==> own[j] + |own| <= 1_048_576
    requires multiset(starts) == multiset(own)
    ensures FoundOnEvery(p, hashes, own, starts) ==> SameAccounts(starts, own)
    ensures StartsScan(Want(hashes, own)) ==> (FoundOnEvery(p, hashes, own, starts) <==> SameAccounts(starts, own))
  {
    hide SameAccounts, InfoLeaves, ProperHashes, StartsScan, Want, WellSized, AllActive, SpareEmpty, Lies, KeptUp,
      Stored, Storable;
    if !SameAccounts(starts, own) {
      var tree := SomeTreeDefeatsIt(p, hashes, own, starts);
    } else if StartsScan(Want(hashes, own)) {
      forall tree | TreeHolds(p, tree, hashes, own) ensures InfoLeaves(tree, Want(hashes, starts)).Ok? {
        OwnStartsServe(p, tree, hashes, own);
        SameAccountsSameOutcome(tree, hashes, own, starts);
      }
    }
  }

  /** On every tree that holds the hashes from their own starts on, they are found from the starts handed to them. */
  ghost predicate FoundOnEvery(p: Poseidon, hashes: seq<Hash>, own: seq<nat>, starts: seq<nat>)
    requires |hashes| == |own| == |starts|
  {
    forall tree | TreeHolds(p, tree, hashes, own) :: InfoLeaves(tree, Want(hashes, starts)).Ok?
  }
}
