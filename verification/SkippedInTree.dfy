/**
 Start indices with which the jumping scan of src/sdk/accountReaders/StorageAccountReader.ts:96-140 can skip a
 commitment. On some tree that holds every commitment as it should, the lookup then fails, even when each is sought
 from its own start: the scan misses one in the account where it begins, and no later account holds it.
 */
module SkippedInTree {
  import opened Common
  import opened Decimal
  import opened IndexConverter
  import opened ChunkScan
  import opened SkippingScan
  import opened StorageSearch
  import opened TreeSearch
  import opened AnyStarts
  import opened Openings
  import opened FullTree
  import opened CrossedStarts

  // ---------------------------------------------------------------- what the first scan misses stays missed

  lemma {:induction false} RecordKeeps(res: Indices, left: seq<Sought>, found: Found, base: nat, c: Sought)
    requires |left| == |found| && c !in left
    ensures var r := Record(res, left, found, base); (c in r <==> c in res) && (c in res ==> r[c] == res[c])
  {
    if left != [] {
      var n := |left| - 1;
      assert left[n] in left && forall d :: d in left[..n] ==> d in left;
      RecordKeeps(res, left[..n], found[..n], base, c);
    }
  }

  /** What is known stays, and what is found from chunk `acc` on lies there. */
  lemma {:induction false} AcrossKeeps(tree: Tree, g: seq<Sought>, acc: nat, res: Indices, c: Sought)
    ensures var r := AcrossFrom(tree, g, acc, res);
            r.Ok? ==> (c in res ==> c in r.value && r.value[c] == res[c])
                      && (c !in res && c in r.value ==> r.value[c] >= Base(acc))
    decreases STORAGE_MT_CHUNK_COUNT - acc
  {
    hide FindInChunk, LeftToFind, Record, Hashes, Starts;
    if |res| != |g| && acc < STORAGE_MT_CHUNK_COUNT && GetChunk(tree, acc).Ok? {
      var left := LeftToFind(g, res);
      LeftLists(left, acc);
      var found := FindInChunk(tree[acc].value, Hashes(left), Starts(left, acc));
      if found.Ok? {
        var next := Record(res, left, found.value, Base(acc));
        RecordOrigin(res, left, found.value, Base(acc));
        LeftToFindIs(g, res);
        if c !in left { RecordKeeps(res, left, found.value, Base(acc), c); }
        AcrossKeeps(tree, g, acc + 1, next, c);
        BaseGrows(acc, acc + 1);
      }
    }
  }

  lemma LeftLists(left: seq<Sought>, acc: nat)
    ensures |Hashes(left)| == |Starts(left, acc)| == |left|
  {
  }

  lemma {:induction false} AcrossWithin(tree: Tree, g: seq<Sought>, acc: nat, res: Indices)
    requires Within(g, res)
    ensures var r := AcrossFrom(tree, g, acc, res); r.Ok? ==> Within(g, r.value)
    decreases STORAGE_MT_CHUNK_COUNT - acc
  {
    hide FindInChunk, LeftToFind, Record, Hashes, Starts, Within;
    if |res| != |g| && acc < STORAGE_MT_CHUNK_COUNT && GetChunk(tree, acc).Ok? {
      var left := LeftToFind(g, res);
      LeftLists(left, acc);
      var found := FindInChunk(tree[acc].value, Hashes(left), Starts(left, acc));
      if found.Ok? {
        LeftToFindIs(g, res);
        RecordWithin(g, res, left, found.value, Base(acc));
        AcrossWithin(tree, g, acc + 1, Record(res, left, found.value, Base(acc)));
      }
    }
  }

  ghost predicate FoundBy(search: nat -> Result<Indices>, order: seq<nat>, c: Sought, a: nat, v: nat) {
    a in order && search(a).Ok? && c in search(a).value && search(a).value[c] == v
  }

  /** Every place in the merged map comes from the search of some account. */
  lemma {:induction false} MergeOrigin(search: nat -> Result<Indices>, order: seq<nat>, merged: Indices, c: Sought)
    requires var r := MergeMaps(search, order, merged); r.Ok? && c in r.value
    ensures var v := MergeMaps(search, order, merged).value[c];
            (c in merged && v == merged[c]) || exists a :: FoundBy(search, order, c, a, v)
    decreases |order|
  {
    if order != [] {
      var v, m := MergeMaps(search, order, merged).value[c], search(order[0]).value;
      MergeOrigin(search, order[1..], merged + m, c);
      if a :| FoundBy(search, order[1..], c, a, v) {
        assert FoundBy(search, order, c, a, v);
      } else if c in m {
        assert FoundBy(search, order, c, order[0], v);
      }
    }
  }

  /** The search of a group scans the chunk where it starts for all of them, then goes on with what it found. */
  lemma FirstRound(tree: Tree, g: seq<Sought>, a: nat)
    requires a < STORAGE_MT_CHUNK_COUNT && OneAccount(g, a) && g != [] && a < |tree| && tree[a].Some?
    requires |Hashes(g)| == |Starts(g, a)| == |g|
    ensures Across(tree, g)
            == match FindInChunk(tree[a].value, Hashes(g), Starts(g, a))
               case Err(e) => Err(e)
               case Ok(found) => AcrossFrom(tree, g, a + 1, Record(map[], g, found, Base(a)))
  {
    hide FindInChunk, Record, Hashes, Starts;
    MinAccOfGroup(g, a);
    AllLeft(g);
  }

  /** When the scan of the first chunk misses commitment `y` at its place, the group's search does not find it there. */
  lemma {:induction false} FirstScanDecides(tree: Tree, g: seq<Sought>, a: nat, y: nat, place: nat)
    requires a < STORAGE_MT_CHUNK_COUNT && OneAccount(g, a) && NoDup(g) && y < |g|
    requires a < |tree| && tree[a].Some? && place < STORAGE_MT_VALUES_PER_ACCOUNT
    requires |Hashes(g)| == |Starts(g, a)|
             && Misses(FindInChunk(tree[a].value, Hashes(g), Starts(g, a)), y, place)
    ensures var r := Across(tree, g); r.Ok? && g[y] in r.value ==> r.value[g[y]] != Base(a) + place
  {
    hide FindInChunk, Record, Hashes, Starts, AcrossFrom, Across;
    LeftLists(g, a);
    FirstRound(tree, g, a);
    var found := FindInChunk(tree[a].value, Hashes(g), Starts(g, a));
    if found.Ok? {
      var first := Record(map[], g, found.value, Base(a));
      RecordOrigin(map[], g, found.value, Base(a));
      AcrossKeeps(tree, g, a + 1, first, g[y]);
    }
  }

  /** What the lookup finds for a commitment was found by the search of its own account. */
  lemma {:induction false} FoundInGroup(tree: Tree, comms: seq<Sought>, c: Sought)
    requires InTree(comms)
    requires var r := MergeMaps(GroupSearch(tree, comms), Accounts(comms), map[]); r.Ok? && c in r.value
    ensures var r := Across(tree, InAccount(comms, c.at.indexOfAccount));
            && r.Ok? && c in r.value
            && r.value[c] == MergeMaps(GroupSearch(tree, comms), Accounts(comms), map[]).value[c]
  {
    hide InTree, AcrossFrom;
    var v := MergeMaps(GroupSearch(tree, comms), Accounts(comms), map[]).value[c];
    MergeOrigin(GroupSearch(tree, comms), Accounts(comms), map[], c);
    var a :| FoundBy(GroupSearch(tree, comms), Accounts(comms), c, a, v);
    AcrossWithin(tree, InAccount(comms, a), MinAcc(InAccount(comms, a)), map[]);
    InAccountIs(comms, a);
  }

  // ---------------------------------------------------------------- a tree on which it is missed

  /** The entries of one account, by what they are made of. */
  ghost predicate GroupOf(hashes: seq<Hash>, own: seq<nat>, g: seq<Sought>, a: nat)
    requires |hashes| == |own|
  {
    && a < STORAGE_MT_CHUNK_COUNT && OneAccount(g, a) && NoDup(g)
    && (forall x :: 0 <= x < |g| ==>
          && g[x].id < |own| && g[x].hash == hashes[g[x].id]
          && g[x].at.indexInAccount < STORAGE_MT_VALUES_PER_ACCOUNT
          && Base(a) + g[x].at.indexInAccount == 1_048_575 + own[g[x].id])
    && forall x, y :: 0 <= x < y < |g| ==> g[x].id != g[y].id
  }

  lemma {:induction false} TheGroup(hashes: seq<Hash>, own: seq<nat>, a: nat)
    returns (comms: seq<Sought>, g: seq<Sought>)
    requires |hashes| == |own| && InTheTree(own)
    requires ToSought(Queries(Want(hashes, own))).Ok?
    requires InAccount(ToSought(Queries(Want(hashes, own))).value, a) != []
    ensures comms == ToSought(Queries(Want(hashes, own))).value && g == InAccount(comms, a)
    ensures GroupOf(hashes, own, g, a) && InTree(comms)
    ensures forall c :: c in g ==> c.id < |comms| && comms[c.id] == c
  {
    var wanted := Want(hashes, own);
    var qs := Queries(wanted);
    comms := ToSought(qs).value;
    g := InAccount(comms, a);
    SoughtConditions(qs);
    InAccountIs(comms, a);
    InAccountNoDup(comms, a);
    ToSoughtIs(qs);
    forall c | c in comms
      ensures c.id < |own| && comms[c.id] == c && c.hash == hashes[c.id] && Global(c) == 1_048_575 + own[c.id]
    {
      var i :| 0 <= i < |comms| && comms[i] == c;
      assert comms[i] == Entry(qs, i);
      EntryOfLeaf(wanted, i);
    }
    assert g[0] in g;
    assert forall x :: 0 <= x < |g| ==> g[x] in g;
  }

  /** Entry number `i` is pick number `j`. */
  ghost predicate IsPick(g: seq<Sought>, picks: seq<nat>, i: nat, j: nat) {
    j < |picks| && picks[j] < |g| && g[picks[j]].id == i
  }

  /** The leaf of entry number `i` when the picks lie from place `lo` of chunk `a` on. */
  ghost function LeafOf(g: seq<Sought>, picks: seq<nat>, a: nat, lo: nat, i: nat): nat {
    if j: nat :| IsPick(g, picks, i, j) && Base(a) + lo + j >= 1_048_575 then Base(a) + lo + j - 1_048_575 else 0
  }

  lemma LeafOfPick(hashes: seq<Hash>, own: seq<nat>, g: seq<Sought>, a: nat, picks: seq<nat>, lo: nat, j: nat)
    requires |hashes| == |own| && GroupOf(hashes, own, g, a) && Pickable(Starts(g, a), picks, lo) && j < |picks|
    requires Base(a) + lo + |picks| <= 2_097_151
    ensures picks[j] < |g| && g[picks[j]].id < |own|
    ensures 1_048_575 + LeafOf(g, picks, a, lo, g[picks[j]].id) == Base(a) + lo + j
    ensures own[g[picks[j]].id] <= LeafOf(g, picks, a, lo, g[picks[j]].id) < 1_048_576
  {
    assert Starts(g, a)[picks[j]] == g[picks[j]].at.indexInAccount by { assert g[picks[j]] in g; }
    assert IsPick(g, picks, g[picks[j]].id, j);
    assert forall l: nat :: IsPick(g, picks, g[picks[j]].id, l) ==> l == j;
  }

  /** The leaves for the picks. */
  lemma TreePlan(hashes: seq<Hash>, own: seq<nat>, g: seq<Sought>, a: nat, picks: seq<nat>, lo: nat)
    returns (plan: map<nat, nat>)
    requires |hashes| == |own| && GroupOf(hashes, own, g, a) && Pickable(Starts(g, a), picks, lo)
    requires Base(a) + lo + |picks| <= 2_097_151
    ensures Planned(own, plan)
    ensures forall j :: 0 <= j < |picks| ==>
              picks[j] < |g| && g[picks[j]].id in plan && 1_048_575 + plan[g[picks[j]].id] == Base(a) + lo + j
    ensures forall i :: i in plan ==> exists j :: IsPick(g, picks, i, j)
  {
    hide GroupOf, Pickable, LeafOf;
    forall j | 0 <= j < |picks|
      ensures picks[j] < |g| && g[picks[j]].id < |own|
      ensures 1_048_575 + LeafOf(g, picks, a, lo, g[picks[j]].id) == Base(a) + lo + j
      ensures own[g[picks[j]].id] <= LeafOf(g, picks, a, lo, g[picks[j]].id) < 1_048_576
    {
      LeafOfPick(hashes, own, g, a, picks, lo, j);
    }
    var ids := set j | 0 <= j < |picks| && picks[j] < |g| :: g[picks[j]].id;
    plan := map i | i in ids :: LeafOf(g, picks, a, lo, i);
    forall i | i in plan ensures exists j :: IsPick(g, picks, i, j) {
      var j :| 0 <= j < |picks| && picks[j] < |g| && g[picks[j]].id == i;
      assert IsPick(g, picks, i, j);
    }
    forall i, l | i in plan && l in plan && plan[i] == plan[l] ensures i == l {
      var j :| IsPick(g, picks, i, j);
      var m :| IsPick(g, picks, l, m);
    }
    forall i | i in plan ensures i < |own| && own[i] <= plan[i] < 1_048_576 {
      var j :| IsPick(g, picks, i, j);
    }
  }

  lemma ChunkOfTree(tree: Tree, a: nat)
    requires WellSized(tree) && AllActive(tree) && a < STORAGE_MT_CHUNK_COUNT
    ensures a < |tree| && tree[a].Some? && |tree[a].value| == STORAGE_MT_VALUES_PER_ACCOUNT
    ensures Piece(Flat(tree), Base(a), tree[a].value)
  {
    FlatCovers(tree);
  }

  lemma GroupHashes(hashes: seq<Hash>, own: seq<nat>, g: seq<Sought>, a: nat)
    requires |hashes| == |own| && GroupOf(hashes, own, g, a)
    ensures |Hashes(g)| == |g| == |Starts(g, a)| && a < STORAGE_MT_CHUNK_COUNT && OneAccount(g, a) && NoDup(g)
    ensures forall x :: 0 <= x < |g| ==> g[x].id < |hashes| && Hashes(g)[x] == hashes[g[x].id]
    ensures forall x :: 0 <= x < |g| ==>
              Base(a) + Starts(g, a)[x] == 1_048_575 + own[g[x].id] && Starts(g, a)[x] < STORAGE_MT_VALUES_PER_ACCOUNT
    ensures forall x, y :: 0 <= x < |g| && 0 <= y < |g| && g[x].id == g[y].id ==> x == y
  {
    assert forall x :: 0 <= x < |g| ==> g[x] in g;
  }

  /** Where the picks lie, and what is free of others. */
  ghost predicate PlannedSo(hashes: seq<Hash>, g: seq<Sought>, a: nat, picks: seq<nat>, lo: nat, plan: map<nat, nat>,
        floor: nat, from: nat) {
    && (forall j :: 0 <= j < |picks| ==>
          picks[j] < |g| && g[picks[j]].id in plan && 1_048_575 + plan[g[picks[j]].id] == Base(a) + lo + j)
    && (forall i :: i in plan ==> exists j :: IsPick(g, picks, i, j))
    && (forall x :: 0 <= x < |g| ==> g[x].id < |hashes|)
    && (forall x, y :: 0 <= x < |g| && 0 <= y < |g| && g[x].id == g[y].id ==> x == y)
    && Base(a) + from >= 1_048_575 && 1_048_575 + floor >= Base(a) + lo + |picks|
    && lo + |picks| <= STORAGE_MT_VALUES_PER_ACCOUNT
  }

  /** A tree laid out so follows the picks in the chunk. */
  lemma TreeFollows(flat: seq<Hash>, chunk: seq<Hash>, hashes: seq<Hash>, g: seq<Sought>, a: nat, picks: seq<nat>,
        lo: nat, plan: map<nat, nat>, floor: nat, from: nat)
    requires AsPlanned(flat, hashes, plan, floor) && PlannedSo(hashes, g, a, picks, lo, plan, floor, from)
    requires Piece(flat, Base(a), chunk) && |chunk| == STORAGE_MT_VALUES_PER_ACCOUNT
    requires |Hashes(g)| == |g| && forall x :: 0 <= x < |g| && g[x].id < |hashes| ==> Hashes(g)[x] == hashes[g[x].id]
    ensures Follows(chunk, Hashes(g), picks, lo, from)
  {
    hide Hashes;
    forall j | 0 <= j < |picks|
      ensures picks[j] < |g| && lo + j < |chunk| && chunk[lo + j] == Hashes(g)[picks[j]]
    {
      assert flat[Base(a) + (lo + j)] == chunk[lo + j];
      assert flat[1_048_575 + plan[g[picks[j]].id]] == hashes[g[picks[j]].id];
    }
    forall i, x | from <= i < lo + |picks| && i < |chunk| && 0 <= x < |g| && chunk[i] == Hashes(g)[x]
      ensures i >= lo && x == picks[i - lo]
    {
      assert flat[Base(a) + i] == chunk[i] == hashes[g[x].id];
      OnlyThere(flat, hashes, g, a, picks, lo, plan, floor, from, i, x);
    }
  }

  lemma OnlyThere(flat: seq<Hash>, hashes: seq<Hash>, g: seq<Sought>, a: nat, picks: seq<nat>, lo: nat,
        plan: map<nat, nat>, floor: nat, from: nat, i: nat, x: nat)
    requires AsPlanned(flat, hashes, plan, floor) && PlannedSo(hashes, g, a, picks, lo, plan, floor, from)
    requires from <= i < lo + |picks| && x < |g| && Base(a) + i < |flat| && g[x].id < |hashes|
    requires flat[Base(a) + i] == hashes[g[x].id]
    ensures i >= lo && x == picks[i - lo]
  {
    assert g[x].id in plan;
    var j :| IsPick(g, picks, g[x].id, j);
  }

  /** The lookup would find the commitment at its leaf, but the search of its account does not. */
  lemma {:induction false} MissedInTree(tree: Tree, hashes: seq<Hash>, own: seq<nat>, comms: seq<Sought>, a: nat,
        y: nat, leaf: nat)
    requires WellSized(tree) && |hashes| == |own| && InTheTree(own)
    requires ToSought(Queries(Want(hashes, own))) == Ok(comms) && y < |InAccount(comms, a)|
    requires var c := InAccount(comms, a)[y];
             && c.id < |comms| && comms[c.id] == c && c.at.indexOfAccount == a
             && (forall g :: 1_048_575 <= g < |Flat(tree)| && Flat(tree)[g] == hashes[c.id] ==> g == 1_048_575 + leaf)
             && var r := Across(tree, InAccount(comms, a));
             r.Ok? && c in r.value ==> r.value[c] != 1_048_575 + leaf
    ensures GetCommitmentIndices(tree, Queries(Want(hashes, own))).Err?
  {
    hide WellSized, Covers, Flat, Across;
    var wanted := Want(hashes, own);
    var qs := Queries(wanted);
    var c := InAccount(comms, a)[y];
    var r := GetCommitmentIndices(tree, qs);
    if r.Ok? {
      FlatCovers(tree);
      LookupIsSound(tree, Flat(tree), qs);
      SoughtConditions(qs);
      LocalsAreFound(comms, FindFromStart(tree, qs).value);
      FoundInGroup(tree, comms, c);
      FoundIsLeaf(Flat(tree), wanted, c.id, r.value[c.id]);
      assert false;
    }
  }

  lemma FoundIsLeaf(flat: seq<Hash>, wanted: seq<Wanted>, i: nat, node: LocalIndex)
    requires i < |wanted| && FoundRight(flat, Queries(wanted), i, node)
    ensures LocalToGlobal(node).Ok? && 1_048_575 <= LocalToGlobal(node).value < |flat|
    ensures flat[LocalToGlobal(node).value] == wanted[i].hash
  {
    var qs := Queries(wanted);
    var j :| 0 <= j < |qs| && SameAccount(qs[j].start, qs[i].start)
      && LocalToGlobal(qs[j].start).value <= LocalToGlobal(node).value;
    StartIsLeaf(wanted, j);
  }

  /** When the scan can skip something in some account, some tree that holds the commitments defeats it. */
  lemma {:induction false} SomeTreeSkips(p: Poseidon, hashes: seq<Hash>, own: seq<nat>) returns (tree: Tree)
    requires |hashes| == |own| && ProperHashes(hashes) && Storable(p)
    requires forall j :: 0 <= j < |own| ==> own[j] + |own| <= 1_048_576
    requires !StartsScan(Want(hashes, own))
    ensures WellSized(tree) && TreeHolds(p, tree, hashes, own) && InfoLeaves(tree, Want(hashes, own)).Err?
  {
    hide WellSized, TreeHolds, Flat, ProperHashes, Storable, GetCommitmentIndices, GroupOf, Across, NoSkips,
      AllReadable, StartsScan, ToSought, Want, Starts, InAccount;
    InTheTreeOf(own);
    var comms, g, a := SkippingGroup(hashes, own);
    var y, leaf;
    tree, y, leaf := TreeAgainst(p, hashes, own, g, a);
    MissedInTree(tree, hashes, own, comms, a, y, leaf);
  }

  lemma InTheTreeOf(own: seq<nat>)
    requires forall j :: 0 <= j < |own| ==> own[j] + |own| <= 1_048_576
    ensures InTheTree(own)
  {
  }

  /** In some account something can be skipped. */
  lemma {:induction false} SkippingGroup(hashes: seq<Hash>, own: seq<nat>)
    returns (comms: seq<Sought>, g: seq<Sought>, a: nat)
    requires |hashes| == |own| && InTheTree(own) && !StartsScan(Want(hashes, own))
    ensures ToSought(Queries(Want(hashes, own))) == Ok(comms) && g == InAccount(comms, a)
    ensures GroupOf(hashes, own, g, a) && !NoSkips(Starts(g, a))
    ensures forall c :: c in g ==> c.id < |comms| && comms[c.id] == c && c.at.indexOfAccount == a
  {
    hide Starts, NoSkips, GroupOf;
    a :| !NoSkips(Starts(InAccount(ToSought(Queries(Want(hashes, own))).value, a), a));
    NothingSkipped(a);
    comms, g := TheGroup(hashes, own, a);
    InAccountIs(comms, a);
  }

  lemma NothingSkipped(a: nat)
    ensures NoSkips(Starts([], a))
  {
  }

  /** A tree that holds the commitments, with one at a leaf where the search of its account does not find it. */
  lemma {:induction false} TreeAgainst(p: Poseidon, hashes: seq<Hash>, own: seq<nat>, g: seq<Sought>, a: nat)
    returns (tree: Tree, y: nat, leaf: nat)
    requires |hashes| == |own| && ProperHashes(hashes) && Storable(p) && GroupOf(hashes, own, g, a)
    requires forall j :: 0 <= j < |own| ==> own[j] + |own| <= 1_048_576
    requires !NoSkips(Starts(g, a))
    ensures WellSized(tree) && TreeHolds(p, tree, hashes, own) && y < |g| && g[y].id < |hashes|
    ensures forall h :: 1_048_575 <= h < |Flat(tree)| && Flat(tree)[h] == hashes[g[y].id] ==> h == 1_048_575 + leaf
    ensures var r := Across(tree, g); r.Ok? && g[y] in r.value ==> r.value[g[y]] != 1_048_575 + leaf
  {
    hide WellSized, Lies, Flat, ProperHashes, Storable, Planned, GroupOf, Across, KeptUp, Stored, SpareEmpty, Skips,
      Pickable, AsPlanned, PlannedSo, Follows, FindInChunk, SortDecimal, Hashes, Starts, Piece, AllActive, Misses;
    GroupHashes(hashes, own, g, a);
    var starts := Starts(g, a);
    var k :| 0 <= k < |SortDecimal(starts)| && Skips(starts, k);
    var picks, plan, floor := PlanAgainst(hashes, own, g, a, k);
    var lo, from := SortDecimal(starts)[k] - 1 - k, SortDecimal(starts)[0];
    tree := ATreeHolds(p, hashes, own, plan, floor);
    ChunkOfTree(tree, a);
    TreeFollows(Flat(tree), tree[a].value, hashes, g, a, picks, lo, plan, floor, from);
    LastIsMissed(tree[a].value, Hashes(g), starts, picks, k);
    y, leaf := LastPlanned(Flat(tree), hashes, g, a, picks, lo, plan, floor, from);
    FirstScanDecides(tree, g, a, y, lo + k);
  }

  /** The last pick and its leaf. */
  lemma LastPlanned(flat: seq<Hash>, hashes: seq<Hash>, g: seq<Sought>, a: nat, picks: seq<nat>, lo: nat,
        plan: map<nat, nat>, floor: nat, from: nat)
    returns (y: nat, leaf: nat)
    requires AsPlanned(flat, hashes, plan, floor) && PlannedSo(hashes, g, a, picks, lo, plan, floor, from)
    requires picks != []
    ensures y == picks[|picks| - 1] < |g| && g[y].id < |hashes| && 1_048_575 + leaf == Base(a) + lo + |picks| - 1
    ensures lo + |picks| <= STORAGE_MT_VALUES_PER_ACCOUNT
    ensures forall h :: 1_048_575 <= h < |flat| && flat[h] == hashes[g[y].id] ==> h == 1_048_575 + leaf
  {
    y := picks[|picks| - 1];
    leaf := plan[g[y].id];
  }

  /** Picks for the skip at start number `k`, leaves for them, and a floor for the others. */
  lemma {:induction false} PlanAgainst(hashes: seq<Hash>, own: seq<nat>, g: seq<Sought>, a: nat, k: nat)
    returns (picks: seq<nat>, plan: map<nat, nat>, floor: nat)
    requires |hashes| == |own| && GroupOf(hashes, own, g, a)
    requires forall j :: 0 <= j < |own| ==> own[j] + |own| <= 1_048_576
    requires k < |SortDecimal(Starts(g, a))| && Skips(Starts(g, a), k)
    ensures var starts := Starts(g, a);
            var d := SortDecimal(starts)[k];
            && k < d && |picks| == k + 1 && Pickable(starts, picks, d - 1 - k)
            && PlannedSo(hashes, g, a, picks, d - 1 - k, plan, floor, SortDecimal(starts)[0])
    ensures Planned(own, plan) && forall j :: 0 <= j < |own| ==> Max(own[j], floor) + |own| <= 1_048_576
  {
    hide Skips, GroupOf, Pickable, Planned, SortDecimal, Starts, IsPick;
    GroupIds(hashes, own, g, a);
    floor := FloorOf(hashes, own, g, a, k);
    picks := Pick(Starts(g, a), k, 0);
    plan := TreePlan(hashes, own, g, a, picks, SortDecimal(Starts(g, a))[k] - 1 - k);
  }

  lemma GroupIds(hashes: seq<Hash>, own: seq<nat>, g: seq<Sought>, a: nat)
    requires |hashes| == |own| && GroupOf(hashes, own, g, a)
    ensures forall x :: 0 <= x < |g| ==> g[x].id < |hashes|
    ensures forall x, y :: 0 <= x < |g| && 0 <= y < |g| && g[x].id == g[y].id ==> x == y
  {
  }

  /** Sorted start number `k` as a leaf of the tree. */
  lemma FloorOf(hashes: seq<Hash>, own: seq<nat>, g: seq<Sought>, a: nat, k: nat) returns (floor: nat)
    requires |hashes| == |own| && GroupOf(hashes, own, g, a)
    requires forall j :: 0 <= j < |own| ==> own[j] + |own| <= 1_048_576
    requires k < |SortDecimal(Starts(g, a))|
    ensures var sorted := SortDecimal(Starts(g, a));
            && Base(a) + sorted[k] == 1_048_575 + floor && Base(a) + sorted[0] >= 1_048_575
            && sorted[k] < STORAGE_MT_VALUES_PER_ACCOUNT
    ensures floor < 1_048_576 && forall j :: 0 <= j < |own| ==> Max(own[j], floor) + |own| <= 1_048_576
  {
    hide GroupOf, SortDecimal, Starts;
    GroupHashes(hashes, own, g, a);
    var starts := Starts(g, a);
    SortDecimalKeeps(starts);
    assert SortDecimal(starts)[k] in starts && SortDecimal(starts)[0] in starts;
    var x :| 0 <= x < |starts| && starts[x] == SortDecimal(starts)[k];
    var z :| 0 <= z < |starts| && starts[z] == SortDecimal(starts)[0];
    floor := own[g[x].id];
  }

  /**
   The lookup with the start indices handed around succeeds on every tree that holds the commitments if and only if each
   is handed a start index of its own account and the scan can skip nothing in any account.
   */
  lemma {:induction false} FoundOnEveryExactly(p: Poseidon, hashes: seq<Hash>, own: seq<nat>, starts: seq<nat>)
    requires |hashes| == |own| == |starts| && ProperHashes(hashes) && Storable(p)
    requires forall j :: 0 <= j < |own| ==> own[j] + |own| <= 1_048_576
    requires multiset(starts) == multiset(own)
    ensures FoundOnEvery(p, hashes, own, starts) <==> SameAccounts(starts, own) && StartsScan(Want(hashes, own))
  {
    hide SameAccounts, InfoLeaves, ProperHashes, StartsScan, Want, WellSized, TreeHolds, Storable;
    CrossedStartsExactly(p, hashes, own, starts);
    if SameAccounts(starts, own) && !StartsScan(Want(hashes, own)) {
      var tree := SomeTreeSkips(p, hashes, own);
      SameAccountsSameOutcome(tree, hashes, own, starts);
    }
  }
}
