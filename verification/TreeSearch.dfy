/**
 Looking commitments up from their start leaves, `findCommitmentIndicesFromStartIndex` of
 src/sdk/accountReaders/StorageAccountReader.ts and `getCommitmentIndices` and `hasCommitment` of
 src/sdk/paramManagers/TreeManager.ts, against one linear search over the whole tree.
 */
module TreeSearch {
  import opened Common
  import opened Decimal
  import opened IndexConverter
  import opened ChunkScan
  import opened StorageSearch

  /** A commitment hash and the node from which on it is sought. */
  datatype Query = Query(hash: Hash, start: LocalIndex)

  function ToSought(qs: seq<Query>): (r: Result<seq<Sought>>)
    ensures r.Ok? ==> |r.value| == |qs|
  {
    if qs == [] then Ok([])
    else
      var last := qs[|qs| - 1];
      match ToSought(qs[..|qs| - 1])
      case Err(e) => Err(e)
      case Ok(rest) =>
        match LocalToAcc(last.start)
        case Err(e) => Err(e)
        case Ok(at) => Ok(rest + [Sought(|rest|, last.hash, at)])
  }

  /** The search for the commitments that start in a given account. */
  function GroupSearch(tree: Tree, comms: seq<Sought>): nat -> Result<Indices> { (a: nat) => Across(tree,
        InAccount(comms, a)) }

  /** The maps of all groups merged, or the error of a search that failed. */
  function MergeMaps(search: nat -> Result<Indices>, order: seq<nat>, merged: Indices): Result<Indices>
    decreases |order|
  {
    if order == [] then Ok(merged)
    else match search(order[0])
      case Err(e) => Err(e)
      case Ok(m) => MergeMaps(search, order[1..], merged + m)
  }

  function FindFromStart(tree: Tree, qs: seq<Query>): Result<Indices> {
    match ToSought(qs)
    case Err(e) => Err(e)
    case Ok(comms) => MergeMaps(GroupSearch(tree, comms), Accounts(comms), map[])
  }

  /** `findCommitmentIndicesFromStartIndex` */
  method FindCommitmentIndicesFromStartIndex(tree: Tree, qs: seq<Query>) returns (r: Result<Indices>)
    ensures r == FindFromStart(tree, qs)
  {
    var comms := ToSought(qs);
    if comms.Err? {
      return Err(comms.error);
    }
    var groups, order := GroupAccIndices(comms.value);
    var merged: Indices := map[];
    for i := 0 to |order|
      invariant MergeMaps(GroupSearch(tree, comms.value), order[i..], merged) == FindFromStart(tree, qs)
    {
      var found := FindCommitmentIndicesAcrossChunks(tree, groups[order[i]]);
      assert order[i..][0] == order[i] && order[i..][1..] == order[i + 1..];
      if found.Err? {
        return Err(found.error);
      }
      merged := merged + found.value;
    }
    return Ok(merged);
  }

  /** The places of the commitments as nodes; a missing one is an error. */
  function ToLocals(m: Indices, comms: seq<Sought>): (r: Result<seq<LocalIndex>>)
    ensures r.Ok? ==> |r.value| == |comms|
  {
    if comms == [] then Ok([])
    else if comms[0] !in m then Err(NotFound)
    else match GlobalToLocal(m[comms[0]])
      case Err(e) => Err(e)
      case Ok(local) =>
        match ToLocals(m, comms[1..])
        case Err(e) => Err(e)
        case Ok(rest) => Ok([local] + rest)
  }

  /** `getCommitmentIndices` */
  function GetCommitmentIndices(tree: Tree, qs: seq<Query>): (r: Result<seq<LocalIndex>>)
    ensures r.Ok? ==> |r.value| == |qs|
  {
    match FindFromStart(tree, qs) case Err(e) => Err(e) case Ok(m) => ToLocals(m, ToSought(qs).value)
  }

  /** `hasCommitment`: the conversion of the start stands outside of the try block. */
  function HasCommitment(tree: Tree, hash: Hash, leafStart: nat): Result<bool> {
    match LeafToLocal(leafStart)
    case Err(e) => Err(e)
    case Ok(start) => Ok(GetCommitmentIndices(tree, [Query(hash, start)]).Ok?)
  }

  // ---------------------------------------------------------------- the searched tree

  /** Where the search for `c` starts, as a place of the whole tree. */
  function Global(c: Sought): nat { Base(c.at.indexOfAccount) + c.at.indexInAccount }

  /** The places of the last account that no node has are empty. */
  ghost predicate SpareEmpty(flat: seq<Hash>) {
    forall g :: NodeCountMT(MERKLE_TREE_HEIGHT) <= g < |flat| ==> flat[g] == 0
  }

  ghost predicate InTree(comms: seq<Sought>) {
    forall c :: c in comms ==>
      c.at.indexOfAccount < STORAGE_MT_CHUNK_COUNT && c.at.indexInAccount < STORAGE_MT_VALUES_PER_ACCOUNT
  }

  /** Where a linear search from its own start finds a commitment. */
  function FirstPlace(flat: seq<Hash>, c: Sought): Option<nat> { Seek(flat, c.hash, Global(c)) }

  ghost function FirstPlaces(flat: seq<Hash>, comms: seq<Sought>): Indices {
    map c | c in comms && FirstPlace(flat, c).Some? :: FirstPlace(flat, c).value
  }

  ghost predicate AllThere(flat: seq<Hash>, comms: seq<Sought>) { forall c :: c in comms ==> FirstPlace(flat, c).Some? }

  /** The search of a group gives the first places of its commitments, and fails exactly when one is missing. */
  ghost predicate GroupFound(r: Result<Indices>, flat: seq<Hash>, comms: seq<Sought>) {
    (r.Ok? <==> AllThere(flat, comms)) && (r.Ok? ==> r.value == FirstPlaces(flat, comms))
  }

  lemma LastPlace(tree: Tree, flat: seq<Hash>, a: nat, low: nat)
    requires WellSized(tree) && Covers(tree, flat) && SpareEmpty(flat) && a < STORAGE_MT_CHUNK_COUNT
    requires low < STORAGE_MT_VALUES_PER_ACCOUNT
    ensures HasEmpty(flat, Base(a) + low)
  {
    TreeSize();
    BaseIs(STORAGE_MT_CHUNK_COUNT);
    BaseGrows(a + 1, STORAGE_MT_CHUNK_COUNT);
    assert flat[|flat| - 1] == 0;
  }

  lemma {:induction false} InAccountIs(comms: seq<Sought>, a: nat)
    ensures forall c :: c in InAccount(comms, a) <==> c in comms && c.at.indexOfAccount == a
  {
    if comms != [] {
      var init, last := comms[..|comms| - 1], comms[|comms| - 1];
      InAccountIs(init, a);
      assert comms == init + [last];
    }
  }

  lemma {:induction false} InAccountNoDup(comms: seq<Sought>, a: nat)
    requires NoDup(comms)
    ensures NoDup(InAccount(comms, a))
  {
    if comms != [] {
      var init, last := comms[..|comms| - 1], comms[|comms| - 1];
      InAccountNoDup(init, a);
      InAccountIs(init, a);
      assert last !in init;
    }
  }

  ghost predicate OneAccount(g: seq<Sought>, a: nat) { forall c :: c in g ==> c.at.indexOfAccount == a }

  lemma {:induction false} MinAccOfGroup(g: seq<Sought>, a: nat)
    requires a < STORAGE_MT_CHUNK_COUNT && OneAccount(g, a)
    ensures MinAcc(g) == if g == [] then STORAGE_MT_CHUNK_COUNT else a
  {
    if g != [] {
      var init, last := g[..|g| - 1], g[|g| - 1];
      assert last in g && forall c :: c in init ==> c in g;
      MinAccOfGroup(init, a);
    }
  }

  lemma {:induction false} AllLeft(comms: seq<Sought>)
    ensures LeftToFind(comms, map[]) == comms
  {
    if comms != [] { AllLeft(comms[..|comms| - 1]); }
  }

  /** Seeking from `from` finds what seeking from each own start finds. */
  ghost predicate ServesAll(flat: seq<Hash>, g: seq<Sought>, from: nat) {
    forall c :: c in g ==> Seek(flat, c.hash, from) == FirstPlace(flat, c)
  }

  lemma OutcomeOfGroup(r: Result<Indices>, flat: seq<Hash>, g: seq<Sought>, from: nat)
    requires Outcome(r, flat, g, from, map[]) && HasEmpty(flat, from) && ServesAll(flat, g, from)
    ensures GroupFound(r, flat, g)
  {
    assert forall c :: c in g ==> ReachedAt(flat, c, from, map[]) == FirstPlace(flat, c);
    assert Reached(flat, g, from, map[]) == FirstPlaces(flat, g);
  }

  lemma GroupOutcome(tree: Tree, flat: seq<Hash>, g: seq<Sought>, a: nat, low: nat)
    requires WellSized(tree) && Covers(tree, flat)
    requires g != [] && NoDup(g) && OneAccount(g, a) && a < STORAGE_MT_CHUNK_COUNT
    requires low < STORAGE_MT_VALUES_PER_ACCOUNT
    requires LinearHere(tree, g, a, low, map[])
    ensures Outcome(Across(tree, g), flat, g, Base(a) + low, map[])
  {
    hide Outcome, LinearHere, Covers, NoDup, AcrossFrom, MinAcc;
    MinAccOfGroup(g, a);
    AcrossFromIs(tree, flat, g, a, low, map[]);
  }

  /** One group, when the scan of its first chunk is linear and the group's start serves as well as each own start. */
  lemma GroupResult(tree: Tree, flat: seq<Hash>, g: seq<Sought>, a: nat, low: nat, from: nat)
    requires WellSized(tree) && Covers(tree, flat) && HasEmpty(flat, from)
    requires g != [] && NoDup(g) && OneAccount(g, a) && a < STORAGE_MT_CHUNK_COUNT
    requires low < STORAGE_MT_VALUES_PER_ACCOUNT
    requires LinearHere(tree, g, a, low, map[]) && from == Base(a) + low && ServesAll(flat, g, from)
    ensures GroupFound(Across(tree, g), flat, g)
  {
    hide *;
    GroupOutcome(tree, flat, g, a, low);
    OutcomeOfGroup(Across(tree, g), flat, g, from);
  }

  // ---------------------------------------------------------------- several commitments at once

  /** No commitment lies between the start of another one of its account and its own start. */
  ghost predicate NoEarlier(flat: seq<Hash>, comms: seq<Sought>) {
    forall c, d, p | c in comms && d in comms && c.at.indexOfAccount == d.at.indexOfAccount
                     && Global(d) <= p < Global(c) && p < |flat| ::
      flat[p] != c.hash
  }

  /** From every start on the tree has no holes. */
  ghost predicate NoHoles(flat: seq<Hash>, comms: seq<Sought>) { forall c :: c in comms ==> Populated(flat, Global(c)) }

  /** In no account the scan can skip anything. */
  ghost predicate ScansRight(comms: seq<Sought>) {
    forall a: nat :: NoSkips(Starts(InAccount(comms, a), a))
  }

  /** Without holes, a search may start anywhere before, as long as the commitment is not there. */
  lemma {:induction false} SeekFromLater(s: seq<Hash>, c: Hash, from: nat, start: nat)
    requires from <= start && Populated(s, from) && forall p :: from <= p < start && p < |s| ==> s[p] != c
    ensures Seek(s, c, from) == Seek(s, c, start)
    decreases start - from
  {
    if from < start && from < |s| && s[from] != 0 { SeekFromLater(s, c, from + 1, start); }
  }

  /** `low` is the least start in the account, and `d` has it. */
  ghost predicate IsLeast(g: seq<Sought>, a: nat, low: nat, d: Sought) {
    && d in g && d.at.indexInAccount == low && low in Starts(g, a)
    && forall i :: 0 <= i < |g| ==> low <= Starts(g, a)[i] == g[i].at.indexInAccount
  }

  lemma LeastStart(g: seq<Sought>, a: nat) returns (low: nat, d: Sought)
    requires g != [] && OneAccount(g, a) && InTree(g)
    ensures IsLeast(g, a, low, d) && low < STORAGE_MT_VALUES_PER_ACCOUNT
  {
    low := Least(Starts(g, a));
    var i :| 0 <= i < |g| && Starts(g, a)[i] == low;
    d := g[i];
    assert forall j :: 0 <= j < |g| ==> g[j] in g;
  }

  /** The first chunk of a group is as the jumping scan needs it. */
  lemma FirstChunkSearchable(flat: seq<Hash>, chunk: seq<Hash>, g: seq<Sought>, a: nat, low: nat, d: Sought)
    requires Piece(flat, Base(a), chunk) && |chunk| == STORAGE_MT_VALUES_PER_ACCOUNT && InTree(g)
    requires OneAccount(g, a) && NoEarlier(flat, g) && NoHoles(flat, g)
    requires IsLeast(g, a, low, d)
    ensures Searchable(chunk, Hashes(g), Starts(g, a), low)
  {
    assert forall i :: 0 <= i < |g| ==> g[i] in g;
    assert Populated(flat, Global(d));
    forall i, j | low <= i < j < |chunk| && chunk[i] == 0 ensures chunk[j] == 0 {
      assert flat[Base(a) + i] == chunk[i] && flat[Base(a) + j] == chunk[j];
    }
    forall j, p | 0 <= j < |g| && low <= p < |chunk| && p < Starts(g, a)[j] ensures chunk[p] != Hashes(g)[j] {
      assert flat[Base(a) + p] == chunk[p];
      assert Global(d) <= Base(a) + p < Global(g[j]);
    }
  }

  lemma LeastServes(flat: seq<Hash>, g: seq<Sought>, a: nat, low: nat, d: Sought)
    requires OneAccount(g, a) && NoEarlier(flat, g) && NoHoles(flat, g)
    requires IsLeast(g, a, low, d)
    ensures ServesAll(flat, g, Base(a) + low)
  {
    hide Seek, Base;
    forall c | c in g ensures Seek(flat, c.hash, Base(a) + low) == FirstPlace(flat, c) {
      var i :| 0 <= i < |g| && g[i] == c;
      assert low <= Starts(g, a)[i];
      assert Populated(flat, Global(d));
      SeekFromLater(flat, c.hash, Global(d), Global(c));
    }
  }

  lemma FirstChunkLinear(tree: Tree, flat: seq<Hash>, g: seq<Sought>, a: nat, low: nat, d: Sought)
    requires WellSized(tree) && Covers(tree, flat) && InTree(g) && OneAccount(g, a)
    requires NoEarlier(flat, g) && NoHoles(flat, g)
    requires IsLeast(g, a, low, d) && NoSkips(Starts(g, a))
    ensures LinearHere(tree, g, a, low, map[])
  {
    AllLeft(g);
    if a < |tree| && tree[a].Some? {
      FirstChunkSearchable(flat, tree[a].value, g, a, low, d);
      SafeScanIsLinear(tree[a].value, Hashes(g), Starts(g, a), low);
    }
  }

  lemma GroupIsLinear(tree: Tree, flat: seq<Hash>, g: seq<Sought>, a: nat)
    requires WellSized(tree) && Covers(tree, flat) && SpareEmpty(flat)
    requires g != [] && NoDup(g) && InTree(g) && OneAccount(g, a) && a < STORAGE_MT_CHUNK_COUNT
    requires NoEarlier(flat, g) && NoHoles(flat, g) && NoSkips(Starts(g, a))
    ensures GroupFound(Across(tree, g), flat, g)
  {
    hide *;
    var low, d := LeastStart(g, a);
    FirstChunkLinear(tree, flat, g, a, low, d);
    LeastServes(flat, g, a, low, d);
    LastPlace(tree, flat, a, low);
    GroupResult(tree, flat, g, a, low, Base(a) + low);
  }

  /** The first places of the commitments whose accounts are in `order`. */
  ghost function FirstPlacesIn(flat: seq<Hash>, comms: seq<Sought>, order: seq<nat>): Indices {
    map c | c in comms && c.at.indexOfAccount in order && FirstPlace(flat, c).Some? :: FirstPlace(flat, c).value
  }

  ghost predicate AllThereIn(flat: seq<Hash>, comms: seq<Sought>, order: seq<nat>) {
    forall c :: c in comms && c.at.indexOfAccount in order ==> FirstPlace(flat, c).Some?
  }

  lemma OneMoreAccount(flat: seq<Hash>, comms: seq<Sought>, a: nat, rest: seq<nat>)
    ensures FirstPlacesIn(flat, comms, [a] + rest)
            == FirstPlaces(flat, InAccount(comms, a)) + FirstPlacesIn(flat, comms, rest)
    ensures AllThereIn(flat, comms, [a] + rest)
            <==> AllThere(flat, InAccount(comms, a)) && AllThereIn(flat, comms, rest)
  {
    InAccountIs(comms, a);
    assert forall b :: b in [a] + rest <==> b == a || b in rest;
  }

  ghost predicate GroupsFound(search: nat -> Result<Indices>, flat: seq<Hash>, comms: seq<Sought>, order: seq<nat>) {
    forall a :: a in order ==> GroupFound(search(a), flat, InAccount(comms, a))
  }

  lemma {:induction false} MergeIs(search: nat -> Result<Indices>, flat: seq<Hash>, comms: seq<Sought>,
        order: seq<nat>, merged: Indices)
    requires GroupsFound(search, flat, comms, order)
    ensures var r := MergeMaps(search, order, merged);
            && (r.Ok? <==> AllThereIn(flat, comms, order))
            && (r.Ok? ==> r.value == merged + FirstPlacesIn(flat, comms, order))
    decreases |order|
  {
    if order == [] {
      assert FirstPlacesIn(flat, comms, order) == map[];
    } else {
      var a, rest := order[0], order[1..];
      var m := search(a);
      assert GroupFound(m, flat, InAccount(comms, a));
      assert order == [a] + rest;
      OneMoreAccount(flat, comms, a, rest);
      if m.Ok? {
        MergeIs(search, flat, comms, rest, merged + m.value);
        MapsAssociate(merged, m.value, FirstPlacesIn(flat, comms, rest));
      }
    }
  }

  lemma MapsAssociate(a: Indices, b: Indices, c: Indices)
    ensures a + b + c == a + (b + c)
  {
  }

  lemma {:induction false} AccountsAre(comms: seq<Sought>)
    ensures forall a :: a in Accounts(comms) <==> exists c :: c in comms && c.at.indexOfAccount == a
  {
    if comms != [] {
      var init, last := comms[..|comms| - 1], comms[|comms| - 1];
      AccountsAre(init);
      assert comms == init + [last];
      assert last in comms;
    }
  }

  lemma AccountsCover(flat: seq<Hash>, comms: seq<Sought>)
    ensures FirstPlacesIn(flat, comms, Accounts(comms)) == FirstPlaces(flat, comms)
    ensures AllThereIn(flat, comms, Accounts(comms)) <==> AllThere(flat, comms)
  {
    AccountsAre(comms);
  }

  lemma GroupsGiveAll(search: nat -> Result<Indices>, flat: seq<Hash>, comms: seq<Sought>)
    requires GroupsFound(search, flat, comms, Accounts(comms))
    ensures GroupFound(MergeMaps(search, Accounts(comms), map[]), flat, comms)
  {
    MergeIs(search, flat, comms, Accounts(comms), map[]);
    AccountsCover(flat, comms);
  }

  /** What holds of all commitments holds of those of one account. */
  lemma SubgroupConditions(flat: seq<Hash>, comms: seq<Sought>, a: nat)
    requires NoDup(comms) && InTree(comms) && NoEarlier(flat, comms) && NoHoles(flat, comms)
    ensures var g := InAccount(comms, a);
            NoDup(g) && InTree(g) && OneAccount(g, a) && NoEarlier(flat, g) && NoHoles(flat, g)
  {
    InAccountIs(comms, a);
    InAccountNoDup(comms, a);
  }

  lemma GroupsAreFound(tree: Tree, flat: seq<Hash>, comms: seq<Sought>)
    requires WellSized(tree) && Covers(tree, flat) && SpareEmpty(flat)
    requires NoDup(comms) && InTree(comms) && NoEarlier(flat, comms) && NoHoles(flat, comms) && ScansRight(comms)
    ensures GroupsFound(GroupSearch(tree, comms), flat, comms, Accounts(comms))
  {
    AccountsAre(comms);
    forall a | a in Accounts(comms)
      ensures GroupFound(GroupSearch(tree, comms)(a), flat, InAccount(comms, a))
    {
      var c :| c in comms && c.at.indexOfAccount == a;
      InAccountIs(comms, a);
      assert c in InAccount(comms, a);
      SubgroupConditions(flat, comms, a);
      GroupIsLinear(tree, flat, InAccount(comms, a), a);
    }
  }

  /**
   Searching group by group and chunk by chunk is one linear search over the whole tree: every commitment is
   found at its first place at or after its own start, and the search fails exactly when one is not there.
   */
  lemma GroupedSearchIsLinear(tree: Tree, flat: seq<Hash>, comms: seq<Sought>)
    requires WellSized(tree) && Covers(tree, flat) && SpareEmpty(flat)
    requires NoDup(comms) && InTree(comms) && NoEarlier(flat, comms) && NoHoles(flat, comms) && ScansRight(comms)
    ensures GroupFound(MergeMaps(GroupSearch(tree, comms), Accounts(comms), map[]), flat, comms)
  {
    GroupsAreFound(tree, flat, comms);
    GroupsGiveAll(GroupSearch(tree, comms), flat, comms);
  }

  // ---------------------------------------------------------------- in terms of nodes and leaves

  /** The entry of query number `i`. */
  function Entry(qs: seq<Query>, i: nat): Sought
    requires i < |qs| && LocalToAcc(qs[i].start).Ok?
  {
    Sought(i, qs[i].hash, LocalToAcc(qs[i].start).value)
  }

  lemma NodeHasPlace(n: LocalIndex)
    ensures LocalToAcc(n).Ok? <==> IsNode(n)
    ensures IsNode(n) ==>
              var at := LocalToAcc(n).value;
              && at.indexOfAccount < STORAGE_MT_CHUNK_COUNT && at.indexInAccount < STORAGE_MT_VALUES_PER_ACCOUNT
              && LocalToGlobal(n) == Ok(Base(at.indexOfAccount) + at.indexInAccount)
  {
    LocalGlobalBijection(n);
    if IsNode(n) {
      GlobalAccBijection(LocalToGlobal(n).value);
      BaseIs(LocalToAcc(n).value.indexOfAccount);
    }
  }

  lemma {:induction false} ToSoughtIs(qs: seq<Query>)
    ensures ToSought(qs).Ok? <==> forall i :: 0 <= i < |qs| ==> IsNode(qs[i].start)
    ensures ToSought(qs).Ok? ==> forall i :: 0 <= i < |qs| ==>
            IsNode(qs[i].start) && LocalToAcc(qs[i].start).Ok? && ToSought(qs).value[i] == Entry(qs, i)
  {
    if qs != [] {
      var n := |qs| - 1;
      ToSoughtIs(qs[..n]);
      NodeHasPlace(qs[n].start);
      if ToSought(qs[..n]).Ok? {
        forall i | 0 <= i < n
          ensures IsNode(qs[i].start) && LocalToAcc(qs[i].start).Ok? && ToSought(qs[..n]).value[i] == Entry(qs, i)
        {
          assert qs[..n][i] == qs[i];
          assert ToSought(qs[..n]).value[i] == Entry(qs[..n], i);
        }
      } else {
        var i :| 0 <= i < n && !IsNode(qs[..n][i].start);
        assert qs[i] == qs[..n][i];
      }
    }
  }

  lemma SoughtConditions(qs: seq<Query>)
    requires ToSought(qs).Ok?
    ensures NoDup(ToSought(qs).value) && InTree(ToSought(qs).value)
  {
    ToSoughtIs(qs);
    var comms := ToSought(qs).value;
    forall c | c in comms
      ensures c.at.indexOfAccount < STORAGE_MT_CHUNK_COUNT && c.at.indexInAccount < STORAGE_MT_VALUES_PER_ACCOUNT
    {
      var i :| 0 <= i < |comms| && comms[i] == c;
      NodeHasPlace(qs[i].start);
    }
  }

  /** Where a linear search over the nodes from the start of the query finds its hash. */
  function QueryPlace(flat: seq<Hash>, q: Query): Option<nat> {
    match LocalToGlobal(q.start) case Err(_) => None case Ok(from) => Seek(flat, q.hash, from)
  }

  lemma EntryPlace(flat: seq<Hash>, qs: seq<Query>, i: nat)
    requires i < |qs| && IsNode(qs[i].start)
    ensures LocalToAcc(qs[i].start).Ok? && FirstPlace(flat, Entry(qs, i)) == QueryPlace(flat, qs[i])
  {
    NodeHasPlace(qs[i].start);
  }

  /** `m` holds the first place of every commitment that has one. */
  ghost predicate Holds(m: Indices, flat: seq<Hash>, comms: seq<Sought>) {
    forall c :: c in comms ==> FirstPlace(flat, c) == if c in m then Some(m[c]) else None
  }

  ghost predicate NodesOf(flat: seq<Hash>, comms: seq<Sought>, locals: seq<LocalIndex>) {
    && |locals| == |comms|
    && forall i :: 0 <= i < |comms| ==>
        LocalToGlobal(locals[i]).Ok? && FirstPlace(flat, comms[i]) == Some(LocalToGlobal(locals[i]).value)
  }

  lemma FoundIsNode(flat: seq<Hash>, c: Sought)
    requires SpareEmpty(flat) && FirstPlace(flat, c).Some?
    ensures var local := GlobalToLocal(FirstPlace(flat, c).value);
            local.Ok? && LocalToGlobal(local.value) == Ok(FirstPlace(flat, c).value)
  {
    assert flat[FirstPlace(flat, c).value] != 0;
    GlobalLocalBijection(FirstPlace(flat, c).value);
  }

  lemma {:induction false} ToLocalsAre(flat: seq<Hash>, comms: seq<Sought>, m: Indices)
    requires SpareEmpty(flat) && Holds(m, flat, comms)
    ensures ToLocals(m, comms).Ok? <==> AllThere(flat, comms)
    ensures ToLocals(m, comms).Ok? ==> NodesOf(flat, comms, ToLocals(m, comms).value)
  {
    hide FirstPlace, LocalToGlobal, GlobalToLocal, SpareEmpty;
    if comms != [] {
      var c, rest := comms[0], comms[1..];
      assert c in comms && forall d :: d in comms <==> d == c || d in rest;
      ToLocalsAre(flat, rest, m);
      if c in m {
        FoundIsNode(flat, c);
        if ToLocals(m, rest).Ok? {
          var local, locals := GlobalToLocal(m[c]).value, ToLocals(m, rest).value;
          NodesCons(flat, c, rest, local, locals);
          assert comms == [c] + rest;
        }
      }
    }
  }

  lemma NodesCons(flat: seq<Hash>, c: Sought, rest: seq<Sought>, local: LocalIndex, locals: seq<LocalIndex>)
    requires NodesOf(flat, rest, locals) && LocalToGlobal(local).Ok?
    requires FirstPlace(flat, c) == Some(LocalToGlobal(local).value)
    ensures NodesOf(flat, [c] + rest, [local] + locals)
  {
  }

  /**
   Looking up several commitments gives, for each, the node of its first place at or after its own start; it
   fails exactly when one of them is not there.
   */
  lemma {:induction false} LookupIsLinear(tree: Tree, flat: seq<Hash>, qs: seq<Query>)
    requires WellSized(tree) && Covers(tree, flat) && SpareEmpty(flat)
    requires forall i :: 0 <= i < |qs| ==> IsNode(qs[i].start)
    requires ToSought(qs).Ok? ==>
               var comms := ToSought(qs).value; NoEarlier(flat, comms) && NoHoles(flat, comms) && ScansRight(comms)
    ensures var r := GetCommitmentIndices(tree, qs);
            && (r.Ok? <==> forall i :: 0 <= i < |qs| ==> QueryPlace(flat, qs[i]).Some?)
            && (r.Ok? ==> forall i :: 0 <= i < |qs| ==>
                LocalToGlobal(r.value[i]).Ok? && QueryPlace(flat, qs[i]) == Some(LocalToGlobal(r.value[i]).value))
  {
    hide WellSized, Covers, SpareEmpty, NoEarlier, NoHoles, ScansRight, IsNode, QueryPlace, LocalToGlobal, NoDup,
      InTree;
    StartsAreNodes(qs);
    var comms := ToSought(qs).value;
    SoughtConditions(qs);
    GroupedSearchIsLinear(tree, flat, comms);
    SoughtPlaces(flat, qs);
    if FindFromStart(tree, qs).Ok? {
      PlacesHeld(flat, comms);
      ToLocalsAre(flat, comms, FirstPlaces(flat, comms));
    }
  }

  lemma StartsAreNodes(qs: seq<Query>)
    ensures ToSought(qs).Ok? <==> forall i :: 0 <= i < |qs| ==> IsNode(qs[i].start)
  {
    ToSoughtIs(qs);
  }

  lemma PlacesHeld(flat: seq<Hash>, comms: seq<Sought>)
    ensures Holds(FirstPlaces(flat, comms), flat, comms)
  {
  }

  lemma SoughtPlaces(flat: seq<Hash>, qs: seq<Query>)
    requires ToSought(qs).Ok?
    ensures forall i :: 0 <= i < |qs| ==> FirstPlace(flat, ToSought(qs).value[i]) == QueryPlace(flat, qs[i])
    ensures AllThere(flat, ToSought(qs).value) <==> forall i :: 0 <= i < |qs| ==> QueryPlace(flat, qs[i]).Some?
  {
    ToSoughtIs(qs);
    var comms := ToSought(qs).value;
    forall i | 0 <= i < |qs| ensures FirstPlace(flat, comms[i]) == QueryPlace(flat, qs[i]) {
      EntryPlace(flat, qs, i);
    }
    assert forall i :: 0 <= i < |comms| ==> comms[i] in comms;
  }

  // ---------------------------------------------------------------- one commitment

  /** A single commitment meets what a lookup of several needs, but for the holes, whatever the tree holds. */
  lemma AloneIsSearchable(flat: seq<Hash>, c: Sought)
    ensures NoDup([c]) && NoEarlier(flat, [c]) && ScansRight([c])
    ensures NoHoles(flat, [c]) <==> Populated(flat, Global(c))
  {
    assert c in [c];
    forall a: nat ensures NoSkips(Starts(InAccount([c], a), a)) {
      assert [c][..0] == [] && InAccount([], a) == [];
      assert |InAccount([c], a)| <= 1;
      AscendingIsSafe(Starts(InAccount([c], a), a));
    }
  }

  lemma SingleLinear(tree: Tree, c: Sought)
    ensures LinearHere(tree, [c], c.at.indexOfAccount, c.at.indexInAccount, map[])
  {
    var a, low := c.at.indexOfAccount, c.at.indexInAccount;
    AllLeft([c]);
    if a < |tree| && tree[a].Some? {
      EqualStartsScanLinearly(tree[a].value, Hashes([c]), Starts([c], a), low);
    }
  }

  lemma SingleConditions(flat: seq<Hash>, c: Sought)
    ensures [c] != [] && NoDup([c]) && OneAccount([c], c.at.indexOfAccount)
    ensures ServesAll(flat, [c], Base(c.at.indexOfAccount) + c.at.indexInAccount)
  {
  }

  lemma SingleGroup(tree: Tree, flat: seq<Hash>, c: Sought)
    requires WellSized(tree) && Covers(tree, flat) && SpareEmpty(flat)
    requires c.at.indexOfAccount < STORAGE_MT_CHUNK_COUNT && c.at.indexInAccount < STORAGE_MT_VALUES_PER_ACCOUNT
    ensures GroupFound(Across(tree, [c]), flat, [c])
  {
    hide *;
    var a, low := c.at.indexOfAccount, c.at.indexInAccount;
    SingleLinear(tree, c);
    SingleConditions(flat, c);
    LastPlace(tree, flat, a, low);
    GroupResult(tree, flat, [c], a, low, Base(a) + low);
  }

  lemma SingleLists(c: Sought)
    ensures Accounts([c]) == [c.at.indexOfAccount] && InAccount([c], c.at.indexOfAccount) == [c]
  {
    assert Accounts([]) == [] && InAccount([], c.at.indexOfAccount) == [] && [c][..0] == [];
  }

  lemma SingleLookup(tree: Tree, flat: seq<Hash>, c: Sought)
    requires WellSized(tree) && Covers(tree, flat) && SpareEmpty(flat)
    requires c.at.indexOfAccount < STORAGE_MT_CHUNK_COUNT && c.at.indexInAccount < STORAGE_MT_VALUES_PER_ACCOUNT
    ensures GroupFound(MergeMaps(GroupSearch(tree, [c]), Accounts([c]), map[]), flat, [c])
  {
    hide Across, WellSized, Covers, SpareEmpty, GroupFound;
    SingleGroup(tree, flat, c);
    SingleLists(c);
    GroupsGiveAll(GroupSearch(tree, [c]), flat, [c]);
  }

  /**
   `hasCommitment` throws for a start that is no leaf; otherwise it tells whether the hash is at a place from the
   start leaf on with no empty place before it. Nothing is assumed about the tree but its size.
   */
  lemma HasCommitmentExactly(tree: Tree, flat: seq<Hash>, hash: Hash, leafStart: nat)
    requires WellSized(tree) && Covers(tree, flat) && SpareEmpty(flat)
    ensures HasCommitment(tree, hash, leafStart)
            == if leafStart < NodeCountLevel(MERKLE_TREE_HEIGHT)
                then Ok(Seek(flat, hash, 1_048_575 + leafStart).Some?) else Err(OutOfBounds)
  {
    if leafStart < NodeCountLevel(MERKLE_TREE_HEIGHT) {
      LeafPosition(leafStart);
      var qs := [Query(hash, LocalIndex(MERKLE_TREE_HEIGHT, leafStart))];
      LocalGlobalBijection(qs[0].start);
      ToSoughtIs(qs);
      SoughtConditions(qs);
      var comms := ToSought(qs).value;
      assert comms == [comms[0]];
      assert comms[0] in comms;
      SingleLookup(tree, flat, comms[0]);
      SoughtPlaces(flat, qs);
      if FindFromStart(tree, qs).Ok? {
        ToLocalsAre(flat, comms, FirstPlaces(flat, comms));
      }
    }
  }

  lemma {:induction false} SeekExactly(s: seq<Hash>, c: Hash, from: nat)
    ensures Seek(s, c, from).Some? <==> exists i :: from <= i < |s| && s[i] == c != 0 && forall j :: from <= j < i ==>
            s[j] != 0
    decreases |s| - from
  {
    if from < |s| && s[from] != 0 {
      SeekExactly(s, c, from + 1);
      if Seek(s, c, from + 1).Some? {
        var i :| from + 1 <= i < |s| && s[i] == c != 0 && forall j :: from + 1 <= j < i ==> s[j] != 0;
        assert forall j :: from <= j < i ==> s[j] != 0;
      }
    }
  }

  /** The value of a leaf. */
  function Leaf(flat: seq<Hash>, i: nat): Hash
    requires 1_048_575 + i < |flat|
  {
    flat[1_048_575 + i]
  }

  /**
   On a tree filled without holes, `hasCommitment` is true exactly for the nonzero hashes of the leaves from the start
   on.
   */
  lemma HasCommitmentOnFilledTree(tree: Tree, flat: seq<Hash>, hash: Hash, leafStart: nat)
    requires WellSized(tree) && Covers(tree, flat) && SpareEmpty(flat)
    requires leafStart < NodeCountLevel(MERKLE_TREE_HEIGHT) && Populated(flat, 1_048_575 + leafStart)
    ensures |flat| > 2_097_151
    ensures HasCommitment(tree, hash, leafStart)
            == Ok(hash != 0 && exists i :: leafStart <= i < 1_048_576 && Leaf(flat, i) == hash)
  {
    hide HasCommitment, Seek, WellSized, Covers, Populated, SpareEmpty;
    FlatSize(tree, flat);
    HasCommitmentExactly(tree, flat, hash, leafStart);
    SeekAmongLeaves(flat, hash, leafStart);
  }

  lemma FlatSize(tree: Tree, flat: seq<Hash>)
    requires WellSized(tree) && Covers(tree, flat)
    ensures |flat| == 2_097_175 && NodeCountLevel(MERKLE_TREE_HEIGHT) == 1_048_576
  {
    TreeSize();
    BaseIs(STORAGE_MT_CHUNK_COUNT);
  }

  lemma SeekAmongLeaves(flat: seq<Hash>, hash: Hash, leafStart: nat)
    requires |flat| == 2_097_175 && SpareEmpty(flat)
    requires leafStart < 1_048_576 && Populated(flat, 1_048_575 + leafStart)
    ensures Seek(flat, hash, 1_048_575 + leafStart).Some?
            <==> hash != 0 && exists i :: leafStart <= i < 1_048_576 && Leaf(flat, i) == hash
  {
    hide Seek;
    TreeSize();
    var from := 1_048_575 + leafStart;
    SeekExactly(flat, hash, from);
    if hash != 0 && exists i :: leafStart <= i < 1_048_576 && Leaf(flat, i) == hash {
      var i :| leafStart <= i < 1_048_576 && Leaf(flat, i) == hash;
      assert forall j :: from <= j < 1_048_575 + i ==> flat[j] != 0;
      assert flat[1_048_575 + i] == hash;
    }
    if Seek(flat, hash, from).Some? {
      var g := Seek(flat, hash, from).value;
      assert flat[g] == hash != 0 && g < 2_097_151;
      assert Leaf(flat, g - 1_048_575) == hash;
    }
  }
}
