/**
 Merkle openings, `getOpenings` and `getCommitmentsInfo` of src/sdk/paramManagers/TreeManager.ts and
 `getCommitmentsAtLocalIndices` of src/sdk/accountReaders/StorageAccountReader.ts: the siblings on the way
 from each leaf to the root are collected into one set of nodes, read in one go and handed back by string keys.
 */
module Openings {
  import opened Common
  import opened Decimal
  import opened IndexConverter
  import opened ChunkScan
  import opened StorageSearch
  import opened GeneralSet
  import opened TreeSearch
  import opened AnyStarts

  /** The hash of two nodes, the conversion out of the stored form, and the value of an unset node of each level. */
  datatype Poseidon = Poseidon(hash: (nat, nat) -> nat, repr: Hash -> nat, defaults: nat -> nat)

  /** `parseTreeBytesToBigInt` */
  function Parse(p: Poseidon, stored: Hash, level: nat): nat {
    if stored == 0 then p.defaults(level) else p.repr(stored)
  }

  /** The key of the set of nodes to read. */
  function SetKey(n: LocalIndex): string { Key(n.index, '_', n.level) }

  /** `localIndexToString`, the key of the values read. */
  function ReadKey(n: LocalIndex): string { Key(n.index, ',', n.level) }

  lemma KeysTellNodesApart(m: LocalIndex, n: LocalIndex)
    ensures SetKey(m) == SetKey(n) ==> m == n
    ensures ReadKey(m) == ReadKey(n) ==> m == n
  {
    if SetKey(m) == SetKey(n) { KeyInjective(m.index, m.level, n.index, n.level, '_'); }
    if ReadKey(m) == ReadKey(n) { KeyInjective(m.index, m.level, n.index, n.level, ','); }
  }

  /** `getOpeningIndicesInner`: the siblings on the way to the root. */
  function OpeningIndices(index: nat, layer: nat): seq<LocalIndex>
    decreases layer
  {
    if layer == 0 then []
    else [LocalIndex(layer, if index % 2 == 0 then index + 1 else index - 1)] + OpeningIndices(index / 2, layer - 1)
  }

  /** The siblings of a node of the tree are nodes of the tree, one on each level down to level 1. */
  lemma {:induction false} OpeningNodes(index: nat, layer: nat)
    requires IsNode(LocalIndex(layer, index))
    ensures |OpeningIndices(index, layer)| == layer
    ensures forall k :: 0 <= k < layer ==>
            IsNode(OpeningIndices(index, layer)[k]) && OpeningIndices(index, layer)[k].level == layer - k
    decreases layer
  {
    if layer > 0 { OpeningNodes(index / 2, layer - 1); }
  }

  // ---------------------------------------------------------------- hashing up an opening

  /** Hashing a node up its opening. */
  function Reconstruct(hash: (nat, nat) -> nat, index: nat, value: nat, opening: seq<nat>): nat
    decreases |opening|
  {
    if opening == [] then value
    else
      var parent := if index % 2 == 0 then hash(value, opening[0]) else hash(opening[0], value);
      Reconstruct(hash, index / 2, parent, opening[1..])
  }

  /** Every inner node is the hash of its children. */
  ghost predicate Hashed(hash: (nat, nat) -> nat, height: nat, value: LocalIndex -> nat) {
    forall l: nat, i: nat | l < height && i < Pow2(l) ::
      value(LocalIndex(l, i)) == hash(value(LocalIndex(l + 1, 2 * i)), value(LocalIndex(l + 1, 2 * i + 1)))
  }

  function ValuesAt(value: LocalIndex -> nat, nodes: seq<LocalIndex>): seq<nat> {
    seq(|nodes|, k requires 0 <= k < |nodes| => value(nodes[k]))
  }

  /** In a tree of any height, hashing a node up its opening gives the root. */
  lemma {:induction false} OpeningLeadsToRoot(hash: (nat, nat) -> nat, height: nat, value: LocalIndex -> nat,
        level: nat, index: nat)
    requires Hashed(hash, height, value) && level <= height && index < Pow2(level)
    ensures Reconstruct(hash, index, value(LocalIndex(level, index)), ValuesAt(value, OpeningIndices(index, level)))
            == value(LocalIndex(0, 0))
    decreases level
  {
    if level > 0 {
      var sibling := LocalIndex(level, if index % 2 == 0 then index + 1 else index - 1);
      var rest := OpeningIndices(index / 2, level - 1);
      assert OpeningIndices(index, level) == [sibling] + rest;
      assert ValuesAt(value, [sibling] + rest)[1..] == ValuesAt(value, rest);
      assert value(LocalIndex(level - 1, index / 2)) == hash(value(LocalIndex(level, 2 * (index / 2))),
          value(LocalIndex(level, 2 * (index / 2) + 1)));
      OpeningLeadsToRoot(hash, height, value, level - 1, index / 2);
    }
  }

  /**
   The tree as the program keeps it: a node is set once a leaf below it is, and the default of a level is the
   hash of two defaults of the next.
   */
  ghost predicate KeptUp(p: Poseidon, height: nat, stored: LocalIndex -> Hash) {
    && (forall l :: 0 <= l < height ==> p.defaults(l) == p.hash(p.defaults(l + 1), p.defaults(l + 1)))
    && (forall l: nat, i: nat | l < height && i < Pow2(l) ::
          var left, right := LocalIndex(l + 1, 2 * i), LocalIndex(l + 1, 2 * i + 1);
          if stored(LocalIndex(l, i)) == 0 then stored(left) == 0 && stored(right) == 0
          else
            var children := p.hash(Parse(p, stored(left), l + 1), Parse(p, stored(right), l + 1));
            p.repr(stored(LocalIndex(l, i))) == children)
  }

  /** Replacing unset nodes by the default of their level makes every node the hash of its children. */
  lemma DefaultsFit(p: Poseidon, height: nat, stored: LocalIndex -> Hash)
    requires KeptUp(p, height, stored)
    ensures Hashed(p.hash, height, (n: LocalIndex) => Parse(p, stored(n), n.level))
  {
    var value := (n: LocalIndex) => Parse(p, stored(n), n.level);
    forall l: nat, i: nat | l < height && i < Pow2(l)
      ensures value(LocalIndex(l, i)) == p.hash(value(LocalIndex(l + 1, 2 * i)), value(LocalIndex(l + 1, 2 * i + 1)))
    {
      assert value(LocalIndex(l + 1, 2 * i)) == Parse(p, stored(LocalIndex(l + 1, 2 * i)), l + 1);
      assert value(LocalIndex(l + 1, 2 * i + 1)) == Parse(p, stored(LocalIndex(l + 1, 2 * i + 1)), l + 1);
      if stored(LocalIndex(l, i)) == 0 {
        assert stored(LocalIndex(l + 1, 2 * i)) == 0 && stored(LocalIndex(l + 1, 2 * i + 1)) == 0;
      }
    }
  }

  // ---------------------------------------------------------------- reading nodes

  /** The value of one node, read on its own. */
  function ReadNode(tree: Tree, n: LocalIndex): Result<Hash>
    requires WellSized(tree)
  {
    match LocalToAcc(n)
    case Err(e) => Err(e)
    case Ok(at) =>
      match GetChunk(tree, at.indexOfAccount)
      case Err(e) => Err(e)
      case Ok(chunk) => Ok(chunk[at.indexInAccount])
  }

  datatype Fetched = Fetched(commitments: map<string, Hash>, root: Hash)

  ghost predicate AllNodes(nodes: seq<LocalIndex>) { forall n :: n in nodes ==> IsNode(n) }

  ghost predicate AllReadable(tree: Tree, nodes: seq<LocalIndex>)
    requires WellSized(tree)
  {
    tree[0].Some? && forall n :: n in nodes ==> ReadNode(tree, n).Ok?
  }

  /** The values read for the nodes, by key, and nothing else. */
  ghost predicate ReadRight(tree: Tree, nodes: seq<LocalIndex>, read: map<string, Hash>)
    requires WellSized(tree)
  {
    && (forall n :: n in nodes ==> ReadKey(n) in read && ReadNode(tree, n) == Ok(read[ReadKey(n)]))
    && (forall k :: k in read ==> exists n :: n in nodes && ReadKey(n) == k)
  }

  /** The chunk accounts of the nodes, each once. */
  method UniqueAccounts(nodes: seq<LocalIndex>) returns (accs: Result<seq<nat>>)
    ensures accs.Ok? <==> AllNodes(nodes)
    ensures accs.Err? ==> accs.error == OutOfBounds
    ensures accs.Ok? ==> forall n :: n in nodes ==>
            LocalToAcc(n).Ok? && LocalToAcc(n).value.indexOfAccount in accs.value
    ensures accs.Ok? ==> forall a :: a in accs.value ==>
            exists n :: n in nodes && LocalToAcc(n).Ok? && LocalToAcc(n).value.indexOfAccount == a
  {
    var found: seq<nat> := [];
    for i := 0 to |nodes|
      invariant forall j :: 0 <= j < i ==>
              IsNode(nodes[j]) && LocalToAcc(nodes[j]).Ok? && LocalToAcc(nodes[j]).value.indexOfAccount in found
      invariant forall a :: a in found ==>
              exists j :: 0 <= j < i && LocalToAcc(nodes[j]).Ok? && LocalToAcc(nodes[j]).value.indexOfAccount == a
    {
      var at := LocalToAcc(nodes[i]);
      NodeHasPlace(nodes[i]);
      if at.Err? {
        assert nodes[i] in nodes;
        return Err(OutOfBounds);
      }
      if at.value.indexOfAccount !in found { found := found + [at.value.indexOfAccount]; }
    }
    return Ok(found);
  }

  /** `getCommitmentsAtLocalIndices` */
  method GetCommitmentsAtLocalIndices(tree: Tree, localIndices: seq<LocalIndex>) returns (r: Result<Fetched>)
    requires WellSized(tree)
    ensures r.Ok? <==> AllNodes(localIndices) && AllReadable(tree, localIndices)
    ensures r.Err? ==> r.error == if AllNodes(localIndices) then InvalidRead else OutOfBounds
    ensures r.Ok? ==> r.value.root == tree[0].value[0] && ReadRight(tree, localIndices, r.value.commitments)
  {
    var accs := UniqueAccounts(localIndices);
    if accs.Err? {
      return Err(accs.error);
    }
    var uniqueAccs: map<nat, Result<seq<Hash>>> := map[];
    for i := 0 to |accs.value|
      invariant forall j :: 0 <= j < i ==> accs.value[j] in uniqueAccs
      invariant forall a :: a in uniqueAccs ==> uniqueAccs[a] == GetChunk(tree, a)
    {
      uniqueAccs := uniqueAccs[accs.value[i] := GetChunk(tree, accs.value[i])];
    }
    var rootChunk := GetChunk(tree, 0);
    var res: map<string, Hash> := map[];
    for i := 0 to |localIndices|
      invariant ReadRight(tree, localIndices[..i], res)
    {
      var n := localIndices[i];
      assert n in localIndices;
      var at := LocalToAcc(n).value;
      var chunk := uniqueAccs[at.indexOfAccount];
      if chunk.Err? {
        assert ReadNode(tree, n).Err?;
        return Err(chunk.error);
      }
      AddRead(tree, localIndices[..i], res, n);
      assert localIndices[..i + 1] == localIndices[..i] + [n];
      res := res[ReadKey(n) := chunk.value[at.indexInAccount]];
    }
    assert localIndices[..|localIndices|] == localIndices;
    if rootChunk.Err? {
      return Err(rootChunk.error);
    }
    return Ok(Fetched(res, rootChunk.value[0]));
  }

  /** A value stored under the key of its node overwrites no value of another node. */
  lemma AddRead(tree: Tree, nodes: seq<LocalIndex>, read: map<string, Hash>, n: LocalIndex)
    requires WellSized(tree) && ReadRight(tree, nodes, read) && ReadNode(tree, n).Ok?
    ensures ReadRight(tree, nodes + [n], read[ReadKey(n) := ReadNode(tree, n).value])
  {
    hide ReadNode, ReadKey, SetKey;
    forall m | m in nodes + [n]
      ensures ReadNode(tree, m) == Ok(read[ReadKey(n) := ReadNode(tree, n).value][ReadKey(m)])
    {
      KeysTellNodesApart(m, n);
    }
    assert n in nodes + [n];
  }

  // ---------------------------------------------------------------- openings

  datatype Opened = Opened(openings: seq<seq<nat>>, root: nat)

  function Opening(leaf: LocalIndex): seq<LocalIndex> { OpeningIndices(leaf.index, leaf.level) }

  /** The nodes of all openings, one opening after the other. */
  function AllOpenings(leaves: seq<LocalIndex>): seq<LocalIndex> {
    if leaves == [] then [] else AllOpenings(leaves[..|leaves| - 1]) + Opening(leaves[|leaves| - 1])
  }

  lemma {:induction false} AllOpeningsHas(leaves: seq<LocalIndex>)
    ensures forall n :: n in AllOpenings(leaves) <==> exists leaf :: leaf in leaves && n in Opening(leaf)
  {
    if leaves != [] {
      var init, last := leaves[..|leaves| - 1], leaves[|leaves| - 1];
      AllOpeningsHas(init);
      assert leaves == init + [last];
    }
  }

  /** Every node of the opening, read on its own. */
  ghost predicate OpenedRight(p: Poseidon, tree: Tree, leaf: LocalIndex, opening: seq<nat>)
    requires WellSized(tree)
  {
    && |opening| == |Opening(leaf)|
    && forall k :: 0 <= k < |opening| ==>
         var n := Opening(leaf)[k];
         ReadNode(tree, n).Ok? && opening[k] == Parse(p, ReadNode(tree, n).value, n.level)
  }

  /** The nodes of all openings, each once. */
  method UniqueNodes(allIndices: seq<LocalIndex>) returns (uniqueIndices: seq<LocalIndex>)
    ensures forall n :: n in uniqueIndices <==> n in allIndices
    ensures forall i, j :: 0 <= i < j < |uniqueIndices| ==> uniqueIndices[i] != uniqueIndices[j]
  {
    var indicesSet := new GeneralSet<LocalIndex>(SetKey);
    indicesSet.AddArr(allIndices);
    uniqueIndices := indicesSet.ToArray();
    forall m, n | m in allIndices && n in allIndices && SetKey(m) == SetKey(n) ensures m == n {
      KeysTellNodesApart(m, n);
    }
    SetOfAll(SetKey, allIndices);
  }

  /** One opening from the values read; a value that was not read is an error. */
  method LookUp(p: Poseidon, nodes: seq<LocalIndex>, read: map<string, Hash>) returns (r: Result<seq<nat>>)
    ensures r.Ok? <==> forall n :: n in nodes ==> ReadKey(n) in read
    ensures r.Ok? ==> |r.value| == |nodes| && forall k :: 0 <= k < |nodes| ==>
            ReadKey(nodes[k]) in read && r.value[k] == Parse(p, read[ReadKey(nodes[k])], nodes[k].level)
  {
    var opening: seq<nat> := [];
    for i := 0 to |nodes|
      invariant |opening| == i
      invariant forall k :: 0 <= k < i ==>
              ReadKey(nodes[k]) in read && opening[k] == Parse(p, read[ReadKey(nodes[k])], nodes[k].level)
    {
      if ReadKey(nodes[i]) !in read {
        assert nodes[i] in nodes;
        return Err(NotFound);
      }
      opening := opening + [Parse(p, read[ReadKey(nodes[i])], nodes[i].level)];
    }
    return Ok(opening);
  }

  /** What was read for the nodes of all openings serves each opening. */
  lemma OpeningRead(p: Poseidon, tree: Tree, leaves: seq<LocalIndex>, leaf: LocalIndex, read: map<string, Hash>)
    requires WellSized(tree) && leaf in leaves && ReadRight(tree, AllOpenings(leaves), read)
    ensures forall k :: 0 <= k < |Opening(leaf)| ==>
              var n := Opening(leaf)[k];
              n in Opening(leaf) && ReadKey(n) in read && ReadNode(tree, n) == Ok(read[ReadKey(n)])
    ensures forall n :: n in Opening(leaf) ==> ReadKey(n) in read
  {
    hide ReadNode, ReadKey, OpeningIndices;
    AllOpeningsHas(leaves);
  }

  /** One read of all nodes, each once: as good as a read of the whole list. */
  method ReadOnce(tree: Tree, allIndices: seq<LocalIndex>) returns (r: Result<Fetched>)
    requires WellSized(tree)
    ensures r.Ok? <==> AllNodes(allIndices) && AllReadable(tree, allIndices)
    ensures r.Err? ==> r.error == if AllNodes(allIndices) then InvalidRead else OutOfBounds
    ensures r.Ok? ==> r.value.root == tree[0].value[0] && ReadRight(tree, allIndices, r.value.commitments)
  {
    hide ReadNode, ReadKey;
    var uniqueIndices := UniqueNodes(allIndices);
    r := GetCommitmentsAtLocalIndices(tree, uniqueIndices);
  }

  method OpenAll(p: Poseidon, tree: Tree, leafIndices: seq<LocalIndex>, read: map<string,
        Hash>) returns (openings: seq<seq<nat>>)
    requires WellSized(tree) && ReadRight(tree, AllOpenings(leafIndices), read)
    ensures |openings| == |leafIndices| && forall c :: 0 <= c < |leafIndices| ==>
            OpenedRight(p, tree, leafIndices[c], openings[c])
  {
    hide ReadNode, ReadKey, OpeningIndices, WellSized, ReadRight, Parse;
    openings := [];
    for i := 0 to |leafIndices|
      invariant |openings| == i
      invariant forall c :: 0 <= c < i ==> OpenedRight(p, tree, leafIndices[c], openings[c])
    {
      OpeningRead(p, tree, leafIndices, leafIndices[i], read);
      var opening := LookUp(p, Opening(leafIndices[i]), read);
      openings := openings + [opening.value];
    }
  }

  /**
   `getOpenings`: the openings and the root. The batch gives exactly the values that reading every node on its
   own gives; it fails only because a node is not in the tree or its account is not active.
   */
  method GetOpenings(p: Poseidon, tree: Tree, leafIndices: seq<LocalIndex>) returns (r: Result<Opened>)
    requires WellSized(tree)
    ensures r.Ok? <==> AllNodes(AllOpenings(leafIndices)) && AllReadable(tree, AllOpenings(leafIndices))
    ensures r.Err? ==> r.error == if AllNodes(AllOpenings(leafIndices)) then InvalidRead else OutOfBounds
    ensures r.Ok? ==> tree[0].Some? && r.value.root == Parse(p, tree[0].value[0], 0)
    ensures r.Ok? ==> |r.value.openings| == |leafIndices|
    ensures r.Ok? ==> forall c :: 0 <= c < |leafIndices| ==> OpenedRight(p, tree, leafIndices[c], r.value.openings[c])
  {
    hide ReadNode, ReadKey, OpeningIndices, ReadRight;
    var allIndices := [];
    for i := 0 to |leafIndices|
      invariant allIndices == AllOpenings(leafIndices[..i])
    {
      assert leafIndices[..i + 1][..i] == leafIndices[..i];
      allIndices := allIndices + Opening(leafIndices[i]);
    }
    assert leafIndices[..|leafIndices|] == leafIndices;
    var res := ReadOnce(tree, allIndices);
    if res.Err? {
      return Err(res.error);
    }
    var openings := OpenAll(p, tree, leafIndices, res.value.commitments);
    return Ok(Opened(openings, Parse(p, res.value.root, 0)));
  }

  // ---------------------------------------------------------------- from a commitment to the root

  /** The stored values of the nodes; the nodes of an account that is not active are unset. */
  ghost function Stored(tree: Tree): LocalIndex -> Hash
    requires WellSized(tree)
  {
    (n: LocalIndex) => if WellSized(tree) && ReadNode(tree, n).Ok? then ReadNode(tree, n).value else 0
  }

  lemma RootNode(tree: Tree)
    requires WellSized(tree) && tree[0].Some?
    ensures ReadNode(tree, LocalIndex(0, 0)) == Ok(tree[0].value[0])
  {
    assert LocalToGlobal(LocalIndex(0, 0)) == Ok(0);
    GlobalAccBijection(0);
  }

  /** What `getOpenings` gives for a node hashes up to the root it gives. */
  lemma OpenedLeadsToRoot(p: Poseidon, tree: Tree, leaf: LocalIndex, opening: seq<nat>)
    requires WellSized(tree) && tree[0].Some? && KeptUp(p, MERKLE_TREE_HEIGHT, Stored(tree))
    requires IsNode(leaf) && OpenedRight(p, tree, leaf, opening)
    ensures Reconstruct(p.hash, leaf.index, Parse(p, Stored(tree)(leaf), leaf.level), opening)
            == Parse(p, tree[0].value[0], 0)
  {
    var stored := Stored(tree);
    var value := (n: LocalIndex) => Parse(p, stored(n), n.level);
    DefaultsFit(p, MERKLE_TREE_HEIGHT, stored);
    OpeningLeadsToRoot(p.hash, MERKLE_TREE_HEIGHT, value, leaf.level, leaf.index);
    assert opening == ValuesAt(value, Opening(leaf));
    RootNode(tree);
  }

  lemma StoredIsFlat(tree: Tree, flat: seq<Hash>, n: LocalIndex)
    requires WellSized(tree) && Covers(tree, flat) && IsNode(n)
    ensures LocalToGlobal(n).Ok? && LocalToGlobal(n).value < |flat| && Stored(tree)(n) == flat[LocalToGlobal(n).value]
  {
    NodeHasPlace(n);
    var at := LocalToAcc(n).value;
    assert Piece(flat, Base(at.indexOfAccount), Values(tree[at.indexOfAccount]));
    assert flat[Base(at.indexOfAccount) + at.indexInAccount] == Values(tree[at.indexOfAccount])[at.indexInAccount];
  }

  /** A node found from a leaf on is a leaf. */
  lemma BehindALeaf(leafStart: nat, n: LocalIndex)
    requires leafStart < NodeCountLevel(MERKLE_TREE_HEIGHT) && LocalToGlobal(n).Ok?
    requires LocalToGlobal(n).value >= LocalToGlobal(LocalIndex(MERKLE_TREE_HEIGHT, leafStart)).value
    ensures n.level == MERKLE_TREE_HEIGHT && n.index >= leafStart
  {
    LeafPosition(leafStart);
    if n.level < MERKLE_TREE_HEIGHT {
      Pow2Monotone(n.level + 1, MERKLE_TREE_HEIGHT);
      TreeSize();
    }
  }

  datatype Wanted = Wanted(hash: Hash, leafStart: nat)

  datatype CommitmentInfo = CommitmentInfo(index: nat, opening: seq<nat>, root: nat)

  ghost predicate LeavesInTree(commitments: seq<Wanted>) {
    forall i :: 0 <= i < |commitments| ==> commitments[i].leafStart < NodeCountLevel(MERKLE_TREE_HEIGHT)
  }

  function Queries(commitments: seq<Wanted>): seq<Query> {
    seq(|commitments|, i requires 0 <= i < |commitments| =>
      Query(commitments[i].hash, LocalIndex(MERKLE_TREE_HEIGHT, commitments[i].leafStart)))
  }

  /** The leaves `getCommitmentsInfo` finds, or the error it throws. */
  ghost function InfoLeaves(tree: Tree, commitments: seq<Wanted>): Result<seq<LocalIndex>>
    requires WellSized(tree)
  {
    if !LeavesInTree(commitments) then Err(OutOfBounds)
    else match GetCommitmentIndices(tree, Queries(commitments))
      case Err(e) => Err(e)
      case Ok(leaves) => if AllReadable(tree, AllOpenings(leaves)) then Ok(leaves) else Err(InvalidRead)
  }

  /** A node found for one of the commitments is a leaf and holds its hash. */
  lemma FoundLeaf(tree: Tree, flat: seq<Hash>, commitments: seq<Wanted>, i: nat, n: LocalIndex)
    requires WellSized(tree) && Covers(tree, flat) && LeavesInTree(commitments) && i < |commitments|
    requires FoundRight(flat, Queries(commitments), i, n)
    ensures IsNode(n) && n.level == MERKLE_TREE_HEIGHT && Stored(tree)(n) == commitments[i].hash != 0
  {
    hide Stored, Covers;
    var qs := Queries(commitments);
    var j :| 0 <= j < |qs| && SameAccount(qs[j].start, qs[i].start)
      && LocalToGlobal(qs[j].start).value <= LocalToGlobal(n).value;
    BehindALeaf(commitments[j].leafStart, n);
    LocalGlobalBijection(n);
    StoredIsFlat(tree, flat, n);
  }

  /** All chunk accounts are active. */
  ghost predicate AllActive(tree: Tree) { forall a :: 0 <= a < |tree| ==> tree[a].Some? }

  /** The nodes of the openings are nodes of the tree, and they can all be read when every account is active. */
  lemma OpeningsReadable(tree: Tree, leaves: seq<LocalIndex>)
    requires WellSized(tree) && AllNodes(leaves)
    ensures AllNodes(AllOpenings(leaves))
    ensures AllActive(tree) ==> AllReadable(tree, AllOpenings(leaves))
  {
    AllOpeningsHas(leaves);
    forall n | n in AllOpenings(leaves) ensures IsNode(n) && (AllActive(tree) ==> ReadNode(tree, n).Ok?) {
      var leaf :| leaf in leaves && n in Opening(leaf);
      OpeningNodes(leaf.index, leaf.level);
      NodeHasPlace(n);
    }
  }

  /** The information is that of the commitment's leaf, and hashing the commitment up the opening gives the root. */
  ghost predicate InfoRight(p: Poseidon, tree: Tree, hash: Hash, info: CommitmentInfo)
    requires WellSized(tree)
  {
    && IsNode(LocalIndex(MERKLE_TREE_HEIGHT, info.index))
    && Stored(tree)(LocalIndex(MERKLE_TREE_HEIGHT, info.index)) == hash != 0
    && Reconstruct(p.hash, info.index, p.repr(hash), info.opening) == info.root
  }

  lemma InfoIsRight(p: Poseidon, tree: Tree, hash: Hash, leaf: LocalIndex, opening: seq<nat>)
    requires WellSized(tree) && tree[0].Some? && KeptUp(p, MERKLE_TREE_HEIGHT, Stored(tree))
    requires IsNode(leaf) && leaf.level == MERKLE_TREE_HEIGHT && Stored(tree)(leaf) == hash != 0
    requires OpenedRight(p, tree, leaf, opening)
    ensures InfoRight(p, tree, hash, CommitmentInfo(leaf.index, opening, Parse(p, tree[0].value[0], 0)))
  {
    hide OpenedRight, KeptUp, Stored;
    OpenedLeadsToRoot(p, tree, leaf, opening);
    assert leaf == LocalIndex(MERKLE_TREE_HEIGHT, leaf.index);
  }

  /** What the lookup found: leaves that hold the hashes. */
  ghost predicate LeavesRight(tree: Tree, commitments: seq<Wanted>, leaves: seq<LocalIndex>)
    requires WellSized(tree)
  {
    && |leaves| == |commitments| && AllNodes(leaves)
    && forall i :: 0 <= i < |leaves| ==>
         leaves[i].level == MERKLE_TREE_HEIGHT && Stored(tree)(leaves[i]) == commitments[i].hash != 0
  }

  lemma LookupGivesLeaves(tree: Tree, commitments: seq<Wanted>)
    requires WellSized(tree) && LeavesInTree(commitments)
    ensures var r := GetCommitmentIndices(tree, Queries(commitments));
            r.Ok? ==> LeavesRight(tree, commitments, r.value)
  {
    hide WellSized, Covers, Stored, GetCommitmentIndices, FoundRight, LeavesInTree;
    FlatCovers(tree);
    LookupIsSound(tree, Flat(tree), Queries(commitments));
    var r := GetCommitmentIndices(tree, Queries(commitments));
    if r.Ok? {
      forall i | 0 <= i < |commitments|
        ensures IsNode(r.value[i]) && r.value[i].level == MERKLE_TREE_HEIGHT
                && Stored(tree)(r.value[i]) == commitments[i].hash != 0
      {
        FoundLeaf(tree, Flat(tree), commitments, i, r.value[i]);
      }
    }
  }

  /**
   `getCommitmentsInfo`: whatever the start indices, on a tree kept up to date everything it returns is right: the
   leaf holds the commitment and the opening hashes it up to the root returned. When it fails, and how, is
   `InfoLeaves`.
   */
  method GetCommitmentsInfo(p: Poseidon, tree: Tree, commitments: seq<Wanted>) returns (r: Result<seq<CommitmentInfo>>)
    requires WellSized(tree)
    ensures r.Err? ==> InfoLeaves(tree, commitments) == Err(r.error)
    ensures r.Ok? ==> InfoLeaves(tree, commitments).Ok? && |r.value| == |commitments|
    ensures r.Ok? && KeptUp(p, MERKLE_TREE_HEIGHT, Stored(tree))
            ==> forall i :: 0 <= i < |commitments| ==> InfoRight(p, tree, commitments[i].hash, r.value[i])
  {
    hide WellSized, KeptUp, AllReadable, OpenedRight, InfoRight, Stored, GetCommitmentIndices, AllNodes, AllOpenings;
    for i := 0 to |commitments|
      invariant forall j :: 0 <= j < i ==> commitments[j].leafStart < NodeCountLevel(MERKLE_TREE_HEIGHT)
    {
      if commitments[i].leafStart >= NodeCountLevel(MERKLE_TREE_HEIGHT) {
        return Err(OutOfBounds);
      }
    }
    var commitmentIndices := GetCommitmentIndices(tree, Queries(commitments));
    LookupGivesLeaves(tree, commitments);
    if commitmentIndices.Err? {
      return Err(commitmentIndices.error);
    }
    OpeningsReadable(tree, commitmentIndices.value);
    var ops := GetOpenings(p, tree, commitmentIndices.value);
    if ops.Err? {
      return Err(ops.error);
    }
    var res: seq<CommitmentInfo> := [];
    for i := 0 to |commitments|
      invariant |res| == i
      invariant KeptUp(p, MERKLE_TREE_HEIGHT, Stored(tree)) ==>
                  forall j :: 0 <= j < i ==> InfoRight(p, tree, commitments[j].hash, res[j])
    {
      if KeptUp(p, MERKLE_TREE_HEIGHT, Stored(tree)) {
        LeafIsNode(commitmentIndices.value, i);
        InfoIsRight(p, tree, commitments[i].hash, commitmentIndices.value[i], ops.value.openings[i]);
      }
      res := res + [CommitmentInfo(commitmentIndices.value[i].index, ops.value.openings[i], ops.value.root)];
    }
    return Ok(res);
  }

  lemma LeafIsNode(leaves: seq<LocalIndex>, i: nat)
    requires AllNodes(leaves) && i < |leaves|
    ensures IsNode(leaves[i])
  {
    assert leaves[i] in leaves;
  }

  // ---------------------------------------------------------------- when it finds everything

  /** What the lookup needs: no holes, no commitment before its start, nothing that can be skipped. */
  ghost predicate Lookable(flat: seq<Hash>, commitments: seq<Wanted>) {
    ToSought(Queries(commitments)).Ok? ==>
      var comms := ToSought(Queries(commitments)).value;
      SpareEmpty(flat) && NoEarlier(flat, comms) && NoHoles(flat, comms) && ScansRight(comms)
  }

  /** Every commitment is at its start leaf or behind it, with no empty place before it. */
  ghost predicate AllFoundFrom(flat: seq<Hash>, commitments: seq<Wanted>) {
    forall i :: 0 <= i < |commitments| ==> QueryPlace(flat, Queries(commitments)[i]).Some?
  }

  lemma {:induction false} QueriesLookUp(tree: Tree, commitments: seq<Wanted>)
    requires WellSized(tree) && LeavesInTree(commitments) && Lookable(Flat(tree), commitments)
    ensures var flat, r := Flat(tree), GetCommitmentIndices(tree, Queries(commitments));
            && (r.Ok? <==> AllFoundFrom(flat, commitments))
            && (r.Ok? ==> forall i :: 0 <= i < |commitments| ==> LocalToGlobal(r.value[i]).Ok?)
            && (r.Ok? ==> forall i :: 0 <= i < |commitments| ==>
                  QueryPlace(flat, Queries(commitments)[i]) == Some(LocalToGlobal(r.value[i]).value))
  {
    var qs := Queries(commitments);
    assert forall i :: 0 <= i < |qs| ==> IsNode(qs[i].start);
    ToSoughtIs(qs);
    FlatCovers(tree);
    LookupIsLinear(tree, Flat(tree), qs);
  }

  /** On a tree with all accounts active it succeeds exactly when every commitment is at its start leaf or behind it. */
  lemma {:induction false} InfoExactly(tree: Tree, commitments: seq<Wanted>)
    requires WellSized(tree) && AllActive(tree) && Lookable(Flat(tree), commitments)
    ensures InfoLeaves(tree, commitments).Ok? <==> LeavesInTree(commitments) && AllFoundFrom(Flat(tree), commitments)
  {
    hide Lookable, AllFoundFrom, Flat, AllReadable, AllOpenings, WellSized, QueryPlace, GetCommitmentIndices;
    if LeavesInTree(commitments) {
      QueriesLookUp(tree, commitments);
      LookupGivesLeaves(tree, commitments);
      var r := GetCommitmentIndices(tree, Queries(commitments));
      if r.Ok? { OpeningsReadable(tree, r.value); }
    }
  }
}
