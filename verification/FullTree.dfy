/**
 Trees to try the lookup on: every leaf is set, to a value of one's choice, and every inner node is what the program
 makes of its children, so that the tree is kept up as src/sdk/paramManagers/TreeManager.ts expects it.
 */
module FullTree {
  import opened Common
  import opened IndexConverter
  import opened ChunkScan
  import opened StorageSearch
  import opened Openings

  // ---------------------------------------------------------------- a tree with given values

  function ValueChunk(value: nat -> Hash, base: nat): seq<Hash> {
    seq<Hash>(STORAGE_MT_VALUES_PER_ACCOUNT, (i: nat) => value(base + i))
  }

  /** All accounts are active, and node `g` holds `value(g)`. */
  ghost predicate HoldsValues(tree: Tree, value: nat -> Hash) {
    |tree| == STORAGE_MT_CHUNK_COUNT && forall a :: 0 <= a < |tree| ==> tree[a] == Some(ValueChunk(value, Base(a)))
  }

  lemma {:induction false} FlatOfValues(tree: Tree, value: nat -> Hash, n: nat)
    requires HoldsValues(tree, value) && WellSized(tree) && n <= STORAGE_MT_CHUNK_COUNT
    ensures forall g :: 0 <= g < Base(n) ==> FlatTo(tree, n)[g] == value(g)
  {
    hide ValueChunk, WellSized;
    if n > 0 {
      FlatOfValues(tree, value, n - 1);
      var chunk := ValueChunk(value, Base(n - 1));
      ValuesOfChunk(value, Base(n - 1));
      assert Values(tree[n - 1]) == chunk;
      LastChunk(FlatTo(tree, n - 1), chunk, value);
    }
  }

  lemma LastChunk(before: seq<Hash>, chunk: seq<Hash>, value: nat -> Hash)
    requires forall g :: 0 <= g < |before| ==> before[g] == value(g)
    requires forall i :: 0 <= i < |chunk| ==> chunk[i] == value(|before| + i)
    ensures forall g :: 0 <= g < |before| + |chunk| ==> (before + chunk)[g] == value(g)
  {
    forall g | |before| <= g < |before| + |chunk| ensures (before + chunk)[g] == value(g) {
      assert chunk[g - |before|] == value(|before| + (g - |before|));
    }
  }

  lemma ValuesOfChunk(value: nat -> Hash, base: nat)
    ensures |ValueChunk(value, base)| == STORAGE_MT_VALUES_PER_ACCOUNT
    ensures forall i :: 0 <= i < STORAGE_MT_VALUES_PER_ACCOUNT ==> ValueChunk(value, base)[i] == value(base + i)
  {
  }

  lemma ATree(value: nat -> Hash) returns (tree: Tree)
    ensures HoldsValues(tree, value) && WellSized(tree) && AllActive(tree)
  {
    tree := seq(STORAGE_MT_CHUNK_COUNT, (a: nat) => Some(ValueChunk(value, Base(a))));
  }

  // ---------------------------------------------------------------- kept up from its leaves

  ghost predicate StoredAs(p: Poseidon, stored: Hash, x: nat) { stored != 0 && p.repr(stored) == x }

  /** The defaults are those of empty subtrees, and every hash of two nodes can be stored as something not empty. */
  ghost predicate Storable(p: Poseidon) {
    && (forall l :: 0 <= l < MERKLE_TREE_HEIGHT ==> p.defaults(l) == p.hash(p.defaults(l + 1), p.defaults(l + 1)))
    && forall x, y :: exists stored :: StoredAs(p, stored, p.hash(x, y))
  }

  /** A stored form of the hash of two nodes. */
  ghost function Encoded(p: Poseidon, x: nat, y: nat): (stored: Hash)
    requires Storable(p)
    ensures StoredAs(p, stored, p.hash(x, y))
  {
    var stored :| StoredAs(p, stored, p.hash(x, y));
    stored
  }

  /** Node `g` of the tree with these leaves. */
  ghost function NodeValue(p: Poseidon, leaf: nat -> Hash, g: nat): Hash
    requires Storable(p)
    decreases 2_097_151 - g
  {
    if g >= 2_097_151 then 0
    else if g >= 1_048_575 then leaf(g)
    else Encoded(p, p.repr(NodeValue(p, leaf, 2 * g + 1)), p.repr(NodeValue(p, leaf, 2 * g + 2)))
  }

  /** The nodes are those of the tree with these leaves. */
  ghost predicate FullOf(p: Poseidon, flat: seq<Hash>, leaf: nat -> Hash)
    requires Storable(p)
  {
    |flat| == 2_097_175 && forall g :: 0 <= g < |flat| ==> flat[g] == NodeValue(p, leaf, g)
  }

  lemma NodeIsSet(p: Poseidon, leaf: nat -> Hash, g: nat)
    requires Storable(p) && forall i :: leaf(i) != 0
    ensures NodeValue(p, leaf, g) != 0 <==> g < 2_097_151
  {
  }

  /** The stored value of a node, and that it is set. */
  lemma StoredNode(p: Poseidon, tree: Tree, leaf: nat -> Hash, n: LocalIndex)
    requires WellSized(tree) && Storable(p) && FullOf(p, Flat(tree), leaf) && IsNode(n) && forall i :: leaf(i) != 0
    ensures Stored(tree)(n) == NodeValue(p, leaf, Pow2(n.level) - 1 + n.index) != 0
  {
    hide Stored, Storable, NodeValue, Flat, Covers, WellSized, Pow2;
    TreeSize();
    FlatCovers(tree);
    StoredIsFlat(tree, Flat(tree), n);
    LocalGlobalBijection(n);
    NodeIsSet(p, leaf, Pow2(n.level) - 1 + n.index);
  }

  lemma KeptUpNode(p: Poseidon, tree: Tree, leaf: nat -> Hash, l: nat, i: nat)
    requires WellSized(tree) && Storable(p) && FullOf(p, Flat(tree), leaf) && forall j :: leaf(j) != 0
    requires l < MERKLE_TREE_HEIGHT && i < Pow2(l)
    ensures var stored, left, right := Stored(tree), LocalIndex(l + 1, 2 * i), LocalIndex(l + 1, 2 * i + 1);
            && stored(LocalIndex(l, i)) != 0
            && p.repr(stored(LocalIndex(l, i)))
               == p.hash(Parse(p, stored(left), l + 1), Parse(p, stored(right), l + 1))
  {
    hide Stored, Storable, FullOf, WellSized, NodeValue, Flat;
    var g := Pow2(l) - 1 + i;
    ChildrenOf(l, i);
    StoredNode(p, tree, leaf, LocalIndex(l, i));
    StoredNode(p, tree, leaf, LocalIndex(l + 1, 2 * i));
    StoredNode(p, tree, leaf, LocalIndex(l + 1, 2 * i + 1));
    InnerValue(p, leaf, g);
  }

  /** The children of node `g` are nodes `2 g + 1` and `2 g + 2`. */
  lemma ChildrenOf(l: nat, i: nat)
    requires l < MERKLE_TREE_HEIGHT && i < Pow2(l)
    ensures var g := Pow2(l) - 1 + i;
            && g < 1_048_575 && Pow2(l + 1) - 1 + 2 * i == 2 * g + 1 && Pow2(l + 1) - 1 + (2 * i + 1) == 2 * g + 2
            && IsNode(LocalIndex(l + 1, 2 * i)) && IsNode(LocalIndex(l + 1, 2 * i + 1))
  {
    Pow2Monotone(l + 1, MERKLE_TREE_HEIGHT);
    TreeSize();
  }

  lemma InnerValue(p: Poseidon, leaf: nat -> Hash, g: nat)
    requires Storable(p) && g < 1_048_575
    ensures p.repr(NodeValue(p, leaf, g))
            == p.hash(p.repr(NodeValue(p, leaf, 2 * g + 1)), p.repr(NodeValue(p, leaf, 2 * g + 2)))
  {
  }

  lemma IsKeptUp(p: Poseidon, tree: Tree, leaf: nat -> Hash)
    requires WellSized(tree) && Storable(p) && FullOf(p, Flat(tree), leaf) && forall j :: leaf(j) != 0
    ensures KeptUp(p, MERKLE_TREE_HEIGHT, Stored(tree))
  {
    hide Stored, FullOf, WellSized;
    forall l: nat, i: nat | l < MERKLE_TREE_HEIGHT && i < Pow2(l)
      ensures var stored, left, right := Stored(tree), LocalIndex(l + 1, 2 * i), LocalIndex(l + 1, 2 * i + 1);
              && stored(LocalIndex(l, i)) != 0
              && p.repr(stored(LocalIndex(l, i)))
                 == p.hash(Parse(p, stored(left), l + 1), Parse(p, stored(right), l + 1))
    {
      KeptUpNode(p, tree, leaf, l, i);
    }
  }

  /** Every leaf is set, and the places of the last account that no node has are empty. */
  ghost predicate HasLeaves(flat: seq<Hash>, leaf: nat -> Hash) {
    && |flat| == 2_097_175
    && (forall g :: 0 <= g < |flat| ==> (flat[g] == 0 <==> g >= 2_097_151))
    && (forall g :: 1_048_575 <= g < 2_097_151 ==> flat[g] == leaf(g))
  }

  /** There is a tree with the given leaves, all of them set, that is kept up. */
  lemma AFullTree(p: Poseidon, leaf: nat -> Hash) returns (tree: Tree)
    requires Storable(p) && forall g :: leaf(g) != 0
    ensures WellSized(tree) && AllActive(tree) && KeptUp(p, MERKLE_TREE_HEIGHT, Stored(tree))
    ensures HasLeaves(Flat(tree), leaf)
  {
    hide WellSized, KeptUp, Stored, AllActive, Storable, HoldsValues, NodeValue;
    var value := (g: nat) => if Storable(p) then NodeValue(p, leaf, g) else 0;
    tree := ATree(value);
    FlatOfValues(tree, value, STORAGE_MT_CHUNK_COUNT);
    BaseIs(STORAGE_MT_CHUNK_COUNT);
    TreeLength(tree);
    forall g | 0 <= g < |Flat(tree)| ensures Flat(tree)[g] == NodeValue(p, leaf, g) {}
    IsKeptUp(p, tree, leaf);
    forall g | 0 <= g < |Flat(tree)| ensures Flat(tree)[g] == 0 <==> g >= 2_097_151 { NodeIsSet(p, leaf, g); }
    forall g | 1_048_575 <= g < 2_097_151 ensures NodeValue(p, leaf, g) == leaf(g) { LeafValue(p, leaf, g); }
  }

  lemma LeafValue(p: Poseidon, leaf: nat -> Hash, g: nat)
    requires Storable(p) && 1_048_575 <= g < 2_097_151
    ensures NodeValue(p, leaf, g) == leaf(g)
  {
  }

  lemma TreeLength(tree: Tree)
    requires WellSized(tree)
    ensures |tree| == STORAGE_MT_CHUNK_COUNT && Flat(tree) == FlatTo(tree, STORAGE_MT_CHUNK_COUNT)
  {
  }
}
