/**
 The three numberings of the nodes of the on-chain Merkle tree, src/sdk/utils/IndexConverter.ts: by level
 and position, by position in the whole heap, and by account and position in the account.
 */
module IndexConverter {
  import opened Common

  const MERKLE_TREE_HEIGHT: nat := 20
  const STORAGE_MT_CHUNK_COUNT: nat := 25
  const STORAGE_MT_VALUES_PER_ACCOUNT: nat := 83887

  datatype LocalIndex = LocalIndex(level: nat, index: nat)
  datatype AccIndex = AccIndex(indexOfAccount: nat, indexInAccount: nat)

  function Pow2(n: nat): (r: nat)
    ensures r > 0
  {
    if n == 0 then 1 else 2 * Pow2(n - 1)
  }

  function NodeCountLevel(level: nat): nat { Pow2(level) }

  function NodeCountMT(height: nat): nat { Pow2(height + 1) - 1 }

  function LocalToGlobal(i: LocalIndex): Result<nat> {
    if i.level > MERKLE_TREE_HEIGHT then Err(OutOfBounds)
    else if i.index >= NodeCountLevel(i.level) then Err(OutOfBounds)
    else Ok(Pow2(i.level) - 1 + i.index)
  }

  function GlobalToAcc(g: nat): Result<AccIndex> {
    if g >= NodeCountMT(MERKLE_TREE_HEIGHT) then Err(OutOfBounds)
    else
      var indexOfAccount := g / STORAGE_MT_VALUES_PER_ACCOUNT;
      if indexOfAccount >= STORAGE_MT_CHUNK_COUNT then Err(OutOfBounds)
      else Ok(AccIndex(indexOfAccount, g % STORAGE_MT_VALUES_PER_ACCOUNT))
  }

  /** floor(log2(n)) */
  function Log2(n: nat): nat
    requires n > 0
  {
    if n == 1 then 0 else 1 + Log2(n / 2)
  }

  function LevelFromIndex(g: nat): nat { Log2(g + 1) }

  function GlobalToLocal(g: nat): Result<LocalIndex> {
    if g >= NodeCountMT(MERKLE_TREE_HEIGHT) then Err(OutOfBounds)
    else
      var level := LevelFromIndex(g);
      Log2Bounds(g + 1);
      Ok(LocalIndex(level, g - (Pow2(level) - 1)))
  }

  function AccToGlobal(a: AccIndex): Result<nat> {
    if a.indexOfAccount >= STORAGE_MT_CHUNK_COUNT then Err(OutOfBounds)
    else Ok(a.indexOfAccount * STORAGE_MT_VALUES_PER_ACCOUNT + a.indexInAccount)
  }

  function LocalToAcc(i: LocalIndex): Result<AccIndex> {
    match LocalToGlobal(i) case Err(e) => Err(e) case Ok(g) => GlobalToAcc(g)
  }

  function LeafToLocal(leafIndex: nat): Result<LocalIndex> {
    if leafIndex >= NodeCountLevel(MERKLE_TREE_HEIGHT) then Err(OutOfBounds)
    else Ok(LocalIndex(MERKLE_TREE_HEIGHT, leafIndex))
  }

  // ---------------------------------------------------------------- the numberings agree

  lemma {:induction false} Log2Bounds(n: nat)
    requires n > 0
    ensures Pow2(Log2(n)) <= n < Pow2(Log2(n) + 1)
  {
    if n > 1 { Log2Bounds(n / 2); }
  }

  lemma {:induction false} Log2Unique(n: nat, k: nat)
    requires n > 0 && Pow2(k) <= n < Pow2(k + 1)
    ensures Log2(n) == k
  {
    if k == 0 {
    } else {
      Log2Unique(n / 2, k - 1);
    }
  }

  lemma {:induction false} Pow2Monotone(a: nat, b: nat)
    requires a <= b
    ensures Pow2(a) <= Pow2(b)
  {
    if a < b { Pow2Monotone(a, b - 1); }
  }

  lemma TreeSize()
    ensures NodeCountMT(MERKLE_TREE_HEIGHT) == 2_097_151 && NodeCountLevel(MERKLE_TREE_HEIGHT) == 1_048_576
  {
    assert Pow2(5) == 32;
    assert Pow2(10) == 32 * Pow2(5);
    assert Pow2(15) == 32 * Pow2(10);
    assert Pow2(20) == 32 * Pow2(15);
  }

  /** A node of the tree: its level exists and its position fits the level. */
  ghost predicate IsNode(i: LocalIndex) { i.level <= MERKLE_TREE_HEIGHT && i.index < Pow2(i.level) }

  lemma NodesFit(level: nat, index: nat)
    requires level <= MERKLE_TREE_HEIGHT && index < Pow2(level)
    ensures Pow2(level) - 1 + index < NodeCountMT(MERKLE_TREE_HEIGHT)
  {
    Pow2Monotone(level + 1, MERKLE_TREE_HEIGHT + 1);
  }

  /** Level and position name the nodes of the heap one to one, and `floor(log2(g + 1))` recovers the level. */
  lemma LocalGlobalBijection(i: LocalIndex)
    ensures LocalToGlobal(i).Ok? <==> IsNode(i)
    ensures IsNode(i) ==>
              var g := LocalToGlobal(i).value;
              && g < NodeCountMT(MERKLE_TREE_HEIGHT) && LevelFromIndex(g) == i.level && GlobalToLocal(g) == Ok(i)
  {
    hide NodeCountMT, Log2;
    if IsNode(i) {
      NodesFit(i.level, i.index);
      Log2Unique(Pow2(i.level) + i.index, i.level);
    }
  }

  lemma GlobalLocalBijection(g: nat)
    ensures GlobalToLocal(g).Ok? <==> g < NodeCountMT(MERKLE_TREE_HEIGHT)
    ensures GlobalToLocal(g).Ok? ==> IsNode(GlobalToLocal(g).value) && LocalToGlobal(GlobalToLocal(g).value) == Ok(g)
  {
    if g < NodeCountMT(MERKLE_TREE_HEIGHT) {
      Log2Bounds(g + 1);
      var level := LevelFromIndex(g);
      if level > MERKLE_TREE_HEIGHT {
        Pow2Monotone(MERKLE_TREE_HEIGHT + 1, level);
      }
    }
  }

  /** Every node has a place in one of the accounts, exactly one, and the guard on the account number never fires. */
  lemma GlobalAccBijection(g: nat)
    ensures GlobalToAcc(g).Ok? <==> g < NodeCountMT(MERKLE_TREE_HEIGHT)
    ensures GlobalToAcc(g).Ok? ==>
              var a := GlobalToAcc(g).value;
              && a.indexOfAccount < STORAGE_MT_CHUNK_COUNT && a.indexInAccount < STORAGE_MT_VALUES_PER_ACCOUNT
              && AccToGlobal(a) == Ok(g)
  {
    TreeSize();
  }

  lemma AccGlobalBijection(a: AccIndex)
    requires a.indexInAccount < STORAGE_MT_VALUES_PER_ACCOUNT
    ensures AccToGlobal(a).Ok? <==> a.indexOfAccount < STORAGE_MT_CHUNK_COUNT
    ensures AccToGlobal(a).Ok? && AccToGlobal(a).value < NodeCountMT(MERKLE_TREE_HEIGHT)
            ==> GlobalToAcc(AccToGlobal(a).value) == Ok(a)
  {
    hide NodeCountMT;
    TreeSize();
    PlaceInAccount(a.indexOfAccount, a.indexInAccount);
  }

  lemma PlaceInAccount(q: nat, r: nat)
    requires r < 83_887
    ensures (q * 83_887 + r) / 83_887 == q && (q * 83_887 + r) % 83_887 == r
  {
  }

  /** Leaf number `i` is node 2^height - 1 + i of the heap. */
  lemma LeafPosition(leafIndex: nat)
    ensures LeafToLocal(leafIndex).Ok? <==> leafIndex < 1_048_576
    ensures LeafToLocal(leafIndex).Ok? ==>
              && LeafToLocal(leafIndex).value.level == MERKLE_TREE_HEIGHT
              && LocalToGlobal(LeafToLocal(leafIndex).value) == Ok(1_048_575 + leafIndex)
  {
    TreeSize();
  }
}
