/**
 The nonce-indexed cache in front of the chain: src/sdk/utils/caching/IndexedMultiCacher.ts with the
 index and the equality of src/sdk/txManagers/TransactionCacher.ts.
 */
module TxCache {
  import opened Ledger

  /** The sparse array of the cache. An `undefined` spot is an empty slot: a spot that is set always gets a value. */
  type Slots = seq<seq<Tx>>

  function Slot(cached: Slots, n: nat): seq<Tx> { if n < |cached| then cached[n] else [] }

  /** Equality of the cache: same nonce and same commitment hash. */
  predicate Equal(t: Tx, u: Tx) { t.nonce == u.nonce && t.commitment == u.commitment }

  predicate Has(slot: seq<Tx>, val: Tx) { exists i | 0 <= i < |slot| :: Equal(slot[i], val) }

  /** JavaScript grows the array to hold an assigned index. */
  function Padded(cached: Slots, n: nat): (r: Slots)
    ensures |r| > n && |r| >= |cached| && (|r| == |cached| || |r| == n + 1)
    ensures forall k: nat :: Slot(r, k) == Slot(cached, k)
  {
    if n < |cached| then cached else cached + seq(n + 1 - |cached|, _ => [])
  }

  function InsertInSlot(slot: seq<Tx>, val: Tx): seq<Tx> { if Has(slot, val) then slot else slot + [val] }

  function InsertAllInSlot(slot: seq<Tx>, vals: seq<Tx>): seq<Tx>
    decreases vals
  {
    if vals == [] then slot else InsertAllInSlot(InsertInSlot(slot, vals[0]), vals[1..])
  }

  function Insert(cached: Slots, val: Tx, overwritable: bool): Slots {
    var slot := if overwritable then [] else Slot(cached, val.nonce);
    Padded(cached, val.nonce)[val.nonce := InsertInSlot(slot, val)]
  }

  function InsertAll(cached: Slots, vals: seq<Tx>, overwritable: bool): Slots
    decreases vals
  {
    if vals == [] then cached else InsertAll(Insert(cached, vals[0], overwritable), vals[1..], overwritable)
  }

  class IndexedMultiCacher {
    var cached: Slots

    constructor ()
      ensures cached == []
    {
      cached := [];
    }

    /** `cacheInner` */
    method CacheInner(vals: seq<Tx>, overwritable: bool)
      modifies this
      ensures cached == InsertAll(old(cached), vals, overwritable)
    {
      ghost var goal := InsertAll(cached, vals, overwritable);
      assert vals[0..] == vals;
      for i := 0 to |vals|
        invariant InsertAll(cached, vals[i..], overwritable) == goal
      {
        assert vals[i..][1..] == vals[i + 1..];
        CacheOne(vals[i], overwritable);
      }
    }

    /** One turn of the loop of `cacheInner`. */
    method CacheOne(val: Tx, overwritable: bool)
      modifies this
      ensures cached == Insert(old(cached), val, overwritable)
    {
      var index := val.nonce;
      if Slot(cached, index) == [] || overwritable {
        cached := Padded(cached, index)[index := []];
      }
      if !Has(cached[index], val) {
        cached := cached[index := cached[index] + [val]];
      }
    }

    method Cache(vals: seq<Tx>)
      modifies this
      ensures cached == InsertAll(old(cached), vals, false)
    {
      CacheInner(vals, false);
    }

    method CacheOverwrite(vals: seq<Tx>)
      modifies this
      ensures cached == InsertAll(old(cached), vals, true)
    {
      CacheInner(vals, true);
    }
  }

  // ---------------------------------------------------------------- what caching does, slot by slot

  lemma InsertSlot(cached: Slots, val: Tx, overwritable: bool, n: nat)
    ensures Slot(Insert(cached, val, overwritable), n)
            == if n != val.nonce then Slot(cached, n)
               else InsertInSlot(if overwritable then [] else Slot(cached, n), val)
  {
  }

  /** A slot sees exactly the values of its own nonce, in the order they come. */
  lemma {:induction false} InsertAllSlot(cached: Slots, vals: seq<Tx>, n: nat)
    ensures Slot(InsertAll(cached, vals, false), n) == InsertAllInSlot(Slot(cached, n), AtNonce(vals, n))
    decreases vals
  {
    if vals != [] {
      InsertSlot(cached, vals[0], false, n);
      InsertAllSlot(Insert(cached, vals[0], false), vals[1..], n);
      if vals[0].nonce == n {
        assert ([vals[0]] + AtNonce(vals[1..], n))[1..] == AtNonce(vals[1..], n);
      }
    }
  }

  /** Overwriting resets the slot for every single value: of several values with one nonce only the last stays. */
  lemma {:induction false} OverwriteKeepsLast(cached: Slots, vals: seq<Tx>, n: nat)
    ensures var mine := AtNonce(vals, n);
            Slot(InsertAll(cached, vals, true), n) == if mine == [] then Slot(cached, n) else [mine[|mine| - 1]]
    decreases vals
  {
    if vals != [] {
      InsertSlot(cached, vals[0], true, n);
      OverwriteKeepsLast(Insert(cached, vals[0], true), vals[1..], n);
    }
  }

  lemma {:induction false} InsertAllLength(cached: Slots, vals: seq<Tx>, bound: nat)
    requires |cached| <= bound && AllBelow(vals, bound)
    ensures |cached| <= |InsertAll(cached, vals, false)| <= bound
    decreases vals
  {
    if vals != [] {
      assert vals[0] in vals && forall t :: t in vals[1..] ==> t in vals;
      InsertAllLength(Insert(cached, vals[0], false), vals[1..], bound);
    }
  }

  /** The array never ends in a hole. */
  ghost predicate EndsFull(cached: Slots) { cached != [] ==> cached[|cached| - 1] != [] }

  lemma {:induction false} InsertAllEndsFull(cached: Slots, vals: seq<Tx>)
    requires EndsFull(cached)
    ensures EndsFull(InsertAll(cached, vals, false))
    decreases vals
  {
    if vals != [] {
      InsertAllEndsFull(Insert(cached, vals[0], false), vals[1..]);
    }
  }

  /** Under no nonce two transactions have the same commitment. */
  ghost predicate NoTwoEqual(slot: seq<Tx>) {
    forall i, j :: 0 <= i < j < |slot| ==> slot[i].nonce != slot[j].nonce || slot[i].commitment != slot[j].commitment
  }

  /** A transaction of the slot has the nonce and the commitment of `t`. */
  ghost predicate Stands(slot: seq<Tx>, t: Tx) {
    exists i :: 0 <= i < |slot| && slot[i].nonce == t.nonce && slot[i].commitment == t.commitment
  }

  lemma {:induction false} InsertAllInSlotKeeps(slot: seq<Tx>, vals: seq<Tx>)
    requires NoTwoEqual(slot)
    ensures NoTwoEqual(InsertAllInSlot(slot, vals))
    ensures forall t :: t in InsertAllInSlot(slot, vals) ==> t in slot || t in vals
    ensures forall t :: t in slot || t in vals ==> Stands(InsertAllInSlot(slot, vals), t)
    decreases vals
  {
    if vals != [] {
      InsertAllInSlotKeeps(InsertInSlot(slot, vals[0]), vals[1..]);
      var r, mid := InsertAllInSlot(slot, vals), InsertInSlot(slot, vals[0]);
      forall t | t in slot || t in vals
        ensures Stands(r, t)
      {
        if t in slot {
          assert t in mid;
        } else if t == vals[0] {
          var i :| 0 <= i < |mid| && Equal(mid[i], t);
          assert mid[i] in mid && Stands(r, mid[i]);
        }
      }
    } else {
      assert forall t :: t in slot ==> exists i :: 0 <= i < |slot| && slot[i] == t;
    }
  }

  /** Values that are all there already change nothing. */
  lemma {:induction false} InsertAllInSlotIdle(slot: seq<Tx>, vals: seq<Tx>)
    requires forall i :: 0 <= i < |vals| ==> Stands(slot, vals[i])
    ensures InsertAllInSlot(slot, vals) == slot
  {
    if vals != [] { InsertAllInSlotIdle(slot, vals[1..]); }
  }

  /** Values with different commitments, none there yet, are appended in order. */
  lemma {:induction false} InsertAllInSlotFresh(slot: seq<Tx>, vals: seq<Tx>)
    requires NoTwoEqual(slot + vals)
    ensures InsertAllInSlot(slot, vals) == slot + vals
    decreases vals
  {
    if vals != [] {
      assert (slot + vals)[|slot|] == vals[0];
      assert forall i :: 0 <= i < |slot| ==> (slot + vals)[i] == slot[i];
      assert !Has(slot, vals[0]);
      assert slot + vals == slot + [vals[0]] + vals[1..];
      InsertAllInSlotFresh(slot + [vals[0]], vals[1..]);
    }
  }

  /** Caches are the same when every slot is and neither ends in a hole. */
  lemma SameSlots(a: Slots, b: Slots)
    requires EndsFull(a) && EndsFull(b) && forall n: nat :: Slot(a, n) == Slot(b, n)
    ensures a == b
  {
    assert b != [] ==> Slot(a, |b| - 1) == Slot(b, |b| - 1) != [];
    assert a != [] ==> Slot(b, |a| - 1) == Slot(a, |a| - 1) != [];
    assert |a| == |b|;
    forall i | 0 <= i < |a| ensures a[i] == b[i] {
      assert Slot(a, i) == Slot(b, i);
    }
  }

  /** Caching the same values again changes nothing. */
  lemma CachingIsIdempotent(cached: Slots, vals: seq<Tx>)
    requires EndsFull(cached) && forall n: nat :: NoTwoEqual(Slot(cached, n))
    ensures InsertAll(InsertAll(cached, vals, false), vals, false) == InsertAll(cached, vals, false)
  {
    var once := InsertAll(cached, vals, false);
    InsertAllEndsFull(cached, vals);
    InsertAllEndsFull(once, vals);
    forall n: nat ensures Slot(InsertAll(once, vals, false), n) == Slot(once, n) {
      InsertAllSlot(cached, vals, n);
      InsertAllSlot(once, vals, n);
      InsertAllInSlotKeeps(Slot(cached, n), AtNonce(vals, n));
      InsertAllInSlotIdle(Slot(once, n), AtNonce(vals, n));
    }
    SameSlots(InsertAll(once, vals, false), once);
  }

  /** Batches without a common nonce can complete in either order. */
  lemma DisjointBatchesCommute(cached: Slots, a: seq<Tx>, b: seq<Tx>)
    requires EndsFull(cached)
    requires forall t, u :: t in a && u in b ==> t.nonce != u.nonce
    ensures InsertAll(InsertAll(cached, a, false), b, false) == InsertAll(InsertAll(cached, b, false), a, false)
  {
    var ab, ba := InsertAll(InsertAll(cached, a, false), b, false), InsertAll(InsertAll(cached, b, false), a, false);
    InsertAllEndsFull(cached, a);
    InsertAllEndsFull(InsertAll(cached, a, false), b);
    InsertAllEndsFull(cached, b);
    InsertAllEndsFull(InsertAll(cached, b, false), a);
    forall n: nat ensures Slot(ab, n) == Slot(ba, n) {
      InsertAllSlot(cached, a, n);
      InsertAllSlot(InsertAll(cached, a, false), b, n);
      InsertAllSlot(cached, b, n);
      InsertAllSlot(InsertAll(cached, b, false), a, n);
      AtNonceElements(a, n);
      AtNonceElements(b, n);
      var inA, inB := AtNonce(a, n), AtNonce(b, n);
      assert inA != [] ==> inA[0] in a;
      assert inB != [] ==> inB[0] in b;
      assert inA == [] || inB == [];
    }
    SameSlots(ab, ba);
  }

  // ---------------------------------------------------------------- the chain as the cache shows it

  function ChainAt(chain: Chain, n: nat): seq<Tx> { if n < |chain| then chain[n] else [] }

  /** What is left of a nonce once it went through the cache: of equal transactions only the first. */
  function SeenSlot(slot: seq<Tx>): seq<Tx> { InsertAllInSlot([], slot) }

  function Seen(chain: Chain): (r: Chain)
    ensures |r| == |chain|
  {
    seq(|chain|, n requires 0 <= n < |chain| => SeenSlot(chain[n]))
  }

  /** A nonce goes through the cache whole if and only if no two of its transactions are equal. */
  lemma SeenSlotExactly(slot: seq<Tx>)
    ensures SeenSlot(slot) == slot <==> NoTwoEqual(slot)
    ensures NoTwoEqual(SeenSlot(slot))
  {
    InsertAllInSlotKeeps([], slot);
    if NoTwoEqual(slot) {
      assert [] + slot == slot;
      InsertAllInSlotFresh([], slot);
    }
  }

  lemma SeenSlotKeeps(slot: seq<Tx>, n: nat)
    requires SlotOfNonce(slot, n)
    ensures ValidSlot(SeenSlot(slot), n)
    ensures forall t :: t in SeenSlot(slot) ==> t in slot
    ensures forall t :: t in slot ==> Stands(SeenSlot(slot), t)
  {
    SeenSlotExactly(slot);
    InsertAllInSlotKeeps([], slot);
    var r := SeenSlot(slot);
    assert Stands(r, slot[0]);
    assert forall i :: 0 <= i < |r| ==> r[i] in r;
  }

  /** Whatever is on chain, what the cache shows of it has no two equal transactions. */
  lemma SeenIsValid(chain: Chain)
    requires Contiguous(chain)
    ensures ValidChain(Seen(chain))
  {
    forall n | 0 <= n < |chain| ensures ValidSlot(Seen(chain)[n], n) {
      SeenSlotKeeps(chain[n], n);
    }
  }

  /** The cache shows the chain as it is if and only if no nonce holds two equal transactions. */
  lemma SeenExactly(chain: Chain)
    ensures Seen(chain) == chain <==> forall n :: 0 <= n < |chain| ==> NoTwoEqual(chain[n])
  {
    forall n | 0 <= n < |chain| ensures Seen(chain)[n] == chain[n] <==> NoTwoEqual(chain[n]) {
      SeenSlotExactly(chain[n]);
    }
  }

  /**
   A chain without gaps is shown whole if and only if the transactions of every nonce commit to different things, which
   is what a valid chain has beside.
   */
  lemma ShownWholeExactly(chain: Chain)
    requires Contiguous(chain)
    ensures Seen(chain) == chain
            <==> forall n, i, j :: 0 <= n < |chain| && 0 <= i < j < |chain[n]| ==>
                   chain[n][i].commitment != chain[n][j].commitment
    ensures Seen(chain) == chain <==> ValidChain(chain)
  {
    SeenExactly(chain);
    assert forall n :: 0 <= n < |chain| ==> SlotOfNonce(chain[n], n);
    assert forall n, i :: 0 <= n < |chain| && 0 <= i < |chain[n]| ==> chain[n][i] in chain[n];
    forall n | 0 <= n < |chain| ensures NoTwoEqual(chain[n]) <==> ValidSlot(chain[n], n) {}
  }

  lemma SeenGrows(chain: Chain, more: Chain)
    ensures Seen(chain + more) == Seen(chain) + Seen(more)
  {
  }

  // ---------------------------------------------------------------- the cache of a chain

  /**
   What every reachable cache looks like, `chain` being what the cache shows of the chain: each slot is a hole
   or the whole nonce, and nothing lies beyond the chain.
   */
  ghost predicate CacheOk(chain: Chain, cached: Slots) {
    && |cached| <= |chain|
    && EndsFull(cached)
    && forall n :: 0 <= n < |cached| ==> cached[n] == [] || cached[n] == chain[n]
  }

  ghost predicate Filled(chain: Chain, cached: Slots, lo: int, hi: int) {
    forall n: nat :: lo <= n < hi ==> Slot(cached, n) == ChainAt(chain, n)
  }

  /** Slots that were filled stay as they are. */
  ghost predicate Grown(before: Slots, cached: Slots) {
    forall n: nat :: Slot(before, n) != [] ==> Slot(cached, n) == Slot(before, n)
  }

  function FetchedOne(node: Chain, cached: Slots, n: nat): seq<Tx> {
    if Slot(cached, n) == [] then ChainAt(node, n) else []
  }

  /** What a fetch of the nonces [lo, hi) from the node returns: nothing for a nonce that is cached, else all of it. */
  function Fetched(node: Chain, cached: Slots, lo: nat, hi: nat): seq<Tx>
    decreases hi - lo
  {
    if hi <= lo then [] else FetchedOne(node, cached, lo) + Fetched(node, cached, lo + 1, hi)
  }

  lemma FetchedOneNonce(node: Chain, cached: Slots, n: nat)
    requires Contiguous(node)
    ensures forall t :: t in FetchedOne(node, cached, n) ==> t.nonce == n && n < |node|
  {
    if n < |node| { assert SlotOfNonce(node[n], n); }
  }

  lemma {:induction false} FetchedBelow(node: Chain, cached: Slots, lo: nat, hi: nat)
    requires Contiguous(node)
    ensures AllBelow(Fetched(node, cached, lo, hi), |node|)
    decreases hi - lo
  {
    if lo < hi {
      FetchedOneNonce(node, cached, lo);
      FetchedBelow(node, cached, lo + 1, hi);
    }
  }

  lemma {:induction false} FetchedAtNonce(node: Chain, cached: Slots, lo: nat, hi: nat, n: nat)
    requires Contiguous(node)
    ensures AtNonce(Fetched(node, cached, lo, hi), n) == if lo <= n < hi then FetchedOne(node, cached, n) else []
    decreases hi - lo
  {
    if lo < hi {
      var first := FetchedOne(node, cached, lo);
      FetchedAtNonce(node, cached, lo + 1, hi, n);
      FetchedOneNonce(node, cached, lo);
      AtNonceOfSlot(first, lo, n);
      AtNonceConcat(first, Fetched(node, cached, lo + 1, hi), n);
    }
  }

  lemma {:induction false} AtNonceOfSlot(slot: seq<Tx>, m: nat, n: nat)
    requires forall t :: t in slot ==> t.nonce == m
    ensures AtNonce(slot, n) == if m == n then slot else []
  {
    if slot != [] {
      assert slot[0] in slot && forall t :: t in slot[1..] ==> t in slot;
      AtNonceOfSlot(slot[1..], m, n);
      assert [slot[0]] + slot[1..] == slot;
    }
  }

  /**
   Caching a fetched batch fills its holes with what the cache shows of the chain and changes nothing else, even
   when other batches, with the same nonces or not, were cached since the fetch started.
   */
  lemma CacheFetched(node: Chain, atFetch: Slots, cached: Slots, lo: nat, hi: nat)
    requires Contiguous(node) && CacheOk(Seen(node), cached) && Grown(atFetch, cached)
    ensures var after := InsertAll(cached, Fetched(node, atFetch, lo, hi), false);
            && CacheOk(Seen(node), after)
            && |cached| <= |after|
            && Filled(Seen(node), after, lo, hi)
            && Grown(cached, after)
            && forall n: nat :: !(lo <= n < hi) ==> Slot(after, n) == Slot(cached, n)
  {
    var chain, vals := Seen(node), Fetched(node, atFetch, lo, hi);
    var after := InsertAll(cached, vals, false);
    FetchedBelow(node, atFetch, lo, hi);
    InsertAllLength(cached, vals, |node|);
    InsertAllEndsFull(cached, vals);
    forall n: nat
      ensures Slot(after, n) == if lo <= n < hi then ChainAt(chain, n) else Slot(cached, n)
    {
      CacheFetchedSlot(node, atFetch, cached, lo, hi, n);
    }
    SlotsOfCache(chain, cached);
    forall n | 0 <= n < |after|
      ensures after[n] == [] || after[n] == chain[n]
    {
      assert after[n] == Slot(after, n);
    }
  }

  lemma SlotsOfCache(chain: Chain, cached: Slots)
    requires CacheOk(chain, cached)
    ensures forall n: nat :: Slot(cached, n) == [] || Slot(cached, n) == ChainAt(chain, n)
  {
  }

  lemma CacheFetchedSlot(node: Chain, atFetch: Slots, cached: Slots, lo: nat, hi: nat, n: nat)
    requires Contiguous(node) && CacheOk(Seen(node), cached) && Grown(atFetch, cached)
    ensures Slot(InsertAll(cached, Fetched(node, atFetch, lo, hi), false), n)
            == if lo <= n < hi then ChainAt(Seen(node), n) else Slot(cached, n)
  {
    InsertAllSlot(cached, Fetched(node, atFetch, lo, hi), n);
    FetchedAtNonce(node, atFetch, lo, hi, n);
    SlotsOfCache(Seen(node), cached);
    if lo <= n < hi && Slot(atFetch, n) == [] && n < |node| && Slot(cached, n) != [] {
      assert SlotOfNonce(node[n], n);
      SeenSlotKeeps(node[n], n);
      assert forall i :: 0 <= i < |node[n]| ==> node[n][i] in node[n];
      InsertAllInSlotIdle(Slot(cached, n), node[n]);
    }
  }

  /**
   A fetched range is then in the cache as it is on chain if and only if no nonce of it holds two equal transactions.
   */
  lemma CacheFetchedExactly(node: Chain, atFetch: Slots, cached: Slots, lo: nat, hi: nat)
    requires Contiguous(node) && CacheOk(Seen(node), cached) && Grown(atFetch, cached)
    ensures Filled(node, InsertAll(cached, Fetched(node, atFetch, lo, hi), false), lo, hi)
            <==> forall n: nat :: lo <= n < hi ==> NoTwoEqual(ChainAt(node, n))
  {
    var after := InsertAll(cached, Fetched(node, atFetch, lo, hi), false);
    forall n: nat | lo <= n < hi
      ensures Slot(after, n) == ChainAt(node, n) <==> NoTwoEqual(ChainAt(node, n))
    {
      CacheFetchedSlot(node, atFetch, cached, lo, hi, n);
      SeenSlotExactly(ChainAt(node, n));
    }
  }

  /** Two transactions of one nonce with equal commitments: the cache keeps the first only. */
  lemma CollisionIsDropped(t: Tx, u: Tx)
    requires t.nonce == u.nonce && t.commitment == u.commitment
    ensures SeenSlot([t, u]) == [t] && Slot(InsertAll([], [t, u], false), t.nonce) == [t]
  {
    InsertAllSlot([], [t, u], t.nonce);
    assert [t, u][1..] == [u] && [u][1..] == [];
    assert AtNonce([u], t.nonce) == [u];
    assert AtNonce([t, u], t.nonce) == [t, u];
    assert InsertInSlot([], t) == [t];
    assert InsertAllInSlot([], [t, u]) == InsertAllInSlot([t], [u]) == [t];
  }

  /** The chain going on under new nonces keeps the cache right. */
  lemma CacheOkGrows(node: Chain, more: Chain, cached: Slots)
    requires CacheOk(Seen(node), cached)
    ensures CacheOk(Seen(node + more), cached)
  {
    SeenGrows(node, more);
  }
}
