/**
 Fetching the private history through the cache and reading balances off it:
 src/sdk/txManagers/AbstractTxManager.ts, TransactionCacher.ts and TransactionManager.ts.

 The RPC node is the `node` argument of every method: it answers from that value for the duration of
 the call. Between calls the chain may have grown under new nonces (`CacheOkGrows`).
 */
module TransactionManager {
  import opened Common
  import opened Ledger
  import opened TxCache

  const DEFAULT_FETCH_BATCH_SIZE: nat := 10
  const MAX_SAFE_INTEGER: nat := 9_007_199_254_740_991

  // ---------------------------------------------------------------- reading the cache as history

  /** `.flat()` on a stretch of slots: holes vanish. */
  function Flat(slots: seq<seq<Tx>>): seq<Tx> {
    if slots == [] then [] else Flat(slots[..|slots| - 1]) + slots[|slots| - 1]
  }

  function Min(a: nat, b: nat): nat { if a < b then a else b }

  /** Array.slice for bounds that are not negative. */
  function Slice(cached: Slots, from: nat, to: Option<nat>): seq<seq<Tx>> {
    var hi := match to case None => |cached| case Some(t) => Min(t, |cached|);
    cached[Min(from, hi)..hi]
  }

  /** `getCachedTxsWrapper`: what is cached in (after, before), newest nonce first. */
  function CachedTxs(cached: Slots, before: Option<nat>, after: int): seq<Tx>
    requires after >= -1
  {
    Reverse(Flat(Slice(cached, after + 1, before)))
  }

  lemma {:induction false} ReverseConcat(a: seq<Tx>, b: seq<Tx>)
    ensures Reverse(a + b) == Reverse(b) + Reverse(a)
  {
    if a == [] {
      assert a + b == b;
    } else {
      ReverseConcat(a[1..], b);
      assert (a + b)[0] == a[0] && (a + b)[1..] == a[1..] + b;
    }
  }

  lemma {:induction false} FlatIsBetween(chain: Chain, cached: Slots, lo: nat, hi: nat)
    requires lo <= hi <= |cached| && hi <= |chain|
    requires Filled(chain, cached, lo, hi)
    ensures Reverse(Flat(cached[lo..hi])) == Between(chain, lo, hi)
  {
    if lo < hi {
      FlatIsBetween(chain, cached, lo, hi - 1);
      assert Slot(cached, hi - 1) == ChainAt(chain, hi - 1);
      var slots, init, last := cached[lo..hi], cached[lo..hi - 1], chain[hi - 1];
      assert slots[..|slots| - 1] == init && slots[|slots| - 1] == last;
      assert Flat(slots) == Flat(init) + last;
      ReverseConcat(Flat(init), last);
    }
  }

  /** Where a read of the cache before `before` ends. */
  function ReadEnd(cached: Slots, before: Option<nat>): nat {
    if before.None? then |cached| else Min(before.value, |cached|)
  }

  /** A filled stretch of the cache reads as the chain's history of that stretch. */
  lemma CachedTxsIsBetween(chain: Chain, cached: Slots, before: Option<nat>, after: int)
    requires |cached| <= |chain| && after >= -1 && Filled(chain, cached, after + 1, ReadEnd(cached, before))
    ensures CachedTxs(cached, before, after) == Between(chain, after + 1, ReadEnd(cached, before))
  {
    var lo, hi := after + 1, ReadEnd(cached, before);
    if lo < hi {
      FlatIsBetween(chain, cached, lo, hi);
    } else {
      assert Slice(cached, lo, before) == [];
    }
  }

  lemma NewestCached(chain: Chain, cached: Slots)
    requires ValidChain(chain) && CacheOk(chain, cached)
    ensures var all := CachedTxs(cached, None, -1);
            if cached == [] then all == [] else all != [] && all[0].nonce == |cached| - 1
  {
    if cached != [] {
      var last := |cached| - 1;
      assert Slice(cached, 0, None) == cached;
      ReverseConcat(Flat(cached[..last]), cached[last]);
      assert ValidSlot(chain[last], last);
      assert Reverse(cached[last])[0] in cached[last];
    } else {
      assert Slice(cached, 0, None) == [];
    }
  }

  /** The nonces of a fetch that the cache does not hold. */
  function Uncached(cached: Slots, lo: nat, hi: nat): seq<nat>
    decreases hi - lo
  {
    if hi <= lo then []
    else if Slot(cached, lo) == [] then [lo] + Uncached(cached, lo + 1, hi)
    else Uncached(cached, lo + 1, hi)
  }

  /** `requested` asks for exactly the uncached nonces in [lo, hi), each once. */
  ghost predicate RequestsExactly(requested: seq<nat>, cached: Slots, lo: int, hi: int) {
    && (forall n: nat :: n in requested <==> lo <= n < hi && Slot(cached, n) == [])
    && (forall i, j :: 0 <= i < j < |requested| ==> requested[i] != requested[j])
  }

  lemma {:induction false} UncachedExactly(cached: Slots, lo: nat, hi: nat)
    ensures RequestsExactly(Uncached(cached, lo, hi), cached, lo, hi)
    decreases hi - lo
  {
    if lo < hi {
      UncachedExactly(cached, lo + 1, hi);
      OneMoreRequest(cached, lo, hi, Uncached(cached, lo + 1, hi));
    }
  }

  lemma OneMoreRequest(cached: Slots, lo: nat, hi: nat, rest: seq<nat>)
    requires lo < hi && RequestsExactly(rest, cached, lo + 1, hi)
    ensures RequestsExactly(if Slot(cached, lo) == [] then [lo] + rest else rest, cached, lo, hi)
  {
    assert forall i :: 0 <= i < |rest| ==> rest[i] in rest;
    assert forall n :: n in [lo] + rest <==> n == lo || n in rest;
  }

  lemma RequestsJoin(a: seq<nat>, b: seq<nat>, cached: Slots, lo: int, mid: int, hi: int)
    requires lo <= mid <= hi && RequestsExactly(a, cached, mid, hi) && RequestsExactly(b, cached, lo, mid)
    ensures RequestsExactly(a + b, cached, lo, hi)
  {
    assert forall i :: 0 <= i < |a| ==> a[i] in a;
    assert forall i :: 0 <= i < |b| ==> b[i] in b;
  }

  /** A batch under way: its nonces [lo, hi) and what the node answers. */
  datatype Batch = Batch(lo: nat, hi: nat, txs: seq<Tx>)

  predicate Holds(b: Batch, n: nat) { b.lo <= n < b.hi }

  /** The batches under way answer for stretches of [lo, hi) that lie apart. */
  ghost predicate BatchesFor(node: Chain, cached: Slots, batches: seq<Batch>, lo: int, hi: int) {
    && (forall k :: 0 <= k < |batches| ==> AnswerFor(node, cached, batches[k], lo, hi))
    && (forall i, j :: 0 <= i < j < |batches| ==> batches[j].hi <= batches[i].lo)
  }

  ghost predicate AnswerFor(node: Chain, cached: Slots, b: Batch, lo: int, hi: int) {
    lo <= b.lo <= b.hi <= hi && b.txs == Fetched(node, cached, b.lo, b.hi)
  }

  function Indices(n: nat): (r: set<nat>)
    ensures forall k: nat :: k in r <==> k < n
  {
    if n == 0 then {} else Indices(n - 1) + {n - 1}
  }

  /** Nonce `n` is in a batch other than those in `open`. */
  ghost predicate Awaited(batches: seq<Batch>, open: set<nat>, n: nat) {
    exists k :: 0 <= k < |batches| && k !in open && Holds(batches[k], n)
  }

  /** Down to `edge`, every nonce was looked at: cached as it is on chain, or in a batch and requested once. */
  ghost predicate Underway(node: Chain, cached: Slots, batches: seq<Batch>, requested: seq<nat>, edge: int,
        before: int) {
    && BatchesFor(node, cached, batches, edge, before)
    && RequestsExactly(requested, cached, edge, before)
    && forall n: nat :: edge <= n < before ==> Awaited(batches, {}, n) || Slot(cached, n) == ChainAt(Seen(node), n)
  }

  lemma SkipCached(node: Chain, cached: Slots, batches: seq<Batch>, requested: seq<nat>, edge: int, before: int)
    requires Underway(node, cached, batches, requested, edge, before)
    requires 0 < edge <= before && CacheOk(Seen(node), cached) && Slot(cached, edge - 1) != []
    ensures Underway(node, cached, batches, requested, edge - 1, before)
  {
    assert Slot(cached, edge - 1) == ChainAt(Seen(node), edge - 1);
  }

  lemma AddBatch(node: Chain, cached: Slots, batches: seq<Batch>, requested: seq<nat>, lo: nat, edge: int, before: int)
    requires Underway(node, cached, batches, requested, edge, before) && lo < edge <= before
    ensures Underway(node, cached, batches + [Batch(lo, edge, Fetched(node, cached, lo, edge))],
                     requested + Uncached(cached, lo, edge), lo, before)
  {
    hide Fetched, Uncached, Seen;
    var next := batches + [Batch(lo, edge, Fetched(node, cached, lo, edge))];
    UncachedExactly(cached, lo, edge);
    RequestsJoin(requested, Uncached(cached, lo, edge), cached, lo, edge, before);
    forall n: nat | lo <= n < before
      ensures Awaited(next, {}, n) || Slot(cached, n) == ChainAt(Seen(node), n)
    {
      if n < edge {
        assert Holds(next[|batches|], n);
      } else if Awaited(batches, {}, n) {
        var k :| 0 <= k < |batches| && Holds(batches[k], n);
        assert Holds(next[k], n);
      }
    }
  }

  // ---------------------------------------------------------------- stepping forward

  function Max(a: nat, b: nat): nat { if a < b then b else a }

  /** Ranges [lo, hi) of nonces whose fetches other runs complete. */
  type Ranges = seq<(nat, nat)>

  ghost predicate InRanges(done: Ranges, n: int) { exists k :: 0 <= k < |done| && done[k].0 <= n < done[k].1 }

  /** What others complete while step `k` waits. */
  function Others(meanwhile: seq<Ranges>, k: nat): Ranges { if k < |meanwhile| then meanwhile[k] else [] }

  /** What others completed before step `k` started. */
  function Done(meanwhile: seq<Ranges>, k: nat): Ranges {
    if k == 0 then [] else Done(meanwhile, k - 1) + Others(meanwhile, k - 1)
  }

  /** Where step number `k` of `getLatestTransactionsIntoCache` starts. */
  function StepStart(first: nat, k: nat): nat { first + k * DEFAULT_FETCH_BATCH_SIZE }

  /** Step `k` starts on the chain of this length, and others have completed all of it that is on chain. */
  ghost predicate Overtaken(length: nat, first: nat, meanwhile: seq<Ranges>, k: nat) {
    && StepStart(first, k) < length
    && forall n: nat :: StepStart(first, k) <= n < StepStart(first, k + 1) && n < length ==>
         InRanges(Done(meanwhile, k), n)
  }

  /** The first step from `k` on that starts beyond the chain or was overtaken. */
  ghost function LastStep(length: nat, first: nat, meanwhile: seq<Ranges>, k: nat): (last: nat)
    ensures last >= k && (StepStart(first, last) >= length || Overtaken(length, first, meanwhile, last))
    ensures forall j :: k <= j < last ==> StepStart(first, j) < length && !Overtaken(length, first, meanwhile, j)
    decreases length - StepStart(first, k)
  {
    if StepStart(first, k) >= length || Overtaken(length, first, meanwhile, k) then k
    else LastStep(length, first, meanwhile, k + 1)
  }

  /** One past the highest nonce of the chain that the ranges hold, or 0. */
  function Reach(length: nat, done: Ranges): nat {
    if done == [] then 0
    else
      var (lo, hi) := done[|done| - 1];
      Max(Reach(length, done[..|done| - 1]), if lo < Min(hi, length) then Min(hi, length) else 0)
  }

  /**
   How far the stepping sees a chain of this length, with so much of it cached before: as far as its last step fetches,
   or as anything the others completed by then reaches.
   */
  ghost function EndSeen(length: nat, cached: nat, meanwhile: seq<Ranges>): nat {
    var steps := LastStep(length, cached, meanwhile, 0) + 1;
    Max(cached, Max(Min(length, StepStart(cached, steps)), Reach(length, Done(meanwhile, steps))))
  }

  lemma {:induction false} ReachIs(length: nat, done: Ranges)
    ensures Reach(length, done) <= length
    ensures Reach(length, done) > 0 ==> InRanges(done, Reach(length, done) - 1)
    ensures forall n :: InRanges(done, n) && n < length ==> n < Reach(length, done)
  {
    if done != [] {
      var init, last := done[..|done| - 1], done[|done| - 1];
      ReachIs(length, init);
      var r := Reach(length, done);
      assert forall n :: InRanges(done, n) <==> InRanges(init, n) || last.0 <= n < last.1 by { RangesSnoc(init, last); }
      assert r > 0 ==> r == Reach(length, init) || last.0 <= r - 1 < last.1;
    }
  }

  lemma RangesSnoc(done: Ranges, last: (nat, nat))
    ensures forall n :: InRanges(done + [last], n) <==> InRanges(done, n) || last.0 <= n < last.1
  {
    RangesConcat(done, [last]);
    assert [last][0] == last && forall n :: last.0 <= n < last.1 ==> InRanges([last], n);
  }

  lemma RangesConcat(a: Ranges, b: Ranges)
    ensures forall n :: InRanges(a + b, n) <==> InRanges(a, n) || InRanges(b, n)
  {
    forall n | InRanges(a, n) || InRanges(b, n) ensures InRanges(a + b, n) {
      if InRanges(a, n) {
        var k :| 0 <= k < |a| && a[k].0 <= n < a[k].1;
        assert (a + b)[k] == a[k];
      } else {
        var k :| 0 <= k < |b| && b[k].0 <= n < b[k].1;
        assert (a + b)[|a| + k] == b[k];
      }
    }
  }

  lemma {:induction false} NothingDone(k: nat)
    ensures Done([], k) == []
  {
    if k > 0 { NothingDone(k - 1); }
  }

  /** The stepping ends on the chain if and only if some step is overtaken. */
  lemma StopsShortExactly(length: nat, first: nat, meanwhile: seq<Ranges>)
    ensures StepStart(first, LastStep(length, first, meanwhile, 0)) < length
            <==> exists k: nat :: Overtaken(length, first, meanwhile, k)
  {
    var last := LastStep(length, first, meanwhile, 0);
    if StepStart(first, last) < length { assert Overtaken(length, first, meanwhile, last); }
    if k: nat :| Overtaken(length, first, meanwhile, k) { assert last <= k; }
  }

  /**
   It sees the whole chain if and only if no step is overtaken or others brought the last nonce by then. In any case it
   sees what was cached and two steps more; with no other run active, all of the chain.
   */
  lemma EndSeenExactly(length: nat, cached: nat, meanwhile: seq<Ranges>)
    requires cached <= length
    ensures var end, last := EndSeen(length, cached, meanwhile), LastStep(length, cached, meanwhile, 0);
            && (end == length
                <==> (forall k: nat :: !Overtaken(length, cached, meanwhile, k))
                     || (length > 0 && InRanges(Done(meanwhile, last + 1), length - 1)))
            && Min(length, cached + 2 * DEFAULT_FETCH_BATCH_SIZE) <= end <= length
            && (meanwhile == [] || cached == length ==> end == length)
  {
    hide Overtaken;
    var end, last := EndSeen(length, cached, meanwhile), LastStep(length, cached, meanwhile, 0);
    StopsShortExactly(length, cached, meanwhile);
    ReachIs(length, Done(meanwhile, last + 1));
    FirstIsNotOvertaken(length, cached, meanwhile);
    if StepStart(cached, last) < length <= StepStart(cached, last + 1) {
      OvertakenToEnd(length, cached, meanwhile, last);
    }
    if meanwhile == [] && StepStart(cached, last) < length { NotOvertakenAlone(length, cached, last); }
  }

  lemma FirstIsNotOvertaken(length: nat, first: nat, meanwhile: seq<Ranges>)
    ensures !Overtaken(length, first, meanwhile, 0)
  {
    assert !InRanges(Done(meanwhile, 0), first);
  }

  lemma OvertakenToEnd(length: nat, first: nat, meanwhile: seq<Ranges>, k: nat)
    requires Overtaken(length, first, meanwhile, k) && length <= StepStart(first, k + 1)
    ensures InRanges(Done(meanwhile, k + 1), length - 1)
  {
    RangesConcat(Done(meanwhile, k), Others(meanwhile, k));
  }

  lemma NotOvertakenAlone(length: nat, first: nat, k: nat)
    ensures !Overtaken(length, first, [], k)
  {
    NothingDone(k);
    assert !InRanges(Done([], k), StepStart(first, k));
  }

  /** When another run completes two steps before the first of this one, this one sees two steps and no more. */
  lemma TwoStepsAhead(length: nat, cached: nat)
    requires cached + 2 * DEFAULT_FETCH_BATCH_SIZE <= length
    ensures EndSeen(length, cached, [TwoSteps(cached)]) == cached + 2 * DEFAULT_FETCH_BATCH_SIZE
  {
    var ahead := [TwoSteps(cached)];
    assert Done(ahead, 0) == [] && Done(ahead, 1) == Done(ahead, 0) + TwoSteps(cached) == TwoSteps(cached);
    assert Done(ahead, 2) == Done(ahead, 1) + [] == TwoSteps(cached);
    FirstIsNotOvertaken(length, cached, ahead);
    var second := TwoSteps(cached)[1];
    assert Overtaken(length, cached, ahead, 1);
    assert LastStep(length, cached, ahead, 0) == LastStep(length, cached, ahead, 1) == 1;
    ReachIs(length, TwoSteps(cached));
  }

  function TwoSteps(first: nat): Ranges { [(first, StepStart(first, 1)), (StepStart(first, 1), StepStart(first, 2))] }

  /** Nothing changed but what lies in [lo, hi) or in the ranges, and that is as the cache shows it. */
  ghost predicate FilledWith(chain: Chain, was: Slots, cached: Slots, lo: int, hi: int, done: Ranges) {
    forall n: nat :: Slot(cached, n) == if lo <= n < hi || InRanges(done, n) then ChainAt(chain, n) else Slot(was, n)
  }

  lemma NothingFilled(chain: Chain, cached: Slots, lo: int)
    ensures FilledWith(chain, cached, cached, lo, lo, [])
  {
  }

  /** One more step. */
  lemma StepFills(chain: Chain, old_: Slots, was: Slots, cached: Slots, first: nat, meanwhile: seq<Ranges>, k: nat)
    requires FilledWith(chain, old_, was, first, StepStart(first, k), Done(meanwhile, k))
    requires FilledWith(chain, was, cached, StepStart(first, k), StepStart(first, k + 1), Others(meanwhile, k))
    ensures FilledWith(chain, old_, cached, first, StepStart(first, k + 1), Done(meanwhile, k + 1))
  {
    RangesConcat(Done(meanwhile, k), Others(meanwhile, k));
  }

  /** A step brings nothing if and only if it starts beyond the chain or was overtaken. */
  lemma StepIdleExactly(node: Chain, old_: Slots, was: Slots, meanwhile: seq<Ranges>, k: nat)
    requires Contiguous(node)
    requires FilledWith(Seen(node), old_, was, |old_|, StepStart(|old_|, k), Done(meanwhile, k))
    ensures Fetched(node, was, StepStart(|old_|, k), StepStart(|old_|, k + 1)) == []
            <==> StepStart(|old_|, k) >= |node| || Overtaken(|node|, |old_|, meanwhile, k)
  {
    hide Seen;
    var lo, hi := StepStart(|old_|, k), StepStart(|old_|, k + 1);
    SeenIsValid(node);
    IdleExactly(node, was, lo, hi);
    forall n: nat | lo <= n < hi && n < |node|
      ensures Slot(was, n) != [] <==> InRanges(Done(meanwhile, k), n)
    {
      assert ValidSlot(Seen(node)[n], n);
    }
  }

  /** The length of a cache whose holes were filled so. */
  lemma LengthIs(chain: Chain, was: Slots, cached: Slots, hi: nat, done: Ranges)
    requires ValidChain(chain) && CacheOk(chain, was) && CacheOk(chain, cached)
    requires FilledWith(chain, was, cached, |was|, hi, done) && |was| <= hi
    ensures |cached| == Max(|was|, Max(Min(|chain|, hi), Reach(|chain|, done)))
  {
    hide Reach, InRanges;
    var e := Max(|was|, Max(Min(|chain|, hi), Reach(|chain|, done)));
    ReachIs(|chain|, done);
    forall n: nat | n >= e ensures Slot(cached, n) == [] {}
    assert LastSlot(cached) == if cached == [] then [] else cached[|cached| - 1];
    if e > 0 {
      assert ValidSlot(chain[e - 1], e - 1);
      assert Slot(cached, e - 1) != [];
    }
  }

  ghost predicate AllCached(node: Chain, cached: Slots, lo: int, hi: int) {
    forall n: nat :: lo <= n < hi && n < |node| ==> Slot(cached, n) != []
  }

  /** A fetch brings nothing exactly when everything of it that is on chain was cached. */
  lemma {:induction false} IdleExactly(node: Chain, cached: Slots, lo: nat, hi: nat)
    requires Contiguous(node)
    ensures Fetched(node, cached, lo, hi) == [] <==> AllCached(node, cached, lo, hi)
    decreases hi - lo
  {
    if lo < hi {
      IdleExactly(node, cached, lo + 1, hi);
      FetchedOneEmpty(node, cached, lo);
      var first, rest := FetchedOne(node, cached, lo), Fetched(node, cached, lo + 1, hi);
      assert first + rest == [] <==> first == [] && rest == [];
      AllCachedFrom(node, cached, lo, hi);
    }
  }

  lemma FetchedOneEmpty(node: Chain, cached: Slots, n: nat)
    requires Contiguous(node)
    ensures FetchedOne(node, cached, n) == [] <==> (n < |node| ==> Slot(cached, n) != [])
  {
    assert n < |node| ==> SlotOfNonce(node[n], n);
  }

  lemma AllCachedFrom(node: Chain, cached: Slots, lo: nat, hi: nat)
    requires lo < hi
    ensures AllCached(node, cached, lo, hi)
            <==> AllCached(node, cached, lo + 1, hi) && (lo < |node| ==> Slot(cached, lo) != [])
  {
  }

  /** The newest transaction before nonce `n`. */
  function Newest(chain: Chain, n: nat): Option<Tx>
    requires n <= |chain|
  {
    var h := History(chain, n);
    if h == [] then None else Some(h[0])
  }

  lemma SameLength(before: Slots, cached: Slots, hi: nat)
    requires EndsFull(before) && EndsFull(cached) && |before| >= hi
    requires forall n: nat :: n >= hi ==> Slot(cached, n) == Slot(before, n)
    requires hi == |before| && hi > 0 ==> Slot(before, hi - 1) == Slot(cached, hi - 1)
    ensures |cached| == |before|
  {
    LengthOfFilled(before, cached, |before|);
    assert LastSlot(before) == if before == [] then [] else before[|before| - 1];
  }

  function LastSlot(cached: Slots): seq<Tx> { if cached == [] then [] else Slot(cached, |cached| - 1) }

  /** A cache that ends where its last value is does not reach past the values it gained. */
  lemma LengthOfFilled(before: Slots, cached: Slots, hi: nat)
    requires EndsFull(cached) && |before| <= hi && forall n: nat :: n >= hi ==> Slot(cached, n) == Slot(before, n)
    ensures |cached| <= hi
  {
    assert LastSlot(cached) == if cached == [] then [] else cached[|cached| - 1];
  }

  // ---------------------------------------------------------------- the manager

  class TransactionManager {
    const fetchedTxs: IndexedMultiCacher

    constructor ()
      ensures fresh(fetchedTxs) && fetchedTxs.cached == []
    {
      fetchedTxs := new IndexedMultiCacher();
    }

    ghost predicate Valid(node: Chain)
      reads fetchedTxs
    {
      Contiguous(node) && CacheOk(Seen(node), fetchedTxs.cached)
    }

    /** `getTxsInNonceRange`, after undefined entries were dropped. */
    method GetTxsInNonceRange(filtered: seq<Tx>, count: nat) returns (res: seq<Tx>)
      requires count > 0 || filtered == []
      ensures res == TakeWhole(filtered, count)
    {
      if |filtered| == 0 {
        return [];
      }
      res := filtered[..Min(count, |filtered|)];
      if count < |filtered| && filtered[count - 1].nonce == filtered[count].nonce {
        var i := count;
        while i < |filtered| && filtered[i].nonce == filtered[count].nonce
          invariant count <= i <= |filtered|
          invariant res == filtered[..i]
          invariant filtered[i - 1].nonce == filtered[count].nonce
          invariant ExtendSame(filtered, count) == ExtendSame(filtered, i)
        {
          res := res + [filtered[i]];
          i := i + 1;
        }
      }
    }

    /** `getLatestCachedNonce` */
    function LatestCachedNonce(): int
      reads fetchedTxs
    {
      var all := CachedTxs(fetchedTxs.cached, None, -1);
      if all == [] then -1 else all[0].nonce
    }

    lemma LatestIsLastSlot(node: Chain)
      requires Valid(node)
      ensures LatestCachedNonce() == |fetchedTxs.cached| - 1
    {
      SeenIsValid(node);
      NewestCached(Seen(node), fetchedTxs.cached);
    }

    lemma EndIsOnChain(node: Chain, meanwhile: seq<Ranges>)
      requires Valid(node)
      ensures |fetchedTxs.cached| <= EndSeen(|node|, |fetchedTxs.cached|, meanwhile) <= |node|
      ensures meanwhile == [] ==> EndSeen(|node|, |fetchedTxs.cached|, meanwhile) == |node|
    {
      EndSeenExactly(|node|, |fetchedTxs.cached|, meanwhile);
    }

    /** Other runs on the same manager complete fetches of these ranges [lo, hi) while this one waits. */
    method OthersComplete(node: Chain, done: Ranges)
      requires Valid(node)
      modifies fetchedTxs
      ensures Valid(node) && FilledWith(Seen(node), old(fetchedTxs.cached), fetchedTxs.cached, 0, 0, done)
    {
      hide Seen, Fetched, CacheOk, InRanges;
      NothingFilled(Seen(node), fetchedTxs.cached, 0);
      for k := 0 to |done|
        invariant Valid(node)
        invariant FilledWith(Seen(node), old(fetchedTxs.cached), fetchedTxs.cached, 0, 0, done[..k])
      {
        var (lo, hi) := done[k];
        CacheFetched(node, fetchedTxs.cached, fetchedTxs.cached, lo, hi);
        fetchedTxs.Cache(Fetched(node, fetchedTxs.cached, lo, hi));
        assert done[..k + 1] == done[..k] + [done[k]];
        RangesSnoc(done[..k], done[k]);
      }
      assert done[..|done|] == done;
    }

    /**
     `fetchAndCacheTxsInRange` for (before, after), both ends left out. What is cached is looked at when the fetch
     starts; until the answer comes other runs may fill the cache.
     */
    method FetchAndCacheTxsInRange(node: Chain, before: nat, after: int, meanwhile: Ranges) returns (txs: seq<Tx>)
      requires Valid(node) && -1 <= after < before
      modifies fetchedTxs
      ensures Valid(node) && txs == Fetched(node, old(fetchedTxs.cached), after + 1, before)
      ensures FilledWith(Seen(node), old(fetchedTxs.cached), fetchedTxs.cached, after + 1, before, meanwhile)
    {
      hide Seen, Fetched, CacheOk, InRanges;
      ghost var was := fetchedTxs.cached;
      txs := Fetched(node, fetchedTxs.cached, after + 1, before);
      OthersComplete(node, meanwhile);
      FilledIsGrown(node, was, fetchedTxs.cached, 0, 0, meanwhile);
      CacheFetched(node, was, fetchedTxs.cached, after + 1, before);
      fetchedTxs.Cache(txs);
    }

    /**
     `getLatestTransactionsIntoCache`: step forward from the newest cached nonce until a step brings nothing. While
     step number k waits, other runs complete the fetches of `meanwhile[k]`. The end seen is fixed by these.
     */
    method GetLatestTransactionsIntoCache(node: Chain, latestCachedNonce: int, meanwhile: seq<Ranges>)
      returns (before: nat)
      requires Valid(node) && latestCachedNonce == LatestCachedNonce()
      modifies fetchedTxs
      ensures Valid(node)
      ensures before == |fetchedTxs.cached| == EndSeen(|node|, |old(fetchedTxs.cached)|, meanwhile)
      ensures var first := |old(fetchedTxs.cached)|;
              var steps := LastStep(|node|, first, meanwhile, 0) + 1;
              FilledWith(Seen(node), old(fetchedTxs.cached), fetchedTxs.cached, first, StepStart(first, steps),
                         Done(meanwhile, steps))
    {
      hide Seen, Fetched, CacheOk, FilledWith, Overtaken, Done, Contiguous;
      LatestIsLastSlot(node);
      EndIsOnChain(node, meanwhile);
      ghost var was := fetchedTxs.cached;
      ghost var first := |was|;
      var i := latestCachedNonce;
      var k := 0;
      var goOn := true;
      NothingFilled(Seen(node), was, first);
      NothingDoneYet(meanwhile);
      while goOn
        invariant Valid(node) && i + 1 == StepStart(first, k) && first == |was|
        invariant FilledWith(Seen(node), was, fetchedTxs.cached, first, i + 1, Done(meanwhile, k))
        invariant LastStep(|node|, first, meanwhile, 0)
                  == if goOn then LastStep(|node|, first, meanwhile, k) else k - 1
        invariant if goOn then i < |node| + DEFAULT_FETCH_BATCH_SIZE - 1 else k > 0
        decreases |node| + DEFAULT_FETCH_BATCH_SIZE - i, goOn
      {
        ghost var atStep := fetchedTxs.cached;
        StepIdleExactly(node, was, atStep, meanwhile, k);
        var txBatch := FetchAndCacheTxsInRange(node, i + DEFAULT_FETCH_BATCH_SIZE + 1, i, Others(meanwhile, k));
        StepFills(Seen(node), was, atStep, fetchedTxs.cached, first, meanwhile, k);
        goOn := |txBatch| != 0;
        i := i + DEFAULT_FETCH_BATCH_SIZE;
        k := k + 1;
      }
      SeenIsValid(node);
      LengthIs(Seen(node), was, fetchedTxs.cached, i + 1, Done(meanwhile, k));
      LatestIsLastSlot(node);
      before := LatestCachedNonce() + 1;
    }

    /**
     `fetchTxsIntoCache`: request every uncached nonce of (after, before) once, in batches that complete in any order.
     */
    method FetchTxsIntoCache(node: Chain, batchSize: nat, before: nat, after: int) returns (requested: seq<nat>)
      requires Valid(node) && batchSize >= 1 && after >= -1
      modifies fetchedTxs
      ensures Valid(node)
      ensures RequestsExactly(requested, old(fetchedTxs.cached), after + 1, before)
      ensures Filled(Seen(node), fetchedTxs.cached, after + 1, before)
      ensures forall n: nat :: !(after < n < before) ==> Slot(fetchedTxs.cached, n) == Slot(old(fetchedTxs.cached), n)
    {
      ghost var chain := Seen(node);
      SeenIsValid(node);
      ghost var cached := fetchedTxs.cached;
      var batches: seq<Batch> := [];
      requested := [];
      var counter: int := before - 1;
      ghost var edge := if counter > after then counter + 1 else after + 1;
      while counter > after
        invariant counter < before && fetchedTxs.cached == cached
        invariant edge == if counter > after then counter + 1 else after + 1
        invariant Underway(node, cached, batches, requested, edge, before)
        decreases counter - after
      {
        // isCachedNonce(counter)
        if Slot(fetchedTxs.cached, counter) != [] {
          SkipCached(node, cached, batches, requested, edge, before);
          counter := counter - 1;
          edge := edge - 1;
        } else {
          var afterInner := if counter - batchSize > after then counter - batchSize else after;
          var lo, hi := afterInner + 1, counter + 1;
          var batch := Batch(lo, hi, Fetched(node, fetchedTxs.cached, lo, hi));
          AddBatch(node, cached, batches, requested, lo, hi, before);
          batches := batches + [batch];
          requested := requested + Uncached(fetchedTxs.cached, lo, hi);
          counter := counter - batchSize;
          edge := lo;
        }
      }
      CompleteAll(node, batches, edge, before);
      Completed(node, cached, fetchedTxs.cached, batches, requested, edge, before);
    }

    /** The promises of `fetchTxsIntoCache` complete one by one, in whatever order. */
    method CompleteAll(node: Chain, batches: seq<Batch>, ghost lo: int, ghost hi: int)
      requires Valid(node) && BatchesFor(node, fetchedTxs.cached, batches, lo, hi)
      modifies fetchedTxs
      ensures Valid(node)
      ensures forall n: nat :: Slot(fetchedTxs.cached, n)
                == if Awaited(batches, {}, n) then ChainAt(Seen(node), n) else Slot(old(fetchedTxs.cached), n)
    {
      ghost var chain := Seen(node);
      SeenIsValid(node);
      ghost var cached := fetchedTxs.cached;
      var open := Indices(|batches|);
      while open != {}
        invariant open <= Indices(|batches|)
        invariant Valid(node)
        invariant forall n: nat :: Slot(fetchedTxs.cached, n)
                    == if Awaited(batches, open, n) then ChainAt(chain, n) else Slot(cached, n)
        decreases open
      {
        var k :| k in open;
        var batch := batches[k];
        BatchUntouched(node, cached, batches, open, k, lo, hi);
        CacheFetched(node, cached, fetchedTxs.cached, batch.lo, batch.hi);
        ghost var now := fetchedTxs.cached;
        fetchedTxs.Cache(batch.txs);
        BatchDone(node, cached, now, fetchedTxs.cached, batches, open, k);
        open := open - {k};
      }
    }

    /**
     `getTxs`: the newest `count` transactions before a nonce, the last nonce whole, of the chain as far as the run sees
     it: all of it, unless other runs got ahead of it.
     */
    method GetTxs(node: Chain, count: nat, before: Option<nat>, meanwhile: seq<Ranges>) returns (res: seq<Tx>)
      requires Valid(node)
      modifies fetchedTxs
      ensures Valid(node)
      ensures var end := EndSeen(|node|, |old(fetchedTxs.cached)|, meanwhile);
              end <= |node| && res == TakeWhole(History(Seen(node), Min(Clip(Seen(node), before), end)), count)
    {
      hide Seen, History, TakeWhole, CachedTxs, Fetched, RequestsExactly, FilledWith, EndSeen, Slot, Filled, LastStep;
      EndIsOnChain(node, meanwhile);
      ghost var end := EndSeen(|node|, |fetchedTxs.cached|, meanwhile);
      LatestIsLastSlot(node);
      SeenIsValid(node);
      var latestCachedNonce := LatestCachedNonce();
      var defaultBefore := if before.None? then MAX_SAFE_INTEGER else before.value;
      if before.None? || before.value > latestCachedNonce {
        defaultBefore := GetLatestTransactionsIntoCache(node, latestCachedNonce, meanwhile);
      }
      // prepareTxFetchingParams
      var beforeInner := if before.None? then defaultBefore else Min(before.value, defaultBefore);
      var after := if beforeInner - count - 1 > -1 then beforeInner - count - 1 else -1;
      ghost var was := fetchedTxs.cached;
      var requested := FetchTxsIntoCache(node, DEFAULT_FETCH_BATCH_SIZE, beforeInner, after);
      PageRead(Seen(node), was, fetchedTxs.cached, before, after, count);
      res := GetTxsInNonceRange(CachedTxs(fetchedTxs.cached, before, after), count);
    }

    /** `getLowestFetchedNonceFromBatch` */
    method GetLowestFetchedNonceFromBatch(batch: seq<Tx>) returns (r: int)
      requires AllBelow(batch, MAX_UINT32)
      ensures batch == [] ==> r == -1
      ensures batch != [] ==> exists k :: 0 <= k < |batch| && batch[k].nonce == r
      ensures forall k :: 0 <= k < |batch| ==> r <= batch[k].nonce
      ensures Descending(batch) ==> r == Lowest(batch)
    {
      assert forall k :: 0 <= k < |batch| ==> batch[k] in batch;
      var lowest := MAX_UINT32;
      for i := 0 to |batch|
        invariant if i == 0 then lowest == MAX_UINT32 else lowest < MAX_UINT32
        invariant forall k :: 0 <= k < i ==> lowest <= batch[k].nonce
        invariant i > 0 ==> exists k :: 0 <= k < i && batch[k].nonce == lowest
      {
        lowest := Min(lowest, batch[i].nonce);
      }
      r := if lowest == MAX_UINT32 then -1 else lowest;
    }

    /**
     `fetchTxs`: the newest `count` transactions of a token before a nonce, the last nonce whole, of the chain as far as
     the first page sees it. Later pages lie in the cache already.
     */
    method FetchTxs(node: Chain, count: nat, token: Option<Token>, before: Option<int>, meanwhile: seq<Ranges>)
      returns (txs: seq<Tx>)
      requires Valid(node)
      modifies fetchedTxs
      ensures Valid(node)
      ensures var end := EndSeen(|node|, |old(fetchedTxs.cached)|, meanwhile);
              && end <= |node|
              && txs == TakeWhole(TokenHistory(Seen(node), token, Min(Clip(Seen(node), before), end)), count)
    {
      hide Seen, TakeWhole, Between, CacheOk, Contiguous, Paged, WholeLength, ValidChain, Filter, Truthy, TokenHistory,
        EndSeen;
      ghost var chain := Seen(node);
      SeenIsValid(node);
      EndIsOnChain(node, meanwhile);
      ghost var start := Min(Clip(chain, before), EndSeen(|node|, |fetchedTxs.cached|, meanwhile));
      var res: seq<Option<Tx>> := [];
      var fetchedCount := 0;
      var beforeInner: int := if before.None? then MAX_SAFE_INTEGER else before.value;
      var others := meanwhile;
      ghost var from: int := if beforeInner < 0 then beforeInner else start;
      ghost var seen: seq<Tx> := [];
      NothingPaged(chain, start, from, token);
      while beforeInner >= 0 && fetchedCount < count
        invariant Valid(node) && Paged(chain, start, seen, from)
        invariant From(chain, from, beforeInner, EndSeen(|node|, |fetchedTxs.cached|, others))
        invariant Truthy(res) == Filter(seen, token) && fetchedCount == |Filter(seen, token)|
        invariant count == 0 ==> res == []
        decreases beforeInner
      {
        var batch := GetTxs(node, count, Some(beforeInner), others);
        others := [];
        var filteredBatch := FilterBatch(batch, token);
        TruthyConcat(res, filteredBatch);
        FilterConcat(seen, batch, token);
        res := res + filteredBatch;
        fetchedCount := fetchedCount + |Truthy(filteredBatch)|;
        OnePage(chain, start, seen, from, count, batch);
        seen := seen + batch;
        beforeInner := GetLowestFetchedNonceFromBatch(batch);
        from := beforeInner;
        EndIsOnChain(node, []);
      }
      PagesSuffice(chain, start, seen, from, token, count);
      txs := GetTxsInNonceRange(Truthy(res), count);
    }

    /** The inner loop of `fetchTxs`: transactions of other tokens become `undefined`. */
    method FilterBatch(batch: seq<Tx>, token: Option<Token>) returns (filteredBatch: seq<Option<Tx>>)
      ensures Truthy(filteredBatch) == Filter(batch, token)
    {
      filteredBatch := [];
      for k := 0 to |batch|
        invariant Truthy(filteredBatch) == Filter(batch[..k], token)
      {
        var entry := if Matches(batch[k], token) then Some(batch[k]) else None;
        FilterSnoc(batch, k, token);
        TruthySnoc(filteredBatch, entry);
        filteredBatch := filteredBatch + [entry];
      }
      assert batch[..|batch|] == batch;
    }

    /**
     `getPrivateBalanceFromTxHistory`: the fold over the whole history of the token, as far as the run sees it. A batch
     size of zero reads nothing.
     */
    method GetPrivateBalanceFromTxHistory(node: Chain, token: Token, before: Option<int>, batchSize: nat,
          meanwhile: seq<Ranges>)
      returns (totalBalance: int)
      requires Valid(node)
      modifies fetchedTxs
      ensures Valid(node)
      ensures var end := EndSeen(|node|, |old(fetchedTxs.cached)|, meanwhile);
              && end <= |node|
              && totalBalance == if batchSize == 0 then 0
                                 else LedgerBalance(Seen(node), token, Min(Clip(Seen(node), before), end))
    {
      hide EndSeen, Seen;
      ghost var chain := Seen(node);
      SeenIsValid(node);
      EndIsOnChain(node, meanwhile);
      ghost var start := Min(Clip(chain, before), EndSeen(|node|, |fetchedTxs.cached|, meanwhile));
      var lowestFetchedNonce: int := if before.None? then MAX_SAFE_INTEGER else before.value;
      var others := meanwhile;
      ghost var from: int := if lowestFetchedNonce < 0 then lowestFetchedNonce else start;
      totalBalance := 0;
      while lowestFetchedNonce >= 0
        invariant Valid(node) && From(chain, from, lowestFetchedNonce, EndSeen(|node|, |fetchedTxs.cached|, others))
        invariant if batchSize == 0 then totalBalance == 0
                  else totalBalance + Balance(Rest(chain, Some(token), from)) == LedgerBalance(chain, token, start)
        decreases lowestFetchedNonce
      {
        var batch := FetchTxs(node, batchSize, Some(token), Some(lowestFetchedNonce), others);
        others := [];
        if batchSize > 0 {
          PageSeam(chain, Some(token), from, batchSize);
          BalanceConcat(batch, Rest(chain, Some(token), Lowest(batch)));
        }
        totalBalance := AddUp(batch, totalBalance);
        lowestFetchedNonce := GetLowestFetchedNonceFromBatch(batch);
        from := lowestFetchedNonce;
        EndIsOnChain(node, []);
      }
    }

    /** The inner loop of `getPrivateBalanceFromTxHistory`. */
    method AddUp(batch: seq<Tx>, soFar: int) returns (totalBalance: int)
      ensures totalBalance == soFar + Balance(batch)
    {
      totalBalance := soFar;
      for i := 0 to |batch|
        invariant totalBalance == soFar + Balance(batch[..i])
      {
        assert batch[..i + 1] == batch[..i] + [batch[i]] && [batch[i]][1..] == [];
        BalanceConcat(batch[..i], [batch[i]]);
        if batch[i].txType == Topup {
          totalBalance := totalBalance + batch[i].amount;
        } else {
          totalBalance := totalBalance - batch[i].amount - batch[i].fee;
        }
      }
      assert batch[..|batch|] == batch;
    }

    /** `getPrivateBalanceFromMetadata`: back to the newest send that carries its balance. */
    method GetPrivateBalanceFromMetadata(node: Chain, token: Token, before: Option<int>, batchSize: nat,
          meanwhile: seq<Ranges>)
      returns (r: Result<int>)
      requires Valid(node)
      modifies fetchedTxs
      ensures Valid(node)
      ensures var end := EndSeen(|node|, |old(fetchedTxs.cached)|, meanwhile);
              && end <= |node|
              && r == if batchSize == 0 then Ok(0)
                      else MetadataBalance(TokenHistory(Seen(node), Some(token), Min(Clip(Seen(node), before), end)), 0)
    {
      hide EndSeen, Seen;
      ghost var chain := Seen(node);
      SeenIsValid(node);
      EndIsOnChain(node, meanwhile);
      ghost var start := Min(Clip(chain, before), EndSeen(|node|, |fetchedTxs.cached|, meanwhile));
      var lowestFetchedNonce: int := if before.None? then MAX_SAFE_INTEGER else before.value;
      var others := meanwhile;
      ghost var from: int := if lowestFetchedNonce < 0 then lowestFetchedNonce else start;
      var totalBalance := 0;
      ghost var goal := MetadataBalance(TokenHistory(chain, Some(token), start), 0);
      while lowestFetchedNonce >= 0
        invariant Valid(node) && From(chain, from, lowestFetchedNonce, EndSeen(|node|, |fetchedTxs.cached|, others))
        invariant if batchSize == 0 then totalBalance == 0
                  else MetadataBalance(Rest(chain, Some(token), from), totalBalance) == goal
        decreases lowestFetchedNonce
      {
        var batch := FetchTxs(node, batchSize, Some(token), Some(lowestFetchedNonce), others);
        others := [];
        if batchSize > 0 {
          PageSeam(chain, Some(token), from, batchSize);
          RestBelow(chain, Some(token), Lowest(batch));
        }
        var found, balance := SearchBatch(batch, totalBalance, Rest(chain, Some(token), Lowest(batch)));
        if found {
          return balance;
        }
        totalBalance := balance.value;
        lowestFetchedNonce := GetLowestFetchedNonceFromBatch(batch);
        from := lowestFetchedNonce;
        EndIsOnChain(node, []);
      }
      return Ok(totalBalance);
    }

    /** The inner loop of `getPrivateBalanceFromMetadata`; `rest` is the history below the batch. */
    method SearchBatch(batch: seq<Tx>, soFar: int, ghost rest: seq<Tx>) returns (found: bool, r: Result<int>)
      requires forall t :: t in batch ==> AllBelow(rest, t.nonce)
      ensures if found then r == MetadataBalance(batch + rest, soFar)
              else r.Ok? && MetadataBalance(rest, r.value) == MetadataBalance(batch + rest, soFar)
      ensures batch == [] ==> !found && r == Ok(soFar)
    {
      var totalBalance := soFar;
      assert batch[0..] == batch;
      for i := 0 to |batch|
        invariant MetadataBalance(batch[i..] + rest, totalBalance) == MetadataBalance(batch + rest, soFar)
        invariant i == 0 ==> totalBalance == soFar
      {
        assert (batch[i..] + rest)[0] == batch[i] && (batch[i..] + rest)[1..] == batch[i + 1..] + rest;
        if batch[i].txType == Send {
          var mostRecentSend := batch[i];
          if mostRecentSend.metadata.Some? {
            var sameNonce := AtNonce(batch[i + 1..], mostRecentSend.nonce);
            SameNonceIsInPage(batch[i + 1..], rest, mostRecentSend.nonce);
            if HasSend(sameNonce) {
              return true, Err(TwoSends);
            }
            return true, Ok(mostRecentSend.metadata.value.balance + totalBalance + TopupSum(sameNonce));
          }
          totalBalance := totalBalance - mostRecentSend.amount - mostRecentSend.fee;
        } else {
          totalBalance := totalBalance + batch[i].amount;
        }
      }
      assert batch[|batch|..] + rest == rest;
      return false, Ok(totalBalance);
    }

    /** `getMostRecentTx`: the newest transaction the run gets to see. */
    method GetMostRecentTx(node: Chain, meanwhile: seq<Ranges>) returns (r: Option<Tx>)
      requires Valid(node)
      modifies fetchedTxs
      ensures Valid(node)
      ensures var end := EndSeen(|node|, |old(fetchedTxs.cached)|, meanwhile);
              end <= |node| && r == Newest(Seen(node), end)
    {
      hide EndSeen;
      var txs := GetTxs(node, 1, None, meanwhile);
      r := if txs == [] then None else Some(txs[0]);
    }

    /**
     A call that returns a stale transaction: another run has completed the first two steps by the time the first one
     of this run is answered, and the chain goes on beyond them.
     */
    method GetMostRecentTxTooLate(node: Chain) returns (r: Option<Tx>)
      requires Valid(node) && |fetchedTxs.cached| + 2 * DEFAULT_FETCH_BATCH_SIZE < |node|
      modifies fetchedTxs
      ensures Valid(node)
      ensures r.Some? && r.value.nonce == |old(fetchedTxs.cached)| + 2 * DEFAULT_FETCH_BATCH_SIZE - 1 < |node| - 1
    {
      hide EndSeen, Seen;
      TwoStepsAhead(|node|, |fetchedTxs.cached|);
      SeenIsValid(node);
      NewestHasNonce(Seen(node), |fetchedTxs.cached| + 2 * DEFAULT_FETCH_BATCH_SIZE);
      r := GetMostRecentTx(node, [TwoSteps(|fetchedTxs.cached|)]);
    }

    /** `getActiveTxs`: the newest send of the token and the topups it has not used, of the chain as the run sees it. */
    method GetActiveTxs(node: Chain, token: Token, beforeSend: Option<int>, meanwhile: seq<Ranges>)
      returns (res: seq<Tx>)
      requires Valid(node)
      modifies fetchedTxs
      ensures Valid(node)
      ensures var end := EndSeen(|node|, |old(fetchedTxs.cached)|, meanwhile);
              end <= |node| && res == ActiveTxs(Seen(node), token, Min(Clip(Seen(node), beforeSend), end))
    {
      hide EndSeen;
      ghost var chain := Seen(node);
      SeenIsValid(node);
      var mostRecentTxs := FetchTxs(node, SEND_ARITY, Some(token), beforeSend, meanwhile);
      for i := 0 to |mostRecentTxs|
        invariant NewestSend(mostRecentTxs) >= i
      {
        var curr := mostRecentTxs[i];
        if curr.txType == Send {
          assert NewestSend(mostRecentTxs) == i;
          var upToSend := mostRecentTxs[..i + 1];
          return upToSend + LateTopups(mostRecentTxs, curr.nonce, upToSend);
        }
        assert i < NewestSend(mostRecentTxs);
      }
      return mostRecentTxs;
    }
  }

  /** What is read after the gaps of a page were filled. */
  lemma PageRead(chain: Chain, was: Slots, cached: Slots, before: Option<nat>, after: int, count: nat)
    requires ValidChain(chain) && CacheOk(chain, was) && CacheOk(chain, cached)
    requires var n := ReadEnd(was, before);
             && after == (if n - count - 1 > -1 then n - count - 1 else -1)
             && Filled(chain, cached, after + 1, n)
             && forall k: nat :: !(after < k < n) ==> Slot(cached, k) == Slot(was, k)
    ensures TakeWhole(CachedTxs(cached, before, after), count) == TakeWhole(History(chain, ReadEnd(was, before)), count)
    ensures count > 0 || CachedTxs(cached, before, after) == []
  {
    var n := ReadEnd(was, before);
    if n > 0 { assert n > after + 1 ==> ValidSlot(chain[n - 1], n - 1); }
    SameLength(was, cached, |was|);
    CachedTxsIsBetween(chain, cached, before, after);
    PageIsEnough(chain, n, after, count);
  }

  /** Fetching before `before` and seeing no further than `end` comes to fetching before `from`. */
  ghost predicate From(chain: Chain, from: int, before: int, end: nat) {
    && from <= before && (before < 0 <==> from < 0) && end <= |chain|
    && (from >= 0 ==> Clip(chain, Some(from)) == Min(Clip(chain, Some(before)), end))
  }

  lemma FilledIsGrown(node: Chain, was: Slots, cached: Slots, lo: int, hi: int, done: Ranges)
    requires Contiguous(node) && CacheOk(Seen(node), was) && FilledWith(Seen(node), was, cached, lo, hi, done)
    ensures Grown(was, cached)
  {
    SlotsOfCache(Seen(node), was);
  }

  lemma NothingDoneYet(meanwhile: seq<Ranges>)
    ensures Done(meanwhile, 0) == []
  {
  }

  lemma NewestHasNonce(chain: Chain, n: nat)
    requires ValidChain(chain) && 0 < n <= |chain|
    ensures Newest(chain, n).Some? && Newest(chain, n).value.nonce == n - 1
  {
    assert ValidSlot(chain[n - 1], n - 1);
    assert Reverse(chain[n - 1])[0] in chain[n - 1];
  }

  lemma Completed(node: Chain, cached: Slots, now: Slots, batches: seq<Batch>, requested: seq<nat>, lo: int, hi: int)
    requires Underway(node, cached, batches, requested, lo, hi)
    requires forall n: nat :: Slot(now, n)
              == if Awaited(batches, {}, n) then ChainAt(Seen(node), n) else Slot(cached, n)
    ensures Filled(Seen(node), now, lo, hi)
    ensures forall n: nat :: !(lo <= n < hi) ==> Slot(now, n) == Slot(cached, n)
  {
    forall n: nat | Awaited(batches, {}, n)
      ensures lo <= n < hi
    {
      var k :| 0 <= k < |batches| && Holds(batches[k], n);
      assert AnswerFor(node, cached, batches[k], lo, hi);
    }
  }

  /** No other batch holds a nonce of batch `k`. */
  lemma BatchUntouched(node: Chain, cached: Slots, batches: seq<Batch>, open: set<nat>, k: nat, lo: int, hi: int)
    requires BatchesFor(node, cached, batches, lo, hi) && k < |batches| && k in open
    ensures AnswerFor(node, cached, batches[k], lo, hi)
    ensures forall n: nat :: Holds(batches[k], n) ==> !Awaited(batches, open, n)
  {
  }

  lemma BatchDone(node: Chain, cached: Slots, now: Slots, next: Slots, batches: seq<Batch>, open: set<nat>, k: nat)
    requires k < |batches|
    requires forall n: nat :: Slot(now, n)
              == if Awaited(batches, open, n) then ChainAt(Seen(node), n) else Slot(cached, n)
    requires Filled(Seen(node), next, batches[k].lo, batches[k].hi)
    requires forall n: nat :: !(batches[k].lo <= n < batches[k].hi) ==> Slot(next, n) == Slot(now, n)
    ensures forall n: nat :: Slot(next, n)
              == if Awaited(batches, open - {k}, n) then ChainAt(Seen(node), n) else Slot(cached, n)
  {
    forall n: nat
      ensures Slot(next, n) == if Awaited(batches, open - {k}, n) then ChainAt(Seen(node), n) else Slot(cached, n)
    {
      assert Awaited(batches, open - {k}, n) <==> Awaited(batches, open, n) || Holds(batches[k], n);
      assert Holds(batches[k], n) ==> Slot(next, n) == ChainAt(Seen(node), n);
    }
  }

  /** `count` nonces hold at least `count` transactions, so a page never needs to look further back. */
  lemma PageIsEnough(chain: Chain, n: nat, after: int, count: nat)
    requires ValidChain(chain) && n <= |chain| && after == if n - count - 1 > -1 then n - count - 1 else -1
    ensures TakeWhole(Between(chain, after + 1, n), count) == TakeWhole(History(chain, n), count)
  {
    BetweenSplit(chain, 0, after + 1, n);
    BetweenBounds(chain, after + 1, n);
    BetweenBounds(chain, 0, after + 1);
    var a, b := Between(chain, after + 1, n), Between(chain, 0, after + 1);
    assert a != [] ==> a[|a| - 1] in a;
    assert b != [] ==> b[0] in b;
    TakeWholePrefix(a, b, count);
  }

  // ---------------------------------------------------------------- paging

  /** `filter(isTruthy)` */
  function Truthy(txs: seq<Option<Tx>>): seq<Tx> {
    if txs == [] then []
    else if txs[|txs| - 1].Some? then Truthy(txs[..|txs| - 1]) + [txs[|txs| - 1].value]
    else Truthy(txs[..|txs| - 1])
  }

  lemma TruthySnoc(txs: seq<Option<Tx>>, t: Option<Tx>)
    ensures Truthy(txs + [t]) == if t.Some? then Truthy(txs) + [t.value] else Truthy(txs)
  {
    assert (txs + [t])[..|txs|] == txs;
  }

  lemma {:induction false} TruthyConcat(a: seq<Option<Tx>>, b: seq<Option<Tx>>)
    ensures Truthy(a + b) == Truthy(a) + Truthy(b)
  {
    if b == [] {
      assert a + b == a;
    } else {
      var init := b[..|b| - 1];
      TruthyConcat(a, init);
      assert a + b == (a + init) + [b[|b| - 1]];
      TruthySnoc(a + init, b[|b| - 1]);
    }
  }

  lemma FilterSnoc(txs: seq<Tx>, k: nat, token: Option<Token>)
    requires k < |txs|
    ensures Filter(txs[..k + 1], token)
            == if Matches(txs[k], token) then Filter(txs[..k], token) + [txs[k]] else Filter(txs[..k], token)
  {
    assert txs[..k + 1] == txs[..k] + [txs[k]] && [txs[k]][1..] == [];
    FilterConcat(txs[..k], [txs[k]], token);
  }

  /** The lowest nonce of a page, or -1. */
  function Lowest(batch: seq<Tx>): int { if batch == [] then -1 else batch[|batch| - 1].nonce }

  /** What is left of a token's history before `before`. */
  function Rest(chain: Chain, token: Option<Token>, before: int): seq<Tx> {
    TokenHistory(chain, token, Clip(chain, Some(before)))
  }

  lemma RestBelow(chain: Chain, token: Option<Token>, before: int)
    requires ValidChain(chain)
    ensures AllBelow(Rest(chain, token, before), before)
  {
    TokenHistoryBounds(chain, token, Clip(chain, Some(before)));
    if before < 0 { assert Rest(chain, token, before) == []; }
  }

  /** A page is a seam: the history before it is the page and what is left before its lowest nonce. */
  lemma PageSeam(chain: Chain, token: Option<Token>, before: int, count: nat)
    requires ValidChain(chain) && before >= 0 && count > 0
    ensures var batch := TakeWhole(Rest(chain, token, before), count);
            && Rest(chain, token, before) == batch + Rest(chain, token, Lowest(batch))
            && Lowest(batch) < before
            && Descending(batch) && AllFrom(batch, Lowest(batch)) && AllBelow(batch, MAX_UINT32)
  {
    var n := Clip(chain, Some(before));
    var history := TokenHistory(chain, token, n);
    var m := WholeLength(history, count);
    TokenHistoryBounds(chain, token, n);
    PrefixBounds(history, m, n);
    if m > 0 {
      CutIsSeam(chain, token, n, m);
    } else {
      assert history == [] && Rest(chain, token, -1) == [];
    }
  }

  lemma CutIsSeam(chain: Chain, token: Option<Token>, n: nat, m: nat)
    requires ValidChain(chain) && n <= |chain|
    requires var f := TokenHistory(chain, token, n);
             0 < m <= |f| && (m < |f| ==> f[m].nonce != f[m - 1].nonce)
    ensures var f := TokenHistory(chain, token, n);
            f[m - 1].nonce < n && f == f[..m] + Rest(chain, token, f[m - 1].nonce)
  {
    HistoryAfterPage(chain, token, n, m);
    var f := TokenHistory(chain, token, n);
    assert Clip(chain, Some(f[m - 1].nonce)) == f[m - 1].nonce;
    assert f == f[..m] + f[m..];
  }

  lemma PrefixBounds(history: seq<Tx>, m: nat, n: nat)
    requires m <= |history| && Descending(history) && AllBelow(history, n)
    ensures Descending(history[..m]) && AllBelow(history[..m], n) && AllFrom(history[..m], Lowest(history[..m]))
  {
    assert forall i :: 0 <= i < m ==> history[..m][i] == history[i] && history[i] in history;
  }

  /** The pages seen so far are the history above `beforeInner`, to whole nonces. */
  ghost predicate Paged(chain: Chain, start: nat, seen: seq<Tx>, beforeInner: int) {
    && start <= |chain|
    && History(chain, start) == seen + History(chain, Clip(chain, Some(beforeInner)))
    && AllFrom(seen, Clip(chain, Some(beforeInner)))
  }

  lemma {:induction false} FilterNone(txs: seq<Tx>)
    ensures Filter(txs, None) == txs
  {
    if txs != [] { FilterNone(txs[1..]); }
  }

  /** One more page keeps the pages seaming. */
  lemma NextPage(chain: Chain, start: nat, seen: seq<Tx>, beforeInner: int, batch: seq<Tx>)
    requires ValidChain(chain) && Paged(chain, start, seen, beforeInner)
    requires Rest(chain, None, beforeInner) == batch + Rest(chain, None, Lowest(batch))
    requires Lowest(batch) < beforeInner && AllFrom(batch, Lowest(batch))
    ensures Paged(chain, start, seen + batch, Lowest(batch))
  {
    var low := Clip(chain, Some(Lowest(batch)));
    FilterNone(History(chain, Clip(chain, Some(beforeInner))));
    FilterNone(History(chain, low));
    assert seen + (batch + History(chain, low)) == seen + batch + History(chain, low);
  }

  lemma NothingPaged(chain: Chain, start: nat, from: int, token: Option<Token>)
    requires start == Clip(chain, Some(from))
    ensures Paged(chain, start, [], from) && Truthy([]) == Filter([], token) == []
  {
  }

  lemma OnePage(chain: Chain, start: nat, seen: seq<Tx>, beforeInner: int, count: nat, batch: seq<Tx>)
    requires ValidChain(chain) && Paged(chain, start, seen, beforeInner) && beforeInner >= 0 && count > 0
    requires batch == TakeWhole(History(chain, Clip(chain, Some(beforeInner))), count)
    ensures Paged(chain, start, seen + batch, Lowest(batch))
    ensures Lowest(batch) < beforeInner && Descending(batch) && AllBelow(batch, MAX_UINT32)
  {
    FilterNone(History(chain, Clip(chain, Some(beforeInner))));
    PageSeam(chain, None, beforeInner, count);
    NextPage(chain, start, seen, beforeInner, batch);
  }

  /** When enough was seen, or everything, the page of what was seen is the page of the whole history. */
  lemma PagesSuffice(chain: Chain, start: nat, seen: seq<Tx>, beforeInner: int, token: Option<Token>, count: nat)
    requires ValidChain(chain) && Paged(chain, start, seen, beforeInner)
    requires |Filter(seen, token)| >= count || beforeInner < 0
    ensures TakeWhole(TokenHistory(chain, token, start), count) == TakeWhole(Filter(seen, token), count)
  {
    var n := Clip(chain, Some(beforeInner));
    var a, b := Filter(seen, token), TokenHistory(chain, token, n);
    FilterConcat(seen, History(chain, n), token);
    FilterElements(seen, token);
    TokenHistoryBounds(chain, token, n);
    assert a != [] ==> a[|a| - 1] in a;
    assert b != [] ==> b[0] in b;
    TakeWholePrefix(a, b, count);
  }

  /** Whatever shares the nonce of a transaction of the page is in the page. */
  lemma SameNonceIsInPage(above: seq<Tx>, below: seq<Tx>, n: nat)
    requires AllBelow(below, n)
    ensures AtNonce(above + below, n) == AtNonce(above, n)
  {
    AtNonceConcat(above, below, n);
    AtNonceElements(below, n);
  }
}
