/**
 Trees on which topups can be sent: whatever consecutive topups are asked for on an empty chain, there are trees that
 hold what is unspent whenever one of them is built, so what `TopupEstimate` says of such trees is said of something.
 */
module ServingTrees {
  import opened Common
  import opened Decimal
  import opened Ledger
  import opened TransactionManager
  import opened CommitmentMachine
  import opened Topups
  import opened Overfull
  import opened ChunkScan
  import opened AnyStarts
  import opened FullTree
  import opened CrossedStarts
  import opened Activation
  import opened TopupEstimate

  // ---------------------------------------------------------------- equal start indices

  lemma {:induction false} SameStarts(comms: seq<Storage.Sought>, a: nat, x: nat)
    requires forall c :: c in comms ==> c.at.indexInAccount == x
    ensures forall i :: 0 <= i < |Storage.Starts(Storage.InAccount(comms, a), a)| ==>
              Storage.Starts(Storage.InAccount(comms, a), a)[i] == x
  {
    var g := Storage.InAccount(comms, a);
    Search.InAccountIs(comms, a);
    assert forall i :: 0 <= i < |g| ==> g[i] in g;
  }

  /** With equal start indices nothing can be skipped. */
  lemma {:induction false} EqualStartsScan(hashes: seq<Hash>, own: seq<nat>, s: nat)
    requires |hashes| == |own| && forall i :: 0 <= i < |own| ==> own[i] == s
    ensures StartsScan(Want(hashes, own))
  {
    var qs := Openings.Queries(Want(hashes, own));
    if Search.ToSought(qs).Ok? {
      var comms := Search.ToSought(qs).value;
      Search.ToSoughtIs(qs);
      forall a: nat ensures NoSkips(Storage.Starts(Storage.InAccount(comms, a), a)) {
        if comms != [] {
          forall c | c in comms ensures c.at == comms[0].at {
            var i :| 0 <= i < |comms| && comms[i] == c;
            assert comms[i] == Search.Entry(qs, i) && comms[0] == Search.Entry(qs, 0);
          }
          SameStarts(comms, a, comms[0].at.indexInAccount);
        }
        var starts := Storage.Starts(Storage.InAccount(comms, a), a);
        SortDecimalKeeps(starts);
        assert forall i :: 0 <= i < |SortDecimal(starts)| ==> SortDecimal(starts)[i] in SortDecimal(starts);
        AscendingIsSafe(starts);
      }
    }
  }

  // ---------------------------------------------------------------- a tree for one topup

  lemma {:induction false} HashesOfMore(h: Commitment -> Hash, cs: seq<Commitment>, c: Commitment)
    requires CollisionFree(h) && ProperHashes(MapTo(cs, h)) && c !in cs
    ensures ProperHashes(MapTo(cs, h) + [h(c)])
  {
    var hashes := MapTo(cs, h);
    assert forall i :: 0 <= i < |cs| ==> hashes[i] == h(cs[i]) && cs[i] in cs;
  }

  lemma HoldsFewer(p: Openings.Poseidon, tree: Tree, hashes: seq<Hash>, own: seq<nat>, hash: Hash, start: nat)
    requires |hashes| == |own| && TreeHolds(p, tree, hashes + [hash], own + [start])
    ensures Storage.WellSized(tree) && TreeHolds(p, tree, hashes, own) && Lies(Storage.Flat(tree), hash, start)
    ensures Search.SpareEmpty(Storage.Flat(tree))
  {
    hide Lies, Openings.KeptUp, Openings.Stored, Storage.WellSized, Openings.AllActive;
    var flat := Storage.Flat(tree);
    forall i | 0 <= i < |hashes| ensures Lies(flat, hashes[i], own[i]) {
      assert Lies(flat, (hashes + [hash])[i], (own + [start])[i]);
    }
    assert Lies(flat, (hashes + [hash])[|hashes|], (own + [start])[|own|]);
  }

  /** All transactions start at the same leaf. */
  ghost predicate AllAt(chain: Chain, s: nat) { forall n, t :: 0 <= n < |chain| && t in chain[n] ==> t.startIndex == s }

  lemma NewestAt(chain: Chain, s: nat)
    requires Invariant(chain) && AllAt(chain, s)
    ensures Newest(chain, |chain|).Some? ==> Newest(chain, |chain|).value.startIndex == s
    ensures forall token, t :: t in TokenHistory(chain, Some(token), |chain|) ==> t.startIndex == s
  {
    HistoryElements(chain, |chain|);
    forall token, t | t in TokenHistory(chain, Some(token), |chain|) ensures t.startIndex == s {
      FilterElements(History(chain, |chain|), Some(token));
    }
  }

  /** The newest transaction is found again, when every token is in order. */
  lemma NewestRebuilt(chain: Chain)
    requires forall token :: TokenOk(chain, token)
    ensures var t := Newest(chain, |chain|); t.Some? ==> Rebuilt(chain, t.value)
  {
    var newest := Newest(chain, |chain|);
    if newest.Some? {
      var t := newest.value;
      assert TokenOk(chain, t.token);
      FilterElements(History(chain, |chain|), Some(t.token));
      RecordedIsRebuilt(chain, t);
    }
  }

  /** The start indices of the active commitments, when all are the same. */
  lemma {:induction false} ActiveAt(h: Commitment -> Hash, chain: Chain, token: Token, s: nat)
    returns (cs: seq<Commitment>)
    requires Reachable(chain) && TokenOk(chain, token) && CollisionFree(h) && AllAt(chain, s) && s + 5 <= 1_048_576
    ensures PageRebuilt(chain, token) && Roomy(ActiveTxs(chain, token, |chain|)) && ActiveScan(h, chain, token)
    ensures ActiveCommitments(chain, token) == Ok(cs) && |StartsOf(cs)| == |cs| <= SEND_ARITY
    ensures ProperHashes(MapTo(cs, h)) && forall i :: 0 <= i < |cs| ==> StartsOf(cs)[i] == s
  {
    hide Reachable, TokenOk, CollisionFree, ActiveTxs, AllAt, ActiveCommitments, ProperHashes, SameAccounts,
      LateInSendsAccount, StartsScan, Invariant, PageRebuilt, Sound;
    OkPage(chain, token);
    ReachableInvariant(chain);
    LostOutputs.SoundToken(chain, token);
    NewestAt(chain, s);
    var active := ActiveTxs(chain, token, |chain|);
    forall t | t in active ensures t.startIndex == s { ActiveAmongHistory(chain, token, t); }
    var txs, own, starts;
    txs, cs, own, starts := ActiveStarts(h, chain, token);
    StartIndicesAt(txs);
    forall i | 0 <= i < |own| ensures own[i] == s {
      assert own[i] in multiset(starts);
      var j :| 0 <= j < |starts| && starts[j] == own[i];
      assert txs[j] in txs;
    }
    EqualStartsScan(MapTo(cs, h), own, s);
  }

  /** There is a tree for the next topup. */
  lemma {:induction false} ATreeServes(p: Openings.Poseidon, h: Commitment -> Hash, chain: Chain, token: Token, s: nat)
    returns (tree: Tree)
    requires Reachable(chain) && (forall t :: TokenOk(chain, t)) && AllAt(chain, s) && s + 5 <= 1_048_576
    requires CollisionFree(h) && Storable(p)
    ensures Storage.WellSized(tree) && Serves(p, h, tree, chain, token)
  {
    hide Reachable, TokenOk, CollisionFree, Storable, ActiveTxs, AllAt, ActiveCommitments, ProperHashes, Roomy,
      ActiveScan, TreeHolds, Lies, Search.SpareEmpty, Storage.WellSized, Rebuilt, Invariant, PageRebuilt, StartsOf;
    var cs := ActiveAt(h, chain, token, s);
    ReachableInvariant(chain);
    NewestAt(chain, s);
    NewestRebuilt(chain);
    var hashes, own := MapTo(cs, h), StartsOf(cs);
    var newest := Newest(chain, |chain|);
    if newest.Some? && newest.value.commitment !in cs {
      var c := newest.value.commitment;
      HashesOfMore(h, cs, c);
      tree := ATreeHolds(p, hashes + [h(c)], own + [s], map[], 0);
      HoldsFewer(p, tree, hashes, own, h(c), s);
    } else {
      tree := ATreeHolds(p, hashes, own, map[], 0);
      HeldSpare(p, tree, hashes, own);
      if newest.Some? { NewestHeld(h, p, tree, cs, newest.value.commitment, s); }
    }
  }

  lemma HeldSpare(p: Openings.Poseidon, tree: Tree, hashes: seq<Hash>, own: seq<nat>)
    requires |hashes| == |own| && TreeHolds(p, tree, hashes, own)
    ensures Storage.WellSized(tree) && Search.SpareEmpty(Storage.Flat(tree))
  {
  }

  lemma NewestHeld(h: Commitment -> Hash, p: Openings.Poseidon, tree: Tree, cs: seq<Commitment>, c: Commitment, s: nat)
    requires |StartsOf(cs)| == |cs| && TreeHolds(p, tree, MapTo(cs, h), StartsOf(cs)) && c in cs
    requires forall i :: 0 <= i < |cs| ==> StartsOf(cs)[i] == s
    ensures Storage.WellSized(tree) && Lies(Storage.Flat(tree), h(c), s)
  {
    var i :| 0 <= i < |cs| && cs[i] == c;
    assert MapTo(cs, h)[i] == h(c);
  }

  // ---------------------------------------------------------------- trees for all of them

  lemma AfterAt(h: Commitment -> Hash, tree: Tree, chain: Chain, q: Request, fee: nat, sig: nat)
    requires Storage.WellSized(tree) && AllAt(chain, q.startIndex) && TopUpNow(h, tree, chain, q, fee, sig).Ok?
    ensures AllAt(After(chain, TopUpNow(h, tree, chain, q, fee, sig).value), q.startIndex)
  {
    hide Activation.Activation, RecentNonce, Storage.WellSized;
  }

  ghost predicate AllStartAt(qs: seq<TopUpRequest>, s: nat) { forall i :: 0 <= i < |qs| ==> qs[i].q.startIndex == s }

  lemma {:induction false} SentAt(h: Commitment -> Hash, start: Chain, qs: seq<TopUpRequest>, s: nat)
    requires TreesSized(qs) && AllStartAt(qs, s) && AllAt(start, s)
    ensures SendTopUps(h, start, qs).Ok? ==> AllAt(SendTopUps(h, start, qs).value.0, s)
  {
    hide AllAt, TopUpNow, After, Storage.WellSized;
    if qs != [] && SendTopUps(h, start, qs).Ok? {
      var before, last := qs[..|qs| - 1], qs[|qs| - 1];
      SentAt(h, start, before, s);
      AfterAt(h, last.tree, SendTopUps(h, start, before).value.0, last.q, last.mergeFee, last.mergeSig);
    }
  }

  /** The same requests, but for the trees they find. */
  ghost predicate SameButTrees(a: seq<TopUpRequest>, b: seq<TopUpRequest>) {
    |a| == |b| && forall i :: 0 <= i < |a| ==>
      a[i].q == b[i].q && a[i].mergeFee == b[i].mergeFee && a[i].mergeSig == b[i].mergeSig
  }

  /**
   For any topups asked for on the empty chain, however many and of whatever tokens and amounts, all starting at one
   leaf, there are trees that serve them.
   */
  lemma {:induction false} TreesCanServe(p: Openings.Poseidon, h: Commitment -> Hash, qs: seq<TopUpRequest>, s: nat)
    returns (served: seq<TopUpRequest>)
    requires CollisionFree(h) && Storable(p) && SigsDiffer(qs) && AllStartAt(qs, s) && s + 5 <= 1_048_576
    requires 2 * |qs| <= MAX_UINT32
    ensures SameButTrees(served, qs) && TreesSized(served) && TreesServe(p, h, [], served)
    decreases |qs|
  {
    hide CollisionFree, Storable, SigsDiffer, TreeServes, Sent, Storage.WellSized, NoSharedSig;
    if qs == [] {
      served := [];
    } else {
      var before, last := qs[..|qs| - 1], qs[|qs| - 1];
      SigsOfBefore(qs);
      var first := TreesCanServe(p, h, before, s);
      var tree := NextTree(p, h, first, before, last.q.token, s);
      served := first + [last.(tree := tree)];
      assert served[..|first|] == first;
      ServedAfter(p, h, first, last.(tree := tree));
    }
  }

  lemma ServedAfter(p: Openings.Poseidon, h: Commitment -> Hash, first: seq<TopUpRequest>, last: TopUpRequest)
    requires TreesSized(first) && TreesServe(p, h, [], first) && Storage.WellSized(last.tree)
    requires TreeServes(p, h, SendTopUps(h, [], first), last)
    ensures TreesSized(first + [last]) && TreesServe(p, h, [], first + [last])
  {
    hide TreeServes, Storage.WellSized;
    var all := first + [last];
    forall n | 0 <= n < |all| ensures TreeServes(p, h, SendTopUps(h, [], all[..n]), all[n]) {
      if n < |first| {
        assert all[..n] == first[..n] && all[n] == first[n];
      } else {
        assert all[..n] == first;
      }
    }
  }

  lemma {:induction false} NextTree(p: Openings.Poseidon, h: Commitment -> Hash, first: seq<TopUpRequest>,
        before: seq<TopUpRequest>, token: Token, s: nat)
    returns (tree: Tree)
    requires CollisionFree(h) && Storable(p) && SigsDiffer(before) && AllStartAt(before, s) && s + 5 <= 1_048_576
    requires 2 * |before| <= MAX_UINT32 && SameButTrees(first, before)
    requires TreesSized(first) && TreesServe(p, h, [], first)
    ensures Storage.WellSized(tree)
    ensures forall last: TopUpRequest :: last.q.token == token && last.tree == tree ==>
              TreeServes(p, h, SendTopUps(h, [], first), last)
  {
    hide CollisionFree, Storable, TreesServe, Storage.WellSized, Serves, AllAt, Reachable;
    assert SigsDiffer(first) by { SigsAlike(first, before); }
    EmptyStart(first);
    MergesAsEstimated(p, h, [], first);
    var chain := SendTopUps(h, [], first).value.0;
    AtNothing(s);
    SentAt(h, [], first, s);
    forall t ensures TokenOk(chain, t) { OkOfSent(chain, Tokens(first), t); }
    tree := ATreeServes(p, h, chain, token, s);
  }

  lemma SigsAlike(a: seq<TopUpRequest>, b: seq<TopUpRequest>)
    requires SameButTrees(a, b) && SigsDiffer(b)
    ensures SigsDiffer(a)
  {
    forall i, j | 0 <= i < j < |a| ensures NoSharedSig(a[i], a[j]) {
      assert NoSharedSig(b[i], b[j]);
    }
  }

  lemma EmptyStart(qs: seq<TopUpRequest>)
    ensures Reachable([]) && StartsEmpty([], qs)
  {
  }

  lemma AtNothing(s: nat)
    ensures AllAt([], s)
  {
  }

  lemma OkOfSent(chain: Chain, tokens: seq<Token>, token: Token)
    requires AsCounted([], chain, tokens)
    ensures TokenOk(chain, token)
  {
    assert Unspent([], token, 0) == [];
    assert CountedOf(chain, token, Counted(tokens, token));
  }
}
