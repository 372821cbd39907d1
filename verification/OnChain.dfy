/**
 What is on chain, and what the SDK sees of it through its cache. Equal topups built from the same chain end up
 under one nonce with one commitment hash, and the cache keeps only the first
 (src/sdk/txManagers/TransactionCacher.ts:10-14).
 Whatever is on chain, what the SDK sees is a reachable chain, so what is proved of these holds of it. It shows the
 balance on chain less that of the dropped transactions, those with an equal one before them under their nonce.
 */
module OnChain {
  import opened Common
  import opened Ledger
  import opened TxCache
  import opened TransactionManager
  import opened CommitmentMachine
  import opened Topups
  import opened LostOutputs

  /**
   Transactions of one nonce on chain: not two sends of a token, different signatures. They may be equal to the cache.
   */
  ghost predicate ApartOnChain(t: Tx, u: Tx) {
    !(t.txType == Send == u.txType && t.token == u.token) && t.sig != u.sig
  }

  /** The transactions under the next nonce, each built from what the SDK sees of the chain. */
  ghost predicate RoundOnChain(chain: Chain, slot: seq<Tx>) {
    && LastNonce(Seen(chain)) >= -1
    && slot != [] && |chain| < MAX_UINT32
    && (forall t :: t in slot ==> Built(Seen(chain), t))
    && (forall i, j :: 0 <= i < j < |slot| ==> ApartOnChain(slot[i], slot[j]))
    && (forall t, n, u :: t in slot && 0 <= n < |chain| && u in chain[n] ==> t.sig != u.sig)
  }

  ghost predicate OnChain(chain: Chain) {
    chain != [] ==>
      var before := chain[..|chain| - 1];
      OnChain(before) && RoundOnChain(before, chain[|chain| - 1])
  }

  // ---------------------------------------------------------------- what the SDK sees is reachable

  /** Two transactions of a seen nonce are different, so they stood at different places on chain. */
  lemma SeenApart(slot: seq<Tx>, n: nat)
    requires SlotOfNonce(slot, n) && forall i, j :: 0 <= i < j < |slot| ==> ApartOnChain(slot[i], slot[j])
    ensures PairwiseApart(SeenSlot(slot))
  {
    SeenSlotKeeps(slot, n);
    var seen := SeenSlot(slot);
    forall i, j | 0 <= i < j < |seen| ensures Apart(seen[i], seen[j]) {
      assert seen[i] in slot && seen[j] in slot;
      var k, l :| 0 <= k < |slot| && 0 <= l < |slot| && slot[k] == seen[i] && slot[l] == seen[j];
      assert k < l ==> ApartOnChain(slot[k], slot[l]);
      assert l < k ==> ApartOnChain(slot[l], slot[k]);
    }
  }

  lemma SeenElements(chain: Chain, n: nat)
    requires Contiguous(chain) && n < |chain|
    ensures forall u :: u in Seen(chain)[n] ==> u in chain[n]
  {
    assert SlotOfNonce(chain[n], n);
    SeenSlotKeeps(chain[n], n);
  }

  lemma SeenRound(chain: Chain, slot: seq<Tx>)
    requires Contiguous(chain) && Invariant(Seen(chain)) && RoundOnChain(chain, slot)
    ensures LastNonce(Seen(chain)) >= -1 && Contiguous(chain + [slot])
    ensures Round(Seen(chain), SeenSlot(slot))
  {
    forall t | t in slot ensures t.nonce == |chain| {
      BuiltProper(Seen(chain), t);
    }
    SeenSlotKeeps(slot, |chain|);
    SeenApart(slot, |chain|);
    forall t, n, u | t in SeenSlot(slot) && 0 <= n < |Seen(chain)| && u in Seen(chain)[n] ensures t.sig != u.sig {
      SeenElements(chain, n);
      assert t in slot && u in chain[n];
    }
  }

  /** Whatever is on chain, what the SDK sees of it is a reachable chain. */
  lemma {:induction false} SeenIsReachable(chain: Chain)
    requires OnChain(chain)
    ensures Contiguous(chain) && Reachable(Seen(chain))
    decreases |chain|
  {
    hide RoundOnChain, Round, Contiguous, Invariant, Reachable;
    if chain == [] {
      NothingOnChain();
    } else {
      var before, slot := chain[..|chain| - 1], chain[|chain| - 1];
      SeenIsReachable(before);
      ReachableInvariant(Seen(before));
      SeenRound(before, slot);
      assert before + [slot] == chain;
      SeenStep(before, slot);
    }
  }

  /** Every reachable chain can stand on chain, and is then shown whole. */
  lemma {:induction false} ReachableIsOnChain(chain: Chain)
    requires Reachable(chain)
    ensures OnChain(chain) && Seen(chain) == chain
    decreases |chain|
  {
    hide Built, LastNonce;
    ReachableInvariant(chain);
    ShownWholeExactly(chain);
    if chain != [] {
      var before, slot := chain[..|chain| - 1], chain[|chain| - 1];
      ReachableIsOnChain(before);
      assert forall i, j :: 0 <= i < j < |slot| ==> Apart(slot[i], slot[j]);
    }
  }

  lemma NothingOnChain()
    ensures Contiguous([]) && Seen([]) == [] && Reachable([])
  {
  }

  lemma SeenStep(before: Chain, slot: seq<Tx>)
    requires Reachable(Seen(before)) && LastNonce(Seen(before)) >= -1
    requires Round(Seen(before), SeenSlot(slot))
    ensures Reachable(Seen(before + [slot]))
  {
    hide Reachable, Round;
    SeenGrows(before, [slot]);
    ReachableStep(Seen(before), SeenSlot(slot));
    assert Seen([slot]) == [SeenSlot(slot)];
  }

  /** Whatever is on chain, the fast balance is the balance of the history less what was lost up to the newest send. */
  lemma FastBalanceOnChain(chain: Chain, token: Token, before: Option<int>)
    requires OnChain(chain)
    ensures var view, n := Seen(chain), Clip(Seen(chain), before);
            MetadataBalance(TokenHistory(view, Some(token), n), 0)
            == Ok(LedgerBalance(view, token, n) - LostSum(view, token, MetadataEnd(view, token, n)))
  {
    hide OnChain, Reachable, Contiguous, TokenHistory, MetadataBalance, LedgerBalance, LostSum, MetadataEnd, Seen;
    SeenIsReachable(chain);
    FastBalanceExactly(Seen(chain), token, before);
  }

  /** The active transactions are the newest unspent outputs the SDK sees; with what was lost these hold the balance. */
  lemma ActiveOnChain(chain: Chain, token: Token, n: nat)
    requires OnChain(chain) && n <= |chain|
    ensures var view := Seen(chain);
            && ActiveTxs(view, token, n) == OnPage(Unspent(view, token, n), PageLength(view, token, n))
            && SumCommitted(Unspent(view, token, n)) + LostSum(view, token, n) == LedgerBalance(view, token, n)
  {
    SeenIsReachable(chain);
    ActiveInRun(Seen(chain), token, n);
    BalanceSplits(Seen(chain), token, n);
  }

  /**
   `getPrivateBalance`: through the cache, in batches of any size but 0, the ledger balance of what the SDK sees, less
   what was lost up to the newest send with metadata. It covers the chain as far as the run sees it.
   */
  method GetPrivateBalance(manager: TransactionManager, node: Chain, token: Token, before: Option<int>, batchSize: nat,
        meanwhile: seq<Ranges>)
    returns (r: Result<int>)
    requires OnChain(node) && manager.Valid(node)
    modifies manager.fetchedTxs
    ensures manager.Valid(node)
    ensures var view, end := Seen(node), EndSeen(|node|, |old(manager.fetchedTxs.cached)|, meanwhile);
            && end <= |node|
            && var n := Min(Clip(view, before), end);
            && r == Ok(if batchSize == 0 then 0
                       else LedgerBalance(view, token, n) - LostSum(view, token, MetadataEnd(view, token, n)))
  {
    hide OnChain, EndSeen, Seen, MetadataBalance, LedgerBalance, TokenHistory, LostSum, MetadataEnd;
    SeenLength(node);
    manager.EndIsOnChain(node, meanwhile);
    ghost var end := EndSeen(|node|, |manager.fetchedTxs.cached|, meanwhile);
    ghost var n := Min(Clip(Seen(node), before), end);
    FastBalanceOnChain(node, token, Some(n));
    r := manager.GetPrivateBalanceFromMetadata(node, token, before, batchSize, meanwhile);
  }

  lemma SeenLength(node: Chain)
    ensures |Seen(node)| == |node|
  {
  }

  // ---------------------------------------------------------------- what the cache drops

  /** An equal transaction stands before place `j`. */
  predicate Repeats(slot: seq<Tx>, j: nat)
    requires j < |slot|
  {
    exists i | 0 <= i < j :: slot[i].nonce == slot[j].nonce && slot[i].commitment == slot[j].commitment
  }

  /** The transactions of a nonce with an equal one before them. */
  function DroppedOf(slot: seq<Tx>): seq<Tx> {
    if slot == [] then []
    else
      var n := |slot| - 1;
      if Repeats(slot, n) then DroppedOf(slot[..n]) + [slot[n]] else DroppedOf(slot[..n])
  }

  /** What is dropped under each nonce. */
  function Dropped(chain: Chain): (r: Chain)
    ensures |r| == |chain|
  {
    seq(|chain|, n requires 0 <= n < |chain| => DroppedOf(chain[n]))
  }

  lemma {:induction false} InsertAllInSlotSnoc(slot: seq<Tx>, vals: seq<Tx>, val: Tx)
    ensures InsertAllInSlot(slot, vals + [val]) == InsertInSlot(InsertAllInSlot(slot, vals), val)
    decreases vals
  {
    if vals == [] {
      assert [] + [val] == [val] && [val][1..] == [];
    } else {
      assert (vals + [val])[0] == vals[0] && (vals + [val])[1..] == vals[1..] + [val];
      InsertAllInSlotSnoc(InsertInSlot(slot, vals[0]), vals[1..], val);
    }
  }

  /** The last transaction of a nonce is shown if and only if none before it is equal to it. */
  lemma SeenSnoc(slot: seq<Tx>)
    requires slot != []
    ensures var n := |slot| - 1;
            SeenSlot(slot) == if Repeats(slot, n) then SeenSlot(slot[..n]) else SeenSlot(slot[..n]) + [slot[n]]
  {
    var init, last := slot[..|slot| - 1], slot[|slot| - 1];
    assert slot == init + [last];
    InsertAllInSlotSnoc([], init, last);
    InsertAllInSlotKeeps([], init);
    var shown := SeenSlot(init);
    if Stands(shown, last) {
      var i :| 0 <= i < |shown| && shown[i].nonce == last.nonce && shown[i].commitment == last.commitment;
      assert shown[i] in shown;
      var j :| 0 <= j < |init| && init[j] == shown[i];
    }
    if Stands(init, last) {
      var i :| 0 <= i < |init| && init[i].nonce == last.nonce && init[i].commitment == last.commitment;
      assert Stands(shown, init[i]);
    }
  }

  /** Each transaction of a nonce is either shown or dropped, and none is dropped if and only if no two are equal. */
  lemma {:induction false} ShownOrDropped(slot: seq<Tx>)
    ensures multiset(SeenSlot(slot)) + multiset(DroppedOf(slot)) == multiset(slot)
    ensures DroppedOf(slot) == [] <==> NoTwoEqual(slot)
  {
    hide SeenSlot;
    if slot == [] {
      assert SeenSlot([]) == [] by { SeenSlotExactly([]); }
    } else {
      var init, last := slot[..|slot| - 1], slot[|slot| - 1];
      assert slot == init + [last];
      ShownOrDropped(init);
      SeenSnoc(slot);
      assert forall i :: 0 <= i < |init| ==> init[i] == slot[i];
    }
  }

  lemma BalanceSnoc(txs: seq<Tx>, t: Tx, token: Token)
    ensures Balance(OfToken(txs + [t], token))
            == Balance(OfToken(txs, token)) + if t.token == token then Signed(t) else 0
  {
    ReverseConcat(txs, [t]);
    FilterConcat(Reverse([t]), Reverse(txs), Some(token));
    FilterOne(t, token);
    assert [t][1..] == [];
    assert [] + OfToken(txs, token) == OfToken(txs, token);
  }

  /** So of every token the balances of the two parts add up. */
  lemma {:induction false} BalanceOfParts(slot: seq<Tx>, token: Token)
    ensures Balance(OfToken(SeenSlot(slot), token)) + Balance(OfToken(DroppedOf(slot), token))
            == Balance(OfToken(slot, token))
  {
    hide SeenSlot, OfToken, Balance, Repeats;
    if slot == [] {
      assert SeenSlot([]) == [] by { SeenSlotExactly([]); }
      assert Balance(OfToken([], token)) == 0 by { NothingOfToken(token); }
    } else {
      var init, last := slot[..|slot| - 1], slot[|slot| - 1];
      assert slot == init + [last];
      BalanceOfParts(init, token);
      SeenSnoc(slot);
      BalanceSnoc(init, last, token);
      BalanceSnoc(SeenSlot(init), last, token);
      BalanceSnoc(DroppedOf(init), last, token);
    }
  }

  lemma NothingOfToken(token: Token)
    ensures Balance(OfToken([], token)) == 0
  {
  }

  lemma BalanceStep(chain: Chain, token: Token, n: nat)
    requires 0 < n <= |chain|
    ensures LedgerBalance(chain, token, n) == Balance(OfToken(chain[n - 1], token)) + LedgerBalance(chain, token, n - 1)
  {
    TokenHistoryStep(chain, Some(token), n);
    BalanceConcat(OfToken(chain[n - 1], token), TokenHistory(chain, Some(token), n - 1));
  }

  lemma NoBalanceYet(chain: Chain, token: Token)
    ensures LedgerBalance(chain, token, 0) == 0
  {
  }

  /** The balance on chain is the balance shown and that of the dropped transactions, for every token at every nonce. */
  lemma {:induction false} BalanceShown(chain: Chain, token: Token, n: nat)
    requires n <= |chain|
    ensures LedgerBalance(chain, token, n)
            == LedgerBalance(Seen(chain), token, n) + LedgerBalance(Dropped(chain), token, n)
  {
    hide OfToken, SeenSlot, DroppedOf, LedgerBalance;
    if n > 0 {
      BalanceShown(chain, token, n - 1);
      BalanceStep(chain, token, n);
      BalanceStep(Seen(chain), token, n);
      BalanceStep(Dropped(chain), token, n);
      BalanceOfParts(chain[n - 1], token);
    } else {
      NoBalanceYet(chain, token);
      NoBalanceYet(Seen(chain), token);
      NoBalanceYet(Dropped(chain), token);
    }
  }

  /**
   Nothing is dropped if and only if no nonce holds two equal transactions; then the balance shown is that on chain.
   */
  lemma NothingDropped(chain: Chain, token: Token, n: nat)
    requires n <= |chain|
    ensures (forall k :: 0 <= k < n ==> Dropped(chain)[k] == []) <==> forall k :: 0 <= k < n ==> NoTwoEqual(chain[k])
    ensures (forall k :: 0 <= k < n ==> NoTwoEqual(chain[k])) ==>
              LedgerBalance(Seen(chain), token, n) == LedgerBalance(chain, token, n)
  {
    hide DroppedOf, NoTwoEqual, LedgerBalance;
    forall k | 0 <= k < n ensures Dropped(chain)[k] == [] <==> NoTwoEqual(chain[k]) { ShownOrDropped(chain[k]); }
    BalanceShown(chain, token, n);
    if forall k :: 0 <= k < n ==> Dropped(chain)[k] == [] { NoneDropped(Dropped(chain), token, n); }
  }

  lemma {:induction false} NoneDropped(chain: Chain, token: Token, n: nat)
    requires n <= |chain| && forall k :: 0 <= k < n ==> chain[k] == []
    ensures LedgerBalance(chain, token, n) == 0
  {
    hide OfToken, LedgerBalance;
    if n > 0 {
      NoneDropped(chain, token, n - 1);
      BalanceStep(chain, token, n);
      NothingOfToken(token);
    } else {
      NoBalanceYet(chain, token);
    }
  }

  /**
   Such a chain does come about: the same topup built twice from one chain, with two signatures. The SDK sees one of
   them and shows the balance of one, while both amounts were paid in.
   */
  lemma EqualTopupsCountOnce(chain: Chain, q: Request, sig: nat)
    requires OnChain(chain) && |chain| < MAX_UINT32 && CanTopUp(Seen(chain), q.token)
    requires FreshSig(chain, q.sig) && FreshSig(chain, sig) && q.sig != sig
    ensures var t := TopupTx(|chain|, q);
            var next := chain + [[t, t.(sig := sig)]];
            && OnChain(next) && Seen(next) == Seen(chain) + [[t]] && Dropped(next)[|chain|] == [t.(sig := sig)]
            && LedgerBalance(Seen(next), q.token, |next|) == LedgerBalance(Seen(chain), q.token, |chain|) + q.amount
            && LedgerBalance(next, q.token, |next|) == LedgerBalance(chain, q.token, |chain|) + 2 * q.amount
  {
    hide LedgerBalance, CanTopUp, FreshSig, DroppedOf, SeenSlot, RoundOnChain, Reachable;
    var t := TopupTx(|chain|, q);
    var u := t.(sig := sig);
    var view, next := Seen(chain), chain + [[t, u]];
    SeenIsReachable(chain);
    EqualTopupsRound(chain, q, sig);
    assert next[..|next| - 1] == chain && next[|next| - 1] == [t, u];
    SeenGrows(chain, [[t, u]]);
    assert Seen([[t, u]]) == [[t]];
    SecondIsDropped(t, u);
    BalanceAfterOne(view, t, q.token);
    BalanceAfterTwo(chain, t, u);
  }

  /** The commitments on the page are found again, and they leave room for a topup without a merge. */
  ghost predicate CanTopUp(view: Chain, token: Token) {
    var cs := ActiveCommitments(view, token); cs.Ok? && |cs.value| < SEND_ARITY
  }

  lemma SecondIsDropped(t: Tx, u: Tx)
    requires t.nonce == u.nonce && t.commitment == u.commitment
    ensures DroppedOf([t, u]) == [u]
  {
    assert [t, u][..1] == [t] && [t][..0] == [];
    assert DroppedOf([]) == [] && DroppedOf([t]) == [];
    assert [t, u][0] == t && [t, u][1] == u && Repeats([t, u], 1);
  }

  lemma EqualTopupsRound(chain: Chain, q: Request, sig: nat)
    requires Contiguous(chain) && Reachable(Seen(chain)) && |chain| < MAX_UINT32
    requires CanTopUp(Seen(chain), q.token)
    requires FreshSig(chain, q.sig) && FreshSig(chain, sig) && q.sig != sig
    ensures var t := TopupTx(|chain|, q);
            SeenSlot([t, t.(sig := sig)]) == [t] && RoundOnChain(chain, [t, t.(sig := sig)])
  {
    hide Built, Reachable, Contiguous, CanTopUp, SeenSlot;
    var t := TopupTx(|chain|, q);
    var u := t.(sig := sig);
    BuiltTwice(Seen(chain), q, sig);
    CollisionIsDropped(t, u);
    forall x | x in [t, u] ensures Built(Seen(chain), x) { assert x == t || x == u; }
    forall x, n, v | x in [t, u] && 0 <= n < |chain| && v in chain[n] ensures x.sig != v.sig {
      assert x == t || x == u;
    }
  }

  lemma BuiltTwice(view: Chain, q: Request, sig: nat)
    requires Reachable(view) && CanTopUp(view, q.token)
    ensures LastNonce(view) >= -1
    ensures Built(view, TopupTx(|view|, q)) && Built(view, TopupTx(|view|, q).(sig := sig))
  {
    ReachableInvariant(view);
    LastNonceIsLength(view);
    var cs := ActiveCommitments(view, q.token).value;
    BuiltTopup(view, cs, q);
    BuiltTopup(view, cs, q.(sig := sig));
    assert TopupTx(|view|, q).(sig := sig) == TopupTx(|view|, q.(sig := sig));
  }

  lemma BalanceAfterTwo(chain: Chain, t: Tx, u: Tx)
    requires t.txType == u.txType == Topup && t.token == u.token && t.amount == u.amount
    ensures LedgerBalance(chain + [[t, u]], t.token, |chain| + 1)
            == LedgerBalance(chain, t.token, |chain|) + 2 * t.amount
  {
    BalanceStep(chain + [[t, u]], t.token, |chain| + 1);
    HistoryPrefix(chain, [[t, u]], t.token, |chain|);
    TwoTopupsHere(t, u);
    assert [u, t][1..] == [t] && [t][1..] == [] && Balance([t]) == t.amount;
  }
}
