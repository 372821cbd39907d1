/**
 A token with more than SEND_ARITY unspent outputs: several topups built at once can leave one so. `getActiveTxs` shows
 one page of them (src/sdk/txManagers/TransactionManager.ts:153), and `needMerge` counts that page
 (src/sdk/paramManagers/CommitmentManager.ts:73-77). A page of more than SEND_ARITY stops every topup of the token; on a
 page of SEND_ARITY the SDK goes on, and its merge leaves the older outputs behind.
 */
module Overfull {
  import opened Common
  import opened Ledger
  import opened CommitmentMachine
  import opened Topups
  import opened LostOutputs

  // ---------------------------------------------------------------- what the page decides

  /** The commitment of every active transaction of the token is found again. */
  ghost predicate PageRebuilt(chain: Chain, token: Token) {
    forall t :: t in ActiveTxs(chain, token, |chain|) ==> Rebuilt(chain, t)
  }

  /** Only a legacy send that was built after outputs of some worth were lost is not found again. */
  lemma PageRebuiltExactly(chain: Chain, token: Token)
    requires Reachable(chain)
    ensures var active := ActiveTxs(chain, token, |chain|);
            && (forall t :: t in active ==> t.nonce < |chain| && t.token == token)
            && (PageRebuilt(chain, token) <==>
                forall t :: t in active && t.txType == Send && t.metadata.None? ==>
                  t.nonce < |chain| && LostSum(chain, token, t.nonce + 1) == 0)
  {
    hide Reachable, LostSum, CommitmentFor, Sound, Records, Rebuilt;
    ReachableInvariant(chain);
    SoundToken(chain, token);
    ActiveInHistory(chain, token);
    forall t | t in ActiveTxs(chain, token, |chain|)
      ensures t.nonce < |chain| && t.token == token
      ensures Rebuilt(chain, t)
              <==> (t.txType == Send && t.metadata.None? ==>
                      t.nonce < |chain| && LostSum(chain, token, t.nonce + 1) == 0)
    {
      ActiveAmongHistory(chain, token, t);
      RebuiltExactly(chain, t);
      if t.txType == Send { RecordsExactly(chain, t); }
    }
  }

  lemma ActiveAmongHistory(chain: Chain, token: Token, t: Tx)
    requires ValidChain(chain) && Sound(chain, token) && t in ActiveTxs(chain, token, |chain|)
    ensures t in TokenHistory(chain, Some(token), |chain|) && t.nonce < |chain| && t.token == token
  {
    ActiveInHistory(chain, token);
    var k := UnspentSplits(chain, token, |chain|);
    TokenHistoryBounds(chain, Some(token), |chain|);
  }

  /**
   What `buildTopUpTx` does on any reachable chain, once the commitments are activated: with fewer than SEND_ARITY
   outputs on the page a plain topup, with SEND_ARITY a merge first, with more an error; and an error when the
   commitment of a legacy send on the page is not found again. The balance it states is what is on the page.
   */
  lemma PageDecides(chain: Chain, q: Request, mergeFee: nat, mergeSig: nat)
    requires Reachable(chain)
    ensures LastNonce(chain) == |chain| - 1
    ensures var active, r := ActiveTxs(chain, q.token, |chain|), TopUp(chain, q, mergeFee, mergeSig);
            && (r.Ok? <==> PageRebuilt(chain, q.token) && |active| <= SEND_ARITY)
            && (PageRebuilt(chain, q.token) && |active| > SEND_ARITY ==> r == Err(InvalidSize))
            && (r.Ok? ==> r.value == TopUpOfPage(|chain|, active, q, mergeFee, mergeSig))
  {
    hide Reachable, Sound, ActiveTxs, Rebuilt;
    ReachableInvariant(chain);
    SoundToken(chain, q.token);
    LastNonceIsLength(chain);
    ActiveCommitmentsExactly(chain, q.token);
    var cs := ActiveCommitments(chain, q.token);
    if cs.Ok? {
      FromPage(|chain|, cs.value, ActiveTxs(chain, q.token, |chain|), q, mergeFee, mergeSig);
    }
  }

  /** The merge of what is on the page. */
  function MergeOfPage(n: nat, page: seq<Tx>, q: Request, mergeFee: nat, mergeSig: nat): Tx {
    var next := CommitmentForSend(n, q.token, SumCommitted(page), 0, mergeFee, q.startIndex);
    Tx(Send, n, q.token, 0, mergeFee, q.startIndex, next, Some(next), mergeSig)
  }

  function TopUpOfPage(n: nat, page: seq<Tx>, q: Request, mergeFee: nat, mergeSig: nat): TopUpTxs {
    if |page| == SEND_ARITY then
      TopUpTxs(Some(MergeOfPage(n, page, q, mergeFee, mergeSig)), TopupTx(n + 1, q),
               SumCommitted(page) + q.amount - mergeFee)
    else TopUpTxs(None, TopupTx(n, q), SumCommitted(page) + q.amount)
  }

  lemma FromPage(n: nat, cs: seq<Commitment>, page: seq<Tx>, q: Request, mergeFee: nat, mergeSig: nat)
    requires |cs| == |page| && SumBalances(cs) == SumCommitted(page)
    ensures var r := TopUpFrom(cs, n - 1, q, mergeFee, mergeSig);
            r == if |page| <= SEND_ARITY then Ok(TopUpOfPage(n, page, q, mergeFee, mergeSig)) else Err(InvalidSize)
  {
  }

  /**
   The page holds more than SEND_ARITY outputs if and only if there are more and the fourth and fifth newest share a
   nonce; it holds all of them or at least SEND_ARITY.
   */
  lemma PageIsOverfull(chain: Chain, token: Token)
    requires Reachable(chain)
    ensures var active, unspent := ActiveTxs(chain, token, |chain|), Unspent(chain, token, |chain|);
            && (|active| > SEND_ARITY
                <==> |unspent| > SEND_ARITY && unspent[SEND_ARITY - 1].nonce == unspent[SEND_ARITY].nonce)
            && (active == unspent || (SEND_ARITY <= |active| < |unspent| && active == unspent[..|active|]))
  {
    hide Reachable, Sound, ActiveTxs;
    ReachableInvariant(chain);
    SoundToken(chain, token);
    var history, unspent := TokenHistory(chain, Some(token), |chain|), Unspent(chain, token, |chain|);
    SignedToken(chain, token);
    ActiveArePage(chain, token, |chain|);
    var k := UnspentSplits(chain, token, |chain|);
    assert forall i :: 0 <= i < |unspent| ==> history[i] == unspent[i];
  }

  /** A page of more than SEND_ARITY stays as it is until a send of the token: nothing can be topped up before. */
  lemma StaysOverfull(chain: Chain, slot: seq<Tx>, token: Token)
    requires Reachable(chain) && LastNonce(chain) >= -1 && Round(chain, slot)
    requires |ActiveTxs(chain, token, |chain|)| > SEND_ARITY && !HasSend(OfToken(slot, token))
    ensures Reachable(chain + [slot]) && LastNonce(chain + [slot]) >= -1
    ensures ActiveTxs(chain + [slot], token, |chain| + 1) == ActiveTxs(chain, token, |chain|)
    ensures forall q: Request, fee, sig :: q.token == token ==>
              TopUp(chain + [slot], q, fee, sig).Err?
  {
    hide Reachable, Round, Built, Invariant, OfToken, LastNonce, ActiveTxs, Unspent, PageRebuilt, TopUp;
    var next := chain + [slot];
    ReachableInvariant(chain);
    ReachableStep(chain, slot);
    PageIsOverfull(chain, token);
    var here := RoundOfToken(chain, slot, token);
    SamePage(chain, slot, token);
    ReachableInvariant(next);
    InvariantLength(next);
    forall q: Request, fee, sig | q.token == token ensures TopUp(next, q, fee, sig).Err? {
      PageDecides(next, q, fee, sig);
    }
  }

  lemma InvariantLength(chain: Chain)
    requires Invariant(chain)
    ensures LastNonce(chain) == |chain| - 1
  {
    LastNonceIsLength(chain);
  }

  lemma SamePage(chain: Chain, slot: seq<Tx>, token: Token)
    requires OfToken(slot, token) == []
    ensures ActiveTxs(chain + [slot], token, |chain| + 1) == ActiveTxs(chain, token, |chain|)
  {
    TokenHistoryAfter(chain, slot, token);
    assert [] + TokenHistory(chain, Some(token), |chain|) == TokenHistory(chain, Some(token), |chain|);
  }

  // ---------------------------------------------------------------- a run that loses an output

  /** A merge of the page is what the SDK builds, and what is not on the page is lost with it. */
  lemma MergeLeavesBehind(chain: Chain, q: Request, mergeFee: nat, mergeSig: nat)
    requires Reachable(chain) && |chain| < MAX_UINT32 && FreshSig(chain, mergeSig)
    requires PageRebuilt(chain, q.token) && ActiveTxs(chain, q.token, |chain|) != []
    ensures var n, active := |chain|, ActiveTxs(chain, q.token, |chain|);
            var m := MergeOfPage(n, active, q, mergeFee, mergeSig);
            var next := chain + [[m]];
            && Reachable(next) && Unspent(next, q.token, n + 1) == [m]
            && Lost(next, q.token, n + 1) == Missed(chain, q.token, n) + Lost(chain, q.token, n)
            && MetadataBalance(TokenHistory(next, Some(q.token), n + 1), 0)
               == Ok(LedgerBalance(next, q.token, n + 1)
                     - SumCommitted(Missed(chain, q.token, n)) - LostSum(chain, q.token, n))
            && LedgerBalance(next, q.token, n + 1) == LedgerBalance(chain, q.token, n) - mergeFee
  {
    hide Built, Reachable, Lost, Missed, LostSum, ActiveTxs, TokenHistory, Unspent, LastNonce, MetadataBalance,
      LedgerBalance, FreshSig, PageRebuilt, TokenOk;
    var m := MergeOfPage(|chain|, ActiveTxs(chain, q.token, |chain|), q, mergeFee, mergeSig);
    BuiltOfPage(chain, q, mergeFee, mergeSig);
    ReachableOne(chain, m);
    AfterSendOf(chain, m);
    AfterSendWithMetadata(chain, m);
  }

  /** After a send with metadata the fast balance is short of what was lost by then. */
  lemma AfterSendWithMetadata(chain: Chain, m: Tx)
    requires Reachable(chain + [[m]]) && m.txType == Send && m.metadata.Some?
    ensures var next, n := chain + [[m]], |chain|;
            && Lost(next, m.token, n + 1) == Missed(chain, m.token, n) + Lost(chain, m.token, n)
            && MetadataBalance(TokenHistory(next, Some(m.token), n + 1), 0)
               == Ok(LedgerBalance(next, m.token, n + 1)
                     - SumCommitted(Missed(chain, m.token, n)) - LostSum(chain, m.token, n))
  {
    hide Reachable, Lost, Missed, LostSum, TokenHistory, MetadataBalance, LedgerBalance, MetadataEnd, OfToken;
    MergeIsHere(m);
    LostAfter(chain, [m], m.token);
    FastBalanceExactly(chain + [[m]], m.token, None);
    NewestHasMetadata(chain, m);
  }

  lemma BuiltOfPage(chain: Chain, q: Request, mergeFee: nat, mergeSig: nat)
    requires Reachable(chain) && PageRebuilt(chain, q.token) && ActiveTxs(chain, q.token, |chain|) != []
    ensures LastNonce(chain) >= -1
    ensures Built(chain, MergeOfPage(|chain|, ActiveTxs(chain, q.token, |chain|), q, mergeFee, mergeSig))
  {
    hide Reachable, Invariant, Sound, ActiveTxs, Rebuilt, ActiveCommitments, Built, LastNonce;
    ReachableInvariant(chain);
    SoundToken(chain, q.token);
    LastNonceIsLength(chain);
    ActiveCommitmentsExactly(chain, q.token);
    BuiltFrom(chain, ActiveCommitments(chain, q.token).value, ActiveTxs(chain, q.token, |chain|), q, mergeFee,
              mergeSig);
  }

  lemma BuiltFrom(chain: Chain, cs: seq<Commitment>, page: seq<Tx>, q: Request, mergeFee: nat, mergeSig: nat)
    requires LastNonce(chain) == |chain| - 1 && ActiveCommitments(chain, q.token) == Ok(cs)
    requires cs != [] && SumBalances(cs) == SumCommitted(page)
    ensures Built(chain, MergeOfPage(|chain|, page, q, mergeFee, mergeSig))
  {
    hide LastNonce, ActiveCommitments;
    assert BuildSend(cs, LastNonce(chain), MergeRequest(q, mergeFee, mergeSig), false)
        == Ok(MergeOfPage(|chain|, page, q, mergeFee, mergeSig));
  }

  lemma MergeIsHere(m: Tx)
    requires m.txType == Send
    ensures HasSend(OfToken([m], m.token))
  {
    FilterOne(m, m.token);
  }

  lemma NewestHasMetadata(chain: Chain, m: Tx)
    requires m.txType == Send && m.metadata.Some?
    ensures MetadataEnd(chain + [[m]], m.token, |chain| + 1) == |chain| + 1
  {
    FilterOne(m, m.token);
    assert (chain + [[m]])[|chain|] == [m];
    assert OfToken([m], m.token)[0] == m;
  }

  /** Of a token in order nothing of worth was lost. */
  lemma NothingLostInOrder(chain: Chain, token: Token)
    requires Reachable(chain) && WellRecorded(chain, token)
    ensures LostSum(chain, token, |chain|) == 0
  {
    hide Reachable, WellRecorded;
    ReachableInvariant(chain);
    SoundToken(chain, token);
    SumOfRecorded(chain, token);
    BalanceSplits(chain, token, |chain|);
  }

  /** The fast balance is short of the ledger balance by an output, which is never found again. */
  ghost predicate Loses(chain: Chain, t: Tx) {
    && MetadataBalance(TokenHistory(chain, Some(t.token), |chain|), 0)
       == Ok(LedgerBalance(chain, t.token, |chain|) - t.commitment.balance)
    && forall more: Chain :: Reachable(chain + more) ==> t !in ActiveTxs(chain + more, t.token, |chain + more|)
  }

  /** Two topups were built at once. */
  function AfterTwo(chain: Chain, q: Request, other: Request): Chain {
    chain + [[TopupTx(|chain|, q), TopupTx(|chain|, other)]]
  }

  /**
   Three outputs of a token are unspent, the oldest under a nonce of its own, and two topups are built at once on them.
   The page then holds the newest four, so the next topup merges these. After the merge the fast balance is short of the
   balance of the history by the oldest output, which is never found again however the run goes on.
   */
  lemma LosingRun(chain: Chain, q: Request, other: Request, again: Request, mergeFee: nat, mergeSig: nat)
    returns (after: Chain)
    requires Reachable(chain) && TokenOk(chain, q.token) && |chain| + 1 < MAX_UINT32
    requires q.token == other.token == again.token && q.amount != other.amount
    requires FreshSig(chain, q.sig) && FreshSig(chain, other.sig) && FreshSig(chain, mergeSig)
    requires q.sig != other.sig && q.sig != mergeSig && other.sig != mergeSig
    requires var unspent := Unspent(chain, q.token, |chain|);
             |unspent| == SEND_ARITY - 1 && unspent[1].nonce != unspent[2].nonce
    ensures Reachable(AfterTwo(chain, q, other)) && LastNonce(AfterTwo(chain, q, other)) >= -1
    ensures var r := TopUp(AfterTwo(chain, q, other), again, mergeFee, mergeSig);
            r.Ok? && r.value.merge.Some? && after == AfterTwo(chain, q, other) + [[r.value.merge.value]]
    ensures Reachable(after) && Loses(after, Unspent(chain, q.token, |chain|)[2])
    ensures LedgerBalance(after, q.token, |after|)
            == LedgerBalance(chain, q.token, |chain|) + q.amount + other.amount - mergeFee
  {
    hide Reachable, TokenOk, ActiveTxs, LedgerBalance, MetadataBalance, TokenHistory, Lost, LostSum, Missed, Round,
      PageLength, LastNonce;
    var full := OverfullPage(chain, q, other);
    PageDecides(full, again, mergeFee, mergeSig);
    var m := MergeOfPage(|full|, ActiveTxs(full, q.token, |full|), again, mergeFee, mergeSig);
    after := full + [[m]];
    MergeLeavesBehind(full, again, mergeFee, mergeSig);
    var oldest := Unspent(chain, q.token, |chain|)[2];
    OfThatToken(chain, q.token, oldest);
    assert [oldest][1..] == [];
    forall more: Chain | Reachable(after + more)
      ensures oldest !in ActiveTxs(after + more, q.token, |after + more|)
    {
      LostPrefix(after, more, q.token, |after|);
      assert oldest in Missed(full, q.token, |full|);
      LostForever(after + more, q.token, |after|, |after + more|, oldest);
    }
  }

  lemma OfThatToken(chain: Chain, token: Token, t: Tx)
    requires Reachable(chain) && t in Unspent(chain, token, |chain|)
    ensures t.token == token
  {
    hide Reachable, Invariant, Sound, TokenHistory, Unspent;
    ReachableInvariant(chain);
    SoundToken(chain, token);
    var k := UnspentSplits(chain, token, |chain|);
    TokenHistoryBounds(chain, Some(token), |chain|);
    assert t in Unspent(chain, token, |chain|) + Before(chain, token, k);
    assert Matches(t, Some(token));
  }

  /** The two topups at once: five are unspent, the page holds four. */
  lemma OverfullPage(chain: Chain, q: Request, other: Request) returns (full: Chain)
    requires Reachable(chain) && TokenOk(chain, q.token) && |chain| < MAX_UINT32
    requires q.token == other.token && q.amount != other.amount && q.sig != other.sig
    requires FreshSig(chain, q.sig) && FreshSig(chain, other.sig)
    requires var unspent := Unspent(chain, q.token, |chain|);
             |unspent| == SEND_ARITY - 1 && unspent[1].nonce != unspent[2].nonce
    ensures full == AfterTwo(chain, q, other) && Reachable(full)
    ensures |ActiveTxs(full, q.token, |full|)| == SEND_ARITY && PageRebuilt(full, q.token)
    ensures Missed(full, q.token, |full|) == [Unspent(chain, q.token, |chain|)[2]]
    ensures LostSum(full, q.token, |full|) == 0
    ensures LedgerBalance(full, q.token, |full|) == LedgerBalance(chain, q.token, |chain|) + q.amount + other.amount
    ensures forall sig :: FreshSig(chain, sig) && sig != q.sig && sig != other.sig ==> FreshSig(full, sig)
  {
    hide Reachable, TokenOk, ActiveTxs, LedgerBalance, TokenHistory, Lost, LostSum, Missed, Round, PageLength,
      LastNonce;
    var t, u := TopupTx(|chain|, q), TopupTx(|chain|, other);
    full := chain + [[t, u]];
    TwoTopupsOverflow(chain, q, other);
    PageIsOverfull(full, q.token);
    ActiveInRun(full, q.token, |full|);
    TwoTopupsHere(t, u);
    assert OfToken([t, u], q.token) == [u, t];
    FullIsRebuilt(chain, t, u);
    LostAfter(chain, [t, u], q.token);
    OkIsRecorded(chain, q.token);
    NothingLostInOrder(chain, q.token);
    BalanceAfter(chain, [t, u], q.token);
    assert [u, t][1..] == [t];
    OneTx(t);
  }

  lemma OkIsRecorded(chain: Chain, token: Token)
    requires TokenOk(chain, token)
    ensures WellRecorded(chain, token)
  {
  }

  /** Two topups more leave every commitment of the token to be found again. */
  lemma FullIsRebuilt(chain: Chain, t: Tx, u: Tx)
    requires Reachable(chain) && Reachable(chain + [[t, u]]) && TokenOk(chain, t.token)
    requires t.txType == u.txType == Topup && t.token == u.token
    ensures PageRebuilt(chain + [[t, u]], t.token)
  {
    hide Reachable, Sound, Records, Rebuilt, TokenHistory, ActiveTxs, Invariant;
    var full := chain + [[t, u]];
    ReachableInvariant(full);
    SoundToken(full, t.token);
    TwoTopupsHere(t, u);
    TokenHistoryAfter(chain, [t, u], t.token);
    ActiveInHistory(full, t.token);
    forall x | x in ActiveTxs(full, t.token, |full|) ensures Rebuilt(full, x) {
      ActiveAmongHistory(full, t.token, x);
      if x in TokenHistory(chain, Some(t.token), |chain|) {
        RecordsPrefix(chain, [t, u], x);
        RecordedIsRebuilt(full, x);
      } else {
        RebuiltExactly(full, x);
      }
    }
  }

  /** A token without unspent outputs is in order. */
  lemma EmptyIsOk(chain: Chain, token: Token)
    requires Reachable(chain) && Unspent(chain, token, |chain|) == []
    ensures TokenOk(chain, token)
  {
    ReachableInvariant(chain);
    assert Sound(chain, token);
    UnspentOfEmpty(chain, token, |chain|);
  }

  lemma {:induction false} UnspentOfEmpty(chain: Chain, token: Token, n: nat)
    requires n <= |chain| && Unspent(chain, token, n) == []
    ensures TokenHistory(chain, Some(token), n) == []
  {
    if n > 0 {
      UnspentOfEmpty(chain, token, n - 1);
      TokenHistoryStep(chain, Some(token), n);
    }
  }

  /** As long as no nonce holds two topups of a token, as with one client at a time, the token stays in order. */
  lemma {:induction false} OneTopupEachIsOk(chain: Chain, token: Token)
    requires Reachable(chain)
    requires forall n :: 0 <= n < |chain| ==> |OfType(OfToken(chain[n], token), Topup)| <= 1
    ensures TokenOk(chain, token)
    decreases |chain|
  {
    hide TokenOk, Invariant, Round, RoomFor, LastNonce, OfToken;
    if chain == [] {
      EmptyIsOk(chain, token);
    } else {
      var before, slot := chain[..|chain| - 1], chain[|chain| - 1];
      assert forall n :: 0 <= n < |before| ==> before[n] == chain[n];
      OneTopupEachIsOk(before, token);
      ReachableInvariant(before);
      OneTopupHasRoom(before, slot, token);
      RoundKeepsToken(before, slot, token);
      assert before + [slot] == chain;
    }
  }

  // ---------------------------------------------------------------- with numbers

  /** A topup of the token 0, under a signature. */
  function Paying(amount: nat, sig: nat): Request { Request(0, amount, 0, 0, sig) }

  /** A chain with one topup of 1 under each of `n` nonces. */
  function Ones(n: nat): Chain { if n == 0 then [] else Ones(n - 1) + [[TopupTx(n - 1, Paying(1, n - 1))]] }

  lemma {:induction false} OnesAre(n: nat)
    requires n < SEND_ARITY
    ensures var chain := Ones(n);
            && Reachable(chain) && TokenOk(chain, 0) && |chain| == n
            && (forall sig :: sig >= n ==> FreshSig(chain, sig))
            && LedgerBalance(chain, 0, n) == n && |Unspent(chain, 0, n)| == n
            && forall i :: 0 <= i < n ==> Unspent(chain, 0, n)[i] == TopupTx(n - 1 - i, Paying(1, n - 1 - i))
  {
    hide Reachable, TokenOk, LedgerBalance, Unspent, FreshSig;
    if n == 0 {
      NothingOfIt();
      EmptyIsOk([], 0);
    } else {
      OnesAre(n - 1);
      var chain, q := Ones(n - 1), Paying(1, n - 1);
      PlainTopUp(chain, q);
      UnspentAfterOne(chain, TopupTx(n - 1, q), 0);
      BalanceAfterOne(chain, TopupTx(n - 1, q), 0);
      FreshAfter(chain, TopupTx(n - 1, q));
    }
  }

  lemma NothingOfIt()
    ensures Reachable([]) && Unspent([], 0, 0) == [] && LedgerBalance([], 0, 0) == 0 && forall sig :: FreshSig([], sig)
  {
  }

  /**
   Three topups of 1, topups of 1 and 2 at once, and the merge the next topup brings, for a fee of 1: the history adds
   up to 5, the fast balance is 4, and the first topup is never found again.
   */
  lemma LosingExample() returns (after: Chain)
    ensures Reachable(after) && Loses(after, TopupTx(0, Paying(1, 0)))
    ensures LedgerBalance(after, 0, |after|) == 5 && MetadataBalance(TokenHistory(after, Some(0), |after|), 0) == Ok(4)
  {
    hide Reachable, TokenOk, LedgerBalance, MetadataBalance, TokenHistory, Unspent, FreshSig, ActiveTxs, LastNonce,
      Ones;
    OnesAre(3);
    after := LosingRun(Ones(3), Paying(1, 3), Paying(2, 4), Paying(1, 6), 1, 5);
  }
}
