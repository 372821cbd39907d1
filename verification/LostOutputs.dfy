/**
 What a send does not find. `getActiveTxs` fetches one page of SEND_ARITY transactions of the token
 (src/sdk/txManagers/TransactionManager.ts:153). When more outputs are unspent, which several topups built at once can
 bring about, a send spends the outputs on the page and records what these leave. The others are lost from view. Here
 is what that does to the balances, in every reachable chain.
 */
module LostOutputs {
  import opened Common
  import opened Ledger
  import opened CommitmentMachine

  /** The unspent outputs that do not fit on the page. */
  function Missed(chain: Chain, token: Token, n: nat): seq<Tx>
    requires n <= |chain|
  {
    var unspent := Unspent(chain, token, n);
    unspent[|OnPage(unspent, PageLength(chain, token, n))|..]
  }

  /** The outputs that the sends before nonce `n` missed when they were built. */
  function Lost(chain: Chain, token: Token, n: nat): seq<Tx>
    requires n <= |chain|
  {
    if n == 0 then []
    else if HasSend(OfToken(chain[n - 1], token)) then Missed(chain, token, n - 1) + Lost(chain, token, n - 1)
    else Lost(chain, token, n - 1)
  }

  /** What they were worth. */
  function LostSum(chain: Chain, token: Token, n: nat): int
    requires n <= |chain|
  {
    SumCommitted(Lost(chain, token, n))
  }

  lemma MissedPrefix(chain: Chain, more: Chain, token: Token, n: nat)
    requires n <= |chain|
    ensures Missed(chain + more, token, n) == Missed(chain, token, n)
  {
    UnspentPrefix(chain, more, token, n);
    HistoryPrefix(chain, more, token, n);
  }

  lemma {:induction false} LostPrefix(chain: Chain, more: Chain, token: Token, n: nat)
    requires n <= |chain|
    ensures Lost(chain + more, token, n) == Lost(chain, token, n)
  {
    hide Missed, OfToken;
    if n > 0 {
      LostPrefix(chain, more, token, n - 1);
      MissedPrefix(chain, more, token, n - 1);
    }
  }

  /** What a round loses. */
  lemma LostAfter(chain: Chain, slot: seq<Tx>, token: Token)
    ensures Lost(chain + [slot], token, |chain| + 1)
            == (if HasSend(OfToken(slot, token)) then Missed(chain, token, |chain|) else [])
               + Lost(chain, token, |chain|)
    ensures LostSum(chain + [slot], token, |chain| + 1)
            == LostSum(chain, token, |chain|)
               + if HasSend(OfToken(slot, token)) then SumCommitted(Missed(chain, token, |chain|)) else 0
  {
    LostPrefix(chain, [slot], token, |chain|);
    MissedPrefix(chain, [slot], token, |chain|);
    SumCommittedConcat(Missed(chain, token, |chain|), Lost(chain, token, |chain|));
    assert [] + Lost(chain, token, |chain|) == Lost(chain, token, |chain|);
  }

  lemma UnspentIsPageAndMissed(chain: Chain, token: Token)
    requires ValidChain(chain) && Sound(chain, token)
    ensures Unspent(chain, token, |chain|) == ActiveTxs(chain, token, |chain|) + Missed(chain, token, |chain|)
    ensures SumCommitted(Unspent(chain, token, |chain|))
            == SumCommitted(ActiveTxs(chain, token, |chain|)) + SumCommitted(Missed(chain, token, |chain|))
  {
    ActiveArePage(chain, token, |chain|);
    SumCommittedConcat(ActiveTxs(chain, token, |chain|), Missed(chain, token, |chain|));
  }

  // ---------------------------------------------------------------- no money is created or destroyed

  /** The only send among what a nonce holds of a token, between topups. */
  lemma OneSendHere(here: seq<Tx>, token: Token)
    requires PairwiseApart(here) && (forall t :: t in here ==> t.token == token) && HasSend(here)
    ensures var i := NewestSend(here);
            && i < |here| && here == here[..i] + ([here[i]] + here[i + 1..])
            && AllTopups(here[..i]) && AllTopups(here[i + 1..])
  {
    hide PairwiseApart, Apart, NewestSend, AllTopups;
    var k :| 0 <= k < |here| && here[k].txType == Send;
    var i := NewestSend(here);
    SendBetween(here, token, i);
  }

  lemma SendBetween(here: seq<Tx>, token: Token, i: nat)
    requires PairwiseApart(here) && (forall t :: t in here ==> t.token == token)
    requires i < |here| && here[i].txType == Send && forall k :: 0 <= k < i ==> here[k].txType != Send
    ensures here == here[..i] + ([here[i]] + here[i + 1..])
    ensures AllTopups(here[..i]) && AllTopups(here[i + 1..])
  {
    hide PairwiseApart, Apart, AllTopups;
    forall j | i < j < |here| ensures here[j].txType != Send { NoSecondSend(here, token, i, j); }
    TopupsBetween(here, 0, i);
    TopupsBetween(here, i + 1, |here|);
    assert here[i + 1..|here|] == here[i + 1..];
  }

  lemma TopupsBetween(here: seq<Tx>, lo: nat, hi: nat)
    requires lo <= hi <= |here| && forall j :: lo <= j < hi ==> here[j].txType != Send
    ensures AllTopups(here[lo..hi])
  {
    assert forall j :: 0 <= j < hi - lo ==> here[lo..hi][j] == here[lo + j];
  }

  lemma NoSecondSend(here: seq<Tx>, token: Token, i: nat, j: nat)
    requires PairwiseApart(here) && (forall t :: t in here ==> t.token == token)
    requires i < j < |here| && here[i].txType == Send
    ensures here[j].txType == Topup
  {
    assert Apart(here[i], here[j]) && here[i] in here && here[j] in here;
  }

  lemma OneTx(t: Tx)
    ensures SumCommitted([t]) == t.commitment.balance && Balance([t]) == Signed(t)
  {
    assert [t][1..] == [];
  }

  lemma SumHere(here: seq<Tx>, token: Token, spent: int)
    requires PairwiseApart(here) && (forall t :: t in here ==> t.token == token && Proper(t)) && HasSend(here)
    requires forall t :: t in here && t.txType == Send ==> t.commitment.balance == spent - t.amount - t.fee
    ensures SumCommitted(here) == Balance(here) + spent
  {
    OneSendHere(here, token);
    var i := NewestSend(here);
    var s := here[i];
    assert s in here && forall t :: t in here[..i] || t in here[i + 1..] ==> t in here;
    CommittedTopups(here[..i]);
    CommittedTopups(here[i + 1..]);
    SumCommittedConcat(here[..i], [s] + here[i + 1..]);
    SumCommittedConcat([s], here[i + 1..]);
    BalanceConcat(here[..i], [s] + here[i + 1..]);
    BalanceConcat([s], here[i + 1..]);
    OneTx(s);
  }

  lemma SumHereTopups(here: seq<Tx>)
    requires (forall t :: t in here ==> Proper(t)) && !HasSend(here)
    ensures SumCommitted(here) == Balance(here)
  {
    assert forall i :: 0 <= i < |here| ==> here[i].txType == Topup;
    CommittedTopups(here);
  }

  lemma BalanceAfter(chain: Chain, slot: seq<Tx>, token: Token)
    ensures LedgerBalance(chain + [slot], token, |chain| + 1)
            == Balance(OfToken(slot, token)) + LedgerBalance(chain, token, |chain|)
  {
    TokenHistoryAfter(chain, slot, token);
    BalanceConcat(OfToken(slot, token), TokenHistory(chain, Some(token), |chain|));
  }

  /** One round keeps the books. */
  lemma {:induction false} RoundKeepsBooks(chain: Chain, slot: seq<Tx>, token: Token)
    requires Invariant(chain) && LastNonce(chain) >= -1 && Round(chain, slot)
    requires InBooks(chain, token, |chain|)
    ensures InBooks(chain + [slot], token, |chain| + 1)
  {
    hide Invariant, Built, Proper, LastNonce, Lost, Missed, LostSum, LedgerBalance, Unspent, ActiveTxs, OfToken,
      PairwiseApart, PageLength;
    var here := RoundOfToken(chain, slot, token);
    BalanceAfter(chain, slot, token);
    UnspentAfter(chain, slot, token);
    LostAfter(chain, slot, token);
    if HasSend(here) {
      SoundToken(chain, token);
      UnspentIsPageAndMissed(chain, token);
      forall t | t in here && t.txType == Send
        ensures t.commitment.balance == SumCommitted(ActiveTxs(chain, token, |chain|)) - t.amount - t.fee
      {
        BuiltSend(chain, t);
      }
      SumHere(here, token, SumCommitted(ActiveTxs(chain, token, |chain|)));
    } else {
      SumHereTopups(here);
      SumCommittedConcat(here, Unspent(chain, token, |chain|));
    }
  }

  lemma SoundToken(chain: Chain, token: Token)
    requires Invariant(chain)
    ensures ValidChain(chain) && Sound(chain, token)
  {
  }

  /** The ledger balance is what the unspent outputs hold and what was lost. */
  ghost predicate InBooks(chain: Chain, token: Token, n: nat)
    requires n <= |chain|
  {
    LedgerBalance(chain, token, n) == SumCommitted(Unspent(chain, token, n)) + LostSum(chain, token, n)
  }

  lemma NothingInBooks(token: Token)
    ensures InBooks([], token, 0)
  {
  }

  lemma {:induction false} BooksOfAll(chain: Chain, token: Token)
    requires Reachable(chain)
    ensures InBooks(chain, token, |chain|)
    decreases |chain|
  {
    hide InBooks, Invariant, Round, LastNonce;
    if chain == [] {
      NothingInBooks(token);
    } else {
      var before, slot := chain[..|chain| - 1], chain[|chain| - 1];
      BooksOfAll(before, token);
      ReachableInvariant(before);
      RoundKeepsBooks(before, slot, token);
      assert before + [slot] == chain;
    }
  }

  /** In every run, at every nonce, for every token: what was paid in is unspent or lost, and nothing else is. */
  lemma BalanceSplits(chain: Chain, token: Token, n: nat)
    requires Reachable(chain) && n <= |chain|
    ensures LedgerBalance(chain, token, n) == SumCommitted(Unspent(chain, token, n)) + LostSum(chain, token, n)
  {
    var past := chain[..n];
    assert past + chain[n..] == chain;
    ReachablePrefix(chain, n);
    BooksOfAll(past, token);
    HistoryPrefix(past, chain[n..], token, n);
    UnspentPrefix(past, chain[n..], token, n);
    LostPrefix(past, chain[n..], token, n);
  }

  /** In every run the active transactions are the unspent outputs that fit on the page. */
  lemma ActiveInRun(chain: Chain, token: Token, n: nat)
    requires Reachable(chain) && n <= |chain|
    ensures ActiveTxs(chain, token, n) == OnPage(Unspent(chain, token, n), PageLength(chain, token, n))
    ensures Unspent(chain, token, n) == ActiveTxs(chain, token, n) + Missed(chain, token, n)
    ensures ActiveTxs(chain, token, n) == Unspent(chain, token, n)
            <==> |Unspent(chain, token, n)| <= PageLength(chain, token, n)
  {
    hide Reachable, Invariant, Sound, TokenHistory, Unspent;
    var past := chain[..n];
    assert past + chain[n..] == chain;
    ReachablePrefix(chain, n);
    ReachableInvariant(past);
    SoundToken(past, token);
    SignedToken(past, token);
    ActiveArePage(past, token, n);
    HistoryPrefix(past, chain[n..], token, n);
    UnspentPrefix(past, chain[n..], token, n);
  }

  lemma SignedToken(chain: Chain, token: Token)
    requires Sound(chain, token)
    ensures WellSigned(TokenHistory(chain, Some(token), |chain|))
  {
  }

  // ---------------------------------------------------------------- what a send records

  /** A send records the balance before it less what it spent and less everything lost by then. */
  lemma {:induction false} SendRecords(chain: Chain, t: Tx)
    requires Reachable(chain) && t in TokenHistory(chain, Some(t.token), |chain|) && t.txType == Send
    ensures t.nonce < |chain| && Proper(t)
    ensures t.commitment.balance
            == LedgerBalance(chain, t.token, t.nonce) - t.amount - t.fee - LostSum(chain, t.token, t.nonce + 1)
    decreases |chain|
  {
    hide Built, Proper, LastNonce, Lost, Missed, LostSum, LedgerBalance, ActiveTxs, OfToken, TokenHistory, Unspent,
      PairwiseApart, Invariant;
    if chain != [] {
      var before, slot := chain[..|chain| - 1], chain[|chain| - 1];
      assert before + [slot] == chain;
      ReachableInvariant(before);
      TokenHistoryAfter(before, slot, t.token);
      if t in OfToken(slot, t.token) {
        SendOfRound(before, slot, t);
      } else {
        SendRecords(before, t);
        HistoryPrefix(before, [slot], t.token, t.nonce);
        LostPrefix(before, [slot], t.token, t.nonce + 1);
        SameLostSum(before, chain, t.token, t.nonce + 1);
      }
    } else {
      NoHistory(t.token);
    }
  }

  lemma NoHistory(token: Token)
    ensures TokenHistory([], Some(token), 0) == []
  {
  }

  lemma SameLostSum(chain: Chain, other: Chain, token: Token, n: nat)
    requires n <= |chain| && n <= |other| && Lost(chain, token, n) == Lost(other, token, n)
    ensures LostSum(chain, token, n) == LostSum(other, token, n)
  {
  }

  lemma {:induction false} SendOfRound(chain: Chain, slot: seq<Tx>, t: Tx)
    requires Reachable(chain) && Invariant(chain) && LastNonce(chain) >= -1 && Round(chain, slot)
    requires t in OfToken(slot, t.token) && t.txType == Send
    ensures t.nonce == |chain| && Proper(t)
    ensures t.commitment.balance == LedgerBalance(chain + [slot], t.token, |chain|) - t.amount - t.fee
                                    - LostSum(chain + [slot], t.token, |chain| + 1)
  {
    hide Built, Proper, LastNonce, Lost, Missed, LostSum, LedgerBalance, ActiveTxs, OfToken, TokenHistory, Unspent,
      PairwiseApart, Invariant, Reachable;
    var here := RoundOfToken(chain, slot, t.token);
    BuiltSend(chain, t);
    SoundToken(chain, t.token);
    UnspentIsPageAndMissed(chain, t.token);
    BooksOfAll(chain, t.token);
    var i :| 0 <= i < |here| && here[i] == t;
    assert HasSend(here);
    LostAfter(chain, slot, t.token);
    HistoryPrefix(chain, [slot], t.token, |chain|);
  }

  /** So a send records the ledger balance if and only if what was lost by then was worth nothing. */
  lemma RecordsExactly(chain: Chain, t: Tx)
    requires Reachable(chain) && t in TokenHistory(chain, Some(t.token), |chain|) && t.txType == Send
    ensures t.nonce < |chain|
    ensures Records(chain, t) <==> LostSum(chain, t.token, t.nonce + 1) == 0
    ensures t.metadata.None? ==> (CommitmentFor(chain, t).Ok? <==> LostSum(chain, t.token, t.nonce + 1) == 0)
  {
    hide Reachable, LostSum, LedgerBalance, TokenHistory, Rebuilt, CommitmentFor;
    SendRecords(chain, t);
    RebuiltExactly(chain, t);
  }

  // ---------------------------------------------------------------- the fast balance

  /** One past the nonce of the newest send with metadata before nonce `n`, or 0. */
  function MetadataEnd(chain: Chain, token: Token, n: nat): (m: nat)
    requires n <= |chain|
    ensures m <= n
  {
    if n == 0 then 0
    else if HasMetadata(OfToken(chain[n - 1], token)) then n
    else MetadataEnd(chain, token, n - 1)
  }

  predicate HasMetadata(txs: seq<Tx>) { exists i | 0 <= i < |txs| :: txs[i].txType == Send && txs[i].metadata.Some? }

  lemma {:induction false} MetadataEndPrefix(chain: Chain, more: Chain, token: Token, n: nat)
    requires n <= |chain|
    ensures MetadataEnd(chain + more, token, n) == MetadataEnd(chain, token, n)
  {
    if n > 0 { MetadataEndPrefix(chain, more, token, n - 1); }
  }

  lemma {:induction false} GapSkips(a: seq<Tx>, b: seq<Tx>)
    requires !HasMetadata(a)
    ensures Gap(a + b) == Gap(b)
  {
    if a == [] {
      assert a + b == b;
    } else {
      assert forall i :: 0 <= i < |a[1..]| ==> a[1..][i] == a[i + 1];
      GapSkips(a[1..], b);
      assert (a + b)[0] == a[0] && (a + b)[1..] == a[1..] + b;
    }
  }

  /** With metadata in a nonce, its one send has them. */
  lemma MetadataHere(here: seq<Tx>, token: Token)
    requires PairwiseApart(here) && (forall t :: t in here ==> t.token == token) && HasMetadata(here)
    ensures HasSend(here) && NewestSend(here) < |here|
    ensures here[NewestSend(here)].metadata.Some? && !HasMetadata(here[..NewestSend(here)])
  {
    hide PairwiseApart, NewestSend;
    assert HasSend(here);
    NewestSendWithin(here, []);
    assert here + [] == here;
    var i := NewestSend(here);
    var m :| 0 <= m < |here| && here[m].txType == Send && here[m].metadata.Some?;
    if m > i { NoSecondSend(here, token, i, m); }
    assert forall j :: 0 <= j < i ==> here[..i][j] == here[j];
  }

  /** The gap at the one send of a nonce. */
  lemma GapHere(here: seq<Tx>, token: Token, history: seq<Tx>, n: nat)
    requires PairwiseApart(here) && (forall t :: t in here ==> t.token == token && t.nonce == n)
    requires HasMetadata(here) && AllBelow(history, n)
    ensures var i := NewestSend(here);
            && i < |here| && here[i].txType == Send && here[i].metadata.Some?
            && Gap(here + history) == Balance(history) - here[i].amount - here[i].fee - here[i].metadata.value.balance
  {
    hide PairwiseApart, NewestSend, HasMetadata, HasSend, Balance, Gap, AllTopups, AllBelow;
    MetadataHere(here, token);
    OneSendHere(here, token);
    var i := NewestSend(here);
    var tail := [here[i]] + here[i + 1..];
    assert forall t :: t in tail ==> t in here;
    assert here + history == here[..i] + (tail + history);
    GapSkips(here[..i], tail + history);
    GapAtSend(tail, history, n);
  }

  lemma GapAtSend(tail: seq<Tx>, history: seq<Tx>, n: nat)
    requires tail != [] && tail[0].txType == Send && tail[0].metadata.Some?
    requires (forall t :: t in tail ==> t.nonce == n) && AllBelow(history, n)
    ensures Gap(tail + history)
            == Balance(history) - tail[0].amount - tail[0].fee - tail[0].metadata.value.balance
  {
    BelowNonceConcat(tail, history, n);
    BelowNonceElements(tail, n);
    BelowNonceElements(history, n);
    assert [] + history == history;
    assert (tail + history)[0] == tail[0];
  }

  lemma {:induction false} GapAfter(chain: Chain, slot: seq<Tx>, token: Token)
    requires Reachable(chain) && Invariant(chain) && LastNonce(chain) >= -1 && Round(chain, slot)
    requires Gap(TokenHistory(chain, Some(token), |chain|)) == LostSum(chain, token, MetadataEnd(chain, token, |chain|))
    ensures var next := chain + [slot];
            Gap(TokenHistory(next, Some(token), |next|)) == LostSum(next, token, MetadataEnd(next, token, |next|))
  {
    hide Built, Proper, LastNonce, Lost, Missed, LostSum, ActiveTxs, OfToken, TokenHistory, Unspent, PairwiseApart,
      Invariant, Reachable, Gap;
    var next, history := chain + [slot], TokenHistory(chain, Some(token), |chain|);
    var here := RoundOfToken(chain, slot, token);
    TokenHistoryAfter(chain, slot, token);
    MetadataEndPrefix(chain, [slot], token, |chain|);
    if HasMetadata(here) {
      SoundToken(chain, token);
      TokenHistoryBounds(chain, Some(token), |chain|);
      GapHere(here, token, history, |chain|);
      var t := here[NewestSend(here)];
      assert t in here;
      SendOfRound(chain, slot, t);
      HistoryPrefix(chain, [slot], token, |chain|);
      MetadataOfProper(t);
    } else {
      GapSkips(here, history);
      LostPrefix(chain, [slot], token, MetadataEnd(chain, token, |chain|));
      SameLostSum(chain, next, token, MetadataEnd(chain, token, |chain|));
    }
  }

  lemma MetadataOfProper(t: Tx)
    requires Proper(t) && t.txType == Send && t.metadata.Some?
    ensures t.metadata.value.balance == t.commitment.balance
  {
  }

  lemma NoGap(token: Token)
    ensures Gap(TokenHistory([], Some(token), 0)) == LostSum([], token, MetadataEnd([], token, 0))
  {
  }

  lemma {:induction false} GapIsLost(chain: Chain, token: Token)
    requires Reachable(chain)
    ensures Gap(TokenHistory(chain, Some(token), |chain|)) == LostSum(chain, token, MetadataEnd(chain, token, |chain|))
    decreases |chain|
  {
    hide Gap, TokenHistory, LostSum, MetadataEnd, Invariant, Round, LastNonce;
    if chain == [] {
      NoGap(token);
    } else {
      var before, slot := chain[..|chain| - 1], chain[|chain| - 1];
      GapIsLost(before, token);
      ReachableInvariant(before);
      GapAfter(before, slot, token);
      assert before + [slot] == chain;
    }
  }

  /**
   In every run the fast balance, read off the newest send's metadata, is the balance of the whole history less what
   was lost up to that send, for every token and every `before`; legacy sends may occur anywhere. So it is right if and
   only if that was worth nothing.
   */
  lemma FastBalanceExactly(chain: Chain, token: Token, before: Option<int>)
    requires Reachable(chain)
    ensures var n := Clip(chain, before);
            MetadataBalance(TokenHistory(chain, Some(token), n), 0)
            == Ok(LedgerBalance(chain, token, n) - LostSum(chain, token, MetadataEnd(chain, token, n)))
  {
    hide Reachable, Invariant, Sound, TokenHistory, MetadataEnd, Lost, MetadataBalance, Gap, Balance;
    var n := Clip(chain, before);
    var past := chain[..n];
    assert past + chain[n..] == chain;
    ReachablePrefix(chain, n);
    ReachableInvariant(past);
    SoundToken(past, token);
    SignedToken(past, token);
    GapIsLost(past, token);
    TokenHistoryBounds(past, Some(token), n);
    MetadataBalanceExactly(TokenHistory(past, Some(token), n), 0);
    HistoryPrefix(past, chain[n..], token, n);
    MetadataEndPrefix(past, chain[n..], token, n);
    LostPrefix(past, chain[n..], token, MetadataEnd(past, token, n));
  }

  // ---------------------------------------------------------------- when nothing is lost

  /** Every send of the token before nonce `n` was built when all unspent outputs fitted on the page. */
  ghost predicate AllFitted(chain: Chain, token: Token, n: nat)
    requires n <= |chain|
  {
    forall k :: 0 <= k < n && HasSend(OfToken(chain[k], token)) ==>
      |Unspent(chain, token, k)| <= PageLength(chain, token, k)
  }

  /** Nothing is lost exactly as long as every send finds all unspent outputs on its page. */
  lemma {:induction false} NothingLostExactly(chain: Chain, token: Token, n: nat)
    requires n <= |chain|
    ensures Lost(chain, token, n) == [] <==> AllFitted(chain, token, n)
  {
    hide OfToken, Unspent, PageLength, Missed;
    if n > 0 {
      NothingLostExactly(chain, token, n - 1);
      MissedExactly(chain, token, n - 1);
    }
  }

  lemma MissedExactly(chain: Chain, token: Token, n: nat)
    requires n <= |chain|
    ensures Missed(chain, token, n) == [] <==> |Unspent(chain, token, n)| <= PageLength(chain, token, n)
  {
  }

  /** Then both balances agree, the active outputs hold them, and every send records them. */
  lemma BalancesAgree(chain: Chain, token: Token)
    requires Reachable(chain) && AllFitted(chain, token, |chain|)
    ensures var n := |chain|;
            && MetadataBalance(TokenHistory(chain, Some(token), n), 0) == Ok(LedgerBalance(chain, token, n))
            && SumCommitted(Unspent(chain, token, n)) == LedgerBalance(chain, token, n)
            && WellRecorded(chain, token)
  {
    var n := |chain|;
    NothingLostExactly(chain, token, n);
    BalanceSplits(chain, token, n);
    FastBalanceExactly(chain, token, None);
    ReachableInvariant(chain);
    assert Sound(chain, token);
    FittedBefore(chain, token);
    FilterElements(History(chain, n), Some(token));
    TokenHistoryBounds(chain, Some(token), n);
    forall t | t in TokenHistory(chain, Some(token), n) ensures Records(chain, t) {
      if t.txType == Send { RecordsExactly(chain, t); }
    }
  }

  lemma FittedBefore(chain: Chain, token: Token)
    requires AllFitted(chain, token, |chain|)
    ensures forall m: nat :: m <= |chain| ==> Lost(chain, token, m) == [] && LostSum(chain, token, m) == 0
  {
    forall m: nat | m <= |chain| ensures Lost(chain, token, m) == [] {
      NothingLostExactly(chain, token, m);
    }
  }

  // ---------------------------------------------------------------- what is lost stays lost

  /** What is lost is older than every unspent output. */
  lemma {:induction false} LostIsOlder(chain: Chain, token: Token, n: nat)
    requires ValidChain(chain) && n <= |chain|
    ensures AllBelow(Lost(chain, token, n), n) && AllBelow(Unspent(chain, token, n), n)
    ensures forall t, u :: t in Lost(chain, token, n) && u in Unspent(chain, token, n) ==> t.nonce < u.nonce
  {
    hide PageLength, OnPage;
    if n > 0 {
      LostIsOlder(chain, token, n - 1);
      SlotNonces(chain, token, n);
      MissedAreUnspent(chain, token, n - 1);
    }
  }

  lemma MissedAreUnspent(chain: Chain, token: Token, n: nat)
    requires n <= |chain|
    ensures forall t :: t in Missed(chain, token, n) ==> t in Unspent(chain, token, n)
  {
  }

  lemma {:induction false} LostGrows(chain: Chain, token: Token, n: nat, m: nat)
    requires n <= m <= |chain|
    ensures forall t :: t in Lost(chain, token, n) ==> t in Lost(chain, token, m)
  {
    if n < m { LostGrows(chain, token, n, m - 1); }
  }

  /** An output that was lost is never among the active transactions again. */
  lemma LostForever(chain: Chain, token: Token, n: nat, m: nat, t: Tx)
    requires Reachable(chain) && n <= m <= |chain| && t in Lost(chain, token, n)
    ensures t !in Unspent(chain, token, m) && t !in ActiveTxs(chain, token, m)
  {
    ReachableInvariant(chain);
    LostGrows(chain, token, n, m);
    LostIsOlder(chain, token, m);
    ActiveInRun(chain, token, m);
  }
}
