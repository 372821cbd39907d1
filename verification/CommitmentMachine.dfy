/**
 The commitments (unspent outputs) behind the ledger: how the SDK finds the active ones, and how topups,
 sends and merges are built from them (src/sdk/paramManagers/CommitmentManager.ts,
 src/sdk/transactions/txBuilding/TransactionBuilding.ts, src/public/elusiv.ts).

 A chain is reachable when the transactions of every nonce were built from the chain before that nonce.
 */
module CommitmentMachine {
  import opened Common
  import opened Ledger

  // ---------------------------------------------------------------- commitments of transactions

  /** `buildCommitmentForPartialStore` and `buildTopupCommitment` */
  function TopupCommitment(nonce: nat, amount: nat, token: Token, startIndex: nat): Commitment {
    Commitment(nonce, amount, token, startIndex)
  }

  /** `buildCommitmentForSend` */
  function CommitmentForSend(nonce: nat, token: Token, privateBalanceBeforeNonce: int, sendAmount: nat,
        totalFee: nat, startIndex: nat): Commitment {
    Commitment(nonce, privateBalanceBeforeNonce - sendAmount - totalFee, token, startIndex)
  }

  /** `getCommitmentForTransaction`: from the metadata if it matches, else from the full history. */
  function CommitmentFor(chain: Chain, t: Tx): Result<Commitment> {
    if t.txType == Topup then Ok(TopupCommitment(t.nonce, t.amount, t.token, t.startIndex))
    else if t.metadata.Some? && t.metadata.value == t.commitment then Ok(t.metadata.value)
    else
      var slow := CommitmentForSend(t.nonce, t.token, LedgerBalance(chain, t.token, Clip(chain, Some(t.nonce))),
          t.amount, t.fee, t.startIndex);
      if slow == t.commitment then Ok(slow) else Err(NotReconstructed)
  }

  function OfType(txs: seq<Tx>, txType: TxType): seq<Tx> {
    if txs == [] then []
    else if txs[0].txType == txType then [txs[0]] + OfType(txs[1..], txType)
    else OfType(txs[1..], txType)
  }

  function CommitmentsFor(chain: Chain, txs: seq<Tx>): Result<seq<Commitment>> {
    if txs == [] then Ok([])
    else match CommitmentFor(chain, txs[0])
      case Err(e) => Err(e)
      case Ok(c) =>
        match CommitmentsFor(chain, txs[1..])
        case Err(e) => Err(e)
        case Ok(cs) => Ok([c] + cs)
  }

  /** Adding to the insertion-ordered set of commitments, keyed by hash. */
  function AddToSet(set_: seq<Commitment>, c: Commitment): seq<Commitment> { if c in set_ then set_ else set_ + [c] }

  function AddAllToSet(set_: seq<Commitment>, cs: seq<Commitment>): seq<Commitment>
    decreases cs
  {
    if cs == [] then set_ else AddAllToSet(AddToSet(set_, cs[0]), cs[1..])
  }

  /** `getIncompleteCommitmentsForTxs`: the topups' commitments first, the sends' after them. */
  function IncompleteCommitments(chain: Chain, txs: seq<Tx>): Result<seq<Commitment>> {
    match CommitmentsFor(chain, OfType(txs, Topup) + OfType(txs, Send))
    case Err(e) => Err(e)
    case Ok(cs) => Ok(AddAllToSet([], cs))
  }

  /** The start indices it returns beside them, in the order of the transactions. */
  function StartIndices(txs: seq<Tx>): seq<nat> {
    if txs == [] then [] else [txs[0].startIndex] + StartIndices(txs[1..])
  }

  /** `getActiveCommitments`, once the newest transaction is confirmed. */
  function ActiveCommitments(chain: Chain, token: Token): Result<seq<Commitment>> {
    IncompleteCommitments(chain, ActiveTxs(chain, token, |chain|))
  }

  function SumBalances(cs: seq<Commitment>): int {
    if cs == [] then 0 else cs[0].balance + SumBalances(cs[1..])
  }

  // ---------------------------------------------------------------- building transactions

  /** `needMerge` */
  function NeedMerge(activeCommitments: seq<Commitment>): Result<bool> {
    if |activeCommitments| > SEND_ARITY then Err(InvalidSize) else Ok(|activeCommitments| == SEND_ARITY)
  }

  /** `getMostRecentNonce` */
  function LastNonce(chain: Chain): int {
    var h := History(chain, |chain|);
    if h == [] then -1 else h[0].nonce
  }

  /** What the user asks for; the fee comes from the fee calculator, the start index from the tree. */
  datatype Request = Request(token: Token, amount: nat, fee: nat, startIndex: nat, sig: nat)

  /** `buildSendTx`: all active commitments go in, one commitment comes out. */
  function BuildSend(cs: seq<Commitment>, lastNonce: int, q: Request, legacy: bool): Result<Tx>
    requires lastNonce >= -1
  {
    if |cs| == 0 then Err(TooSmall)
    else
      var nonce := lastNonce + 1;
      var next := CommitmentForSend(nonce, q.token, SumBalances(cs), q.amount, q.fee, q.startIndex);
      Ok(Tx(Send, nonce, q.token, q.amount, q.fee, q.startIndex, next, if legacy then None else Some(next), q.sig))
  }

  /**
   `buildTopUpTxData` and `buildStoreTx`; `mergeFee` is set when a merge was just sent. The second part is the private
   balance it states.
   */
  function BuildTopup(cs: seq<Commitment>, lastNonce: int, q: Request, mergeFee: Option<nat>): Result<(Tx, int)>
    requires lastNonce >= -1
  {
    if |cs| == SEND_ARITY && mergeFee == None then Err(MergeNeeded)
    else
      var prevNonce := if mergeFee.Some? then lastNonce + 1 else lastNonce;
      var privateBalance := SumBalances(cs) + q.amount - (if mergeFee.Some? then mergeFee.value else 0);
      var nonce := prevNonce + 1;
      Ok((Tx(Topup, nonce, q.token, q.amount, q.fee, q.startIndex,
             TopupCommitment(nonce, q.amount, q.token, q.startIndex), None, q.sig),
          privateBalance))
  }

  /**
   What a send is, whatever it spends. With metadata its commitment is found again on every chain; a legacy send's is
   found again exactly where the history before its nonce adds up to what it spent.
   */
  lemma SendFoundAgain(cs: seq<Commitment>, lastNonce: int, q: Request, legacy: bool, chain: Chain)
    requires lastNonce >= -1
    ensures var r := BuildSend(cs, lastNonce, q, legacy);
            && (r.Ok? <==> cs != [])
            && (r.Ok? ==>
                  var t, before := r.value, LedgerBalance(chain, q.token, Clip(chain, Some(lastNonce + 1)));
                  && t.txType == Send && t.nonce == lastNonce + 1 && t.token == q.token
                  && t.amount == q.amount && t.fee == q.fee && t.startIndex == q.startIndex && t.sig == q.sig
                  && t.commitment.balance == SumBalances(cs) - q.amount - q.fee
                  && (t.metadata.Some? <==> !legacy)
                  && (CommitmentFor(chain, t) == Ok(t.commitment) <==> !legacy || before == SumBalances(cs))
                  && (CommitmentFor(chain, t).Err? <==> legacy && before != SumBalances(cs)))
  {
    hide LedgerBalance, SumBalances;
  }

  /**
   What a topup is, whatever is active. It is refused exactly for SEND_ARITY active commitments and no merge; its
   commitment is found again on every chain, and it states what is active, less the merge's fee, and its own amount.
   */
  lemma TopupFoundAgain(cs: seq<Commitment>, lastNonce: int, q: Request, mergeFee: Option<nat>, chain: Chain)
    requires lastNonce >= -1
    ensures var r := BuildTopup(cs, lastNonce, q, mergeFee);
            && (r == Err(MergeNeeded) <==> |cs| == SEND_ARITY && mergeFee.None?)
            && (r.Err? ==> r == Err(MergeNeeded))
            && (r.Ok? ==>
                  var t := r.value.0;
                  && t.txType == Topup && t.nonce == lastNonce + (if mergeFee.Some? then 2 else 1)
                  && t.token == q.token && t.amount == q.amount && t.fee == q.fee && t.startIndex == q.startIndex
                  && t.sig == q.sig && t.commitment.balance == q.amount && CommitmentFor(chain, t) == Ok(t.commitment)
                  && r.value.1 == SumBalances(cs) + q.amount - if mergeFee.Some? then mergeFee.value else 0)
  {
    hide SumBalances;
  }

  /** The transaction `t` is what the SDK builds from the chain before it. */
  ghost predicate Built(chain: Chain, t: Tx)
    requires LastNonce(chain) >= -1
  {
    var q := Request(t.token, t.amount, t.fee, t.startIndex, t.sig);
    match ActiveCommitments(chain, t.token)
    case Err(_) => false
    case Ok(cs) =>
      match t.txType
      case Send => BuildSend(cs, LastNonce(chain), q, t.metadata.None?) == Ok(t)
      case Topup =>
        var r := BuildTopup(cs, LastNonce(chain), q, None);
        NeedMerge(cs) == Ok(false) && r.Ok? && r.value.0 == t
  }

  /** What a nonce holds of one token, in history order. */
  function OfToken(slot: seq<Tx>, token: Token): seq<Tx> { Filter(Reverse(slot), Some(token)) }

  /** Two transactions of one nonce: not two sends of a token, different commitments, different signatures. */
  ghost predicate Apart(t: Tx, u: Tx) {
    !(t.txType == Send == u.txType && t.token == u.token) && t.commitment != u.commitment && t.sig != u.sig
  }

  ghost predicate PairwiseApart(txs: seq<Tx>) {
    forall i, j :: 0 <= i < j < |txs| ==> Apart(txs[i], txs[j])
  }

  /**
   The transactions that end up under the next nonce. As a rule it is one; when sends, merges and topups
   of any tokens are built at the same time from the same chain, they share a nonce.
   */
  ghost predicate Round(chain: Chain, slot: seq<Tx>)
    requires LastNonce(chain) >= -1
  {
    && slot != [] && |chain| < MAX_UINT32
    && (forall t :: t in slot ==> Built(chain, t))
    && PairwiseApart(slot)
    && (forall t, n, u :: t in slot && 0 <= n < |chain| && u in chain[n] ==> t.sig != u.sig)
  }

  /** Every nonce was filled by a round built from the chain before it. */
  ghost predicate Reachable(chain: Chain) {
    chain != [] ==>
      var before, slot := chain[..|chain| - 1], chain[|chain| - 1];
      Reachable(before) && LastNonce(before) >= -1 && Round(before, slot)
  }

  // ---------------------------------------------------------------- the unspent outputs, by their meaning

  /**
   A send spends everything of its token that was unspent before its nonce. What shares its nonce was
   built beside it and is not spent by it.
   */
  function Unspent(chain: Chain, token: Token, n: nat): seq<Tx>
    requires n <= |chain|
  {
    if n == 0 then []
    else
      var here := Filter(Reverse(chain[n - 1]), Some(token));
      if HasSend(here) then here else here + Unspent(chain, token, n - 1)
  }

  ghost predicate DistinctSigs(txs: seq<Tx>) {
    forall i, j :: 0 <= i < j < |txs| ==> txs[i].sig != txs[j].sig
  }

  /**
   The unspent outputs are the newest part of the history: down to the whole of the newest send's nonce
   `k`, or all of it (`k` is -1) when there is no send.
   */
  ghost predicate SplitsAt(history: seq<Tx>, unspent: seq<Tx>, rest: seq<Tx>, k: int) {
    && history == unspent + rest
    && AllFrom(unspent, k) && AllBelow(rest, k)
    && (if k < 0 then !HasSend(unspent)
        else HasSend(unspent) && NewestSend(unspent) < |unspent| && unspent[NewestSend(unspent)].nonce == k)
  }

  lemma {:induction false} NewestSendAfter(a: seq<Tx>, b: seq<Tx>)
    requires !HasSend(a)
    ensures NewestSend(a + b) == |a| + NewestSend(b)
    ensures HasSend(a + b) <==> HasSend(b)
  {
    if a == [] {
      assert a + b == b;
    } else {
      assert forall i :: 0 <= i < |a[1..]| ==> a[1..][i] == a[i + 1];
      NewestSendAfter(a[1..], b);
      assert (a + b)[0] == a[0] && (a + b)[1..] == a[1..] + b;
    }
    assert forall i :: 0 <= i < |b| ==> (a + b)[|a| + i] == b[i];
  }

  lemma {:induction false} NewestSendWithin(a: seq<Tx>, b: seq<Tx>)
    requires HasSend(a)
    ensures NewestSend(a + b) == NewestSend(a) < |a| && HasSend(a + b)
  {
    assert (a + b)[0] == a[0] && (a + b)[1..] == a[1..] + b;
    if a[0].txType != Send {
      var i :| 0 <= i < |a| && a[i].txType == Send;
      assert a[1..][i - 1] == a[i];
      NewestSendWithin(a[1..], b);
    }
    var j := NewestSend(a);
    assert (a + b)[j] == a[j];
  }

  lemma TokenHistoryStep(chain: Chain, token: Option<Token>, n: nat)
    requires 0 < n <= |chain|
    ensures TokenHistory(chain, token, n) == Filter(Reverse(chain[n - 1]), token) + TokenHistory(chain, token, n - 1)
  {
    FilterConcat(Reverse(chain[n - 1]), History(chain, n - 1), token);
  }

  lemma SlotNonces(chain: Chain, token: Token, n: nat)
    requires ValidChain(chain) && 0 < n <= |chain|
    ensures forall t :: t in Filter(Reverse(chain[n - 1]), Some(token)) ==> t.nonce == n - 1
  {
    assert ValidSlot(chain[n - 1], n - 1);
    FilterElements(Reverse(chain[n - 1]), Some(token));
  }

  /** What is left of the history before nonce `k`. */
  function Before(chain: Chain, token: Token, k: int): seq<Tx>
    requires k <= |chain|
  {
    if k < 0 then [] else TokenHistory(chain, Some(token), k)
  }

  lemma SplitOverTopups(here: seq<Tx>, history: seq<Tx>, unspent: seq<Tx>, rest: seq<Tx>, k: int)
    requires SplitsAt(history, unspent, rest, k) && !HasSend(here) && AllFrom(here, k)
    ensures SplitsAt(here + history, here + unspent, rest, k)
  {
    NewestSendAfter(here, unspent);
    assert here + (unspent + rest) == here + unspent + rest;
    if k >= 0 {
      assert (here + unspent)[|here| + NewestSend(unspent)] == unspent[NewestSend(unspent)];
    }
  }

  lemma {:induction false} UnspentSplits(chain: Chain, token: Token, n: nat) returns (k: int)
    requires ValidChain(chain) && n <= |chain|
    ensures -1 <= k <= n - 1
    ensures SplitsAt(TokenHistory(chain, Some(token), n), Unspent(chain, token, n), Before(chain, token, k), k)
  {
    k := -1;
    if n > 0 {
      var here := Filter(Reverse(chain[n - 1]), Some(token));
      TokenHistoryStep(chain, Some(token), n);
      SlotNonces(chain, token, n);
      if HasSend(here) {
        k := n - 1;
        TokenHistoryBounds(chain, Some(token), n - 1);
        NewestSendWithin(here, []);
        assert here + [] == here && here[NewestSend(here)] in here;
      } else {
        k := UnspentSplits(chain, token, n - 1);
        SplitOverTopups(here, TokenHistory(chain, Some(token), n - 1), Unspent(chain, token, n - 1), Before(chain,
            token, k), k);
      }
    }
  }

  ghost predicate AllTopups(txs: seq<Tx>) { forall t :: t in txs ==> t.txType == Topup }

  /** Around its newest send the unspent part is topups only, those after it of the send's own nonce. */
  lemma AroundSend(unspent: seq<Tx>, i: nat)
    requires i == NewestSend(unspent) < |unspent|
    requires OneSendPerNonce(unspent) && Descending(unspent) && AllFrom(unspent, unspent[i].nonce)
    ensures AllTopups(unspent[..i]) && AllTopups(unspent[i + 1..])
    ensures forall t :: t in unspent[i + 1..] ==> t.nonce == unspent[i].nonce
  {
    assert forall j :: 0 <= j < i ==> unspent[..i][j] == unspent[j];
    AfterSend(unspent, i);
    var late := unspent[i + 1..];
    assert forall j :: 0 <= j < |late| ==> late[j] == unspent[i + 1 + j];
  }

  lemma AfterSend(unspent: seq<Tx>, i: nat)
    requires i < |unspent| && unspent[i].txType == Send
    requires OneSendPerNonce(unspent) && Descending(unspent) && AllFrom(unspent, unspent[i].nonce)
    ensures forall j :: i < j < |unspent| ==> unspent[j].nonce == unspent[i].nonce && unspent[j].txType == Topup
  {
    forall j | i < j < |unspent|
      ensures unspent[j].nonce == unspent[i].nonce && unspent[j].txType == Topup
    {
      assert unspent[j] in unspent;
    }
  }

  // ---------------------------------------------------------------- getActiveTxs finds them

  /** What a history needs so that its sends can be told apart. */
  ghost predicate WellSigned(txs: seq<Tx>) { OneSendPerNonce(txs) && DistinctSigs(txs) }

  lemma {:induction false} LateTopupsConcat(a: seq<Tx>, b: seq<Tx>, nonce: nat, included: seq<Tx>)
    ensures LateTopups(a + b, nonce, included) == LateTopups(a, nonce, included) + LateTopups(b, nonce, included)
  {
    if a == [] {
      assert a + b == b;
    } else {
      LateTopupsConcat(a[1..], b, nonce, included);
      assert (a + b)[0] == a[0] && (a + b)[1..] == a[1..] + b;
      var ra, rb := LateTopups(a[1..], nonce, included), LateTopups(b, nonce, included);
      assert [a[0]] + (ra + rb) == [a[0]] + ra + rb;
    }
  }

  lemma {:induction false} LateTopupsAllOrNone(txs: seq<Tx>, nonce: nat, included: seq<Tx>)
    ensures (forall t :: t in txs ==> IsLateTopup(t, nonce, included)) ==> LateTopups(txs, nonce, included) == txs
    ensures (forall t :: t in txs ==> !IsLateTopup(t, nonce, included)) ==> LateTopups(txs, nonce, included) == []
    ensures |LateTopups(txs, nonce, included)| <= |txs|
  {
    if txs != [] {
      LateTopupsAllOrNone(txs[1..], nonce, included);
      assert txs[0] in txs && forall t :: t in txs[1..] ==> t in txs;
      assert txs == [txs[0]] + txs[1..];
    }
  }

  /** Among a send and what is above it, included by signature, nothing is late. */
  lemma IncludedIsNotLate(included: seq<Tx>, others: seq<Tx>, nonce: nat)
    ensures LateTopups(included + others, nonce, included) == LateTopups(others, nonce, included)
  {
    LateTopupsConcat(included, others, nonce, included);
    assert forall t :: t in included ==> exists i :: 0 <= i < |included| && included[i] == t;
    LateTopupsAllOrNone(included, nonce, included);
  }

  /** After the included transactions, the late ones are the topups of the same nonce. */
  lemma LateAreTheRest(included: seq<Tx>, late: seq<Tx>, more: seq<Tx>, n: nat)
    requires AllTopups(late) && (forall t :: t in late ==> t.nonce == n) && AllBelow(more, n)
    requires SigsApart(included, late)
    ensures LateTopups(included + (late + more), n, included) == late
  {
    assert forall i :: 0 <= i < |included| ==> included[i] in included;
    IncludedIsNotLate(included, late + more, n);
    LateTopupsConcat(late, more, n, included);
    LateTopupsAllOrNone(late, n, included);
    LateTopupsAllOrNone(more, n, included);
  }

  /** A page that reaches past the newest send's nonce gives exactly the unspent part. */
  lemma ActiveOfReachingPage(unspent: seq<Tx>, more: seq<Tx>, k: int)
    requires SplitsAt(unspent + more, unspent, more, k) && (k < 0 ==> more == [])
    requires WellSigned(unspent) && Descending(unspent)
    ensures ActiveOf(unspent + more) == unspent
  {
    if k < 0 {
      assert unspent + more == unspent;
      NewestSendAfter(unspent, []);
      assert unspent + [] == unspent;
    } else {
      NewestSendWithin(unspent, more);
      ActiveAroundSend(unspent, more, NewestSend(unspent));
    }
  }

  lemma ActiveAroundSend(unspent: seq<Tx>, more: seq<Tx>, i: nat)
    requires i == NewestSend(unspent) == NewestSend(unspent + more) < |unspent|
    requires WellSigned(unspent) && Descending(unspent) && AllFrom(unspent, unspent[i].nonce)
    requires AllBelow(more, unspent[i].nonce)
    ensures ActiveOf(unspent + more) == unspent
  {
    AroundSend(unspent, i);
    DistinctSigsApart(unspent, i + 1);
    ActiveCut(unspent, more, i);
  }

  lemma ActiveCut(unspent: seq<Tx>, more: seq<Tx>, i: nat)
    requires i == NewestSend(unspent + more) < |unspent|
    requires AllTopups(unspent[i + 1..]) && (forall t :: t in unspent[i + 1..] ==> t.nonce == unspent[i].nonce)
    requires AllBelow(more, unspent[i].nonce)
    requires SigsApart(unspent[..i + 1], unspent[i + 1..])
    ensures ActiveOf(unspent + more) == unspent
  {
    CutConcat(unspent, more, i + 1);
    ActiveParts(unspent[..i + 1], unspent[i + 1..], more);
  }

  lemma CutConcat(txs: seq<Tx>, more: seq<Tx>, m: nat)
    requires m <= |txs|
    ensures txs == txs[..m] + txs[m..] && txs + more == txs[..m] + (txs[m..] + more)
  {
  }

  lemma ActiveParts(included: seq<Tx>, late: seq<Tx>, more: seq<Tx>)
    requires included != [] && NewestSend(included + (late + more)) == |included| - 1
    requires var n := included[|included| - 1].nonce;
             AllTopups(late) && (forall t :: t in late ==> t.nonce == n) && AllBelow(more, n)
    requires SigsApart(included, late)
    ensures ActiveOf(included + (late + more)) == included + late
  {
    var page, i := included + (late + more), |included| - 1;
    LateAreTheRest(included, late, more, included[i].nonce);
    assert page[..i + 1] == included && page[i] == included[i];
  }

  ghost predicate SigsApart(a: seq<Tx>, b: seq<Tx>) { forall t, u :: t in a && u in b ==> t.sig != u.sig }

  lemma DistinctSigsApart(txs: seq<Tx>, m: nat)
    requires DistinctSigs(txs) && m <= |txs|
    ensures SigsApart(txs[..m], txs[m..])
  {
    forall t, u | t in txs[..m] && u in txs[m..]
      ensures t.sig != u.sig
    {
      var i :| 0 <= i < m && txs[..m][i] == t;
      var j :| 0 <= j < |txs[m..]| && txs[m..][j] == u;
      assert u == txs[m + j];
    }
  }

  /** How many transactions of the token `getActiveTxs` fetches: SEND_ARITY, and the rest of the last nonce. */
  function PageLength(chain: Chain, token: Token, n: nat): nat
    requires n <= |chain|
  {
    WholeLength(TokenHistory(chain, Some(token), n), SEND_ARITY)
  }

  /** The unspent outputs that fit on the page. */
  function OnPage(unspent: seq<Tx>, page: nat): seq<Tx> { if |unspent| <= page then unspent else unspent[..page] }

  /**
   `getActiveTxs` returns the unspent outputs that fit on the one page it fetches, in history order and each once. When
   they do not all fit these are topups only, at least SEND_ARITY of them.
   */
  lemma ActiveArePage(chain: Chain, token: Token, n: nat)
    requires ValidChain(chain) && n <= |chain| && WellSigned(TokenHistory(chain, Some(token), n))
    ensures var unspent, page := Unspent(chain, token, n), PageLength(chain, token, n);
            && ActiveTxs(chain, token, n) == OnPage(unspent, page)
            && (|unspent| > page ==> page >= SEND_ARITY && AllTopups(unspent[..page]))
  {
    var k := UnspentSplits(chain, token, n);
    TokenHistoryBounds(chain, Some(token), n);
    var history := TokenHistory(chain, Some(token), n);
    var m := WholeLength(history, SEND_ARITY);
    ActiveOfPage(history, Unspent(chain, token, n), Before(chain, token, k), k, m);
  }

  lemma ActiveOfPage(history: seq<Tx>, unspent: seq<Tx>, rest: seq<Tx>, k: int, m: nat)
    requires SplitsAt(history, unspent, rest, k) && (k < 0 ==> rest == []) && m <= |history|
    requires WellSigned(history) && Descending(history)
    requires 0 < m < |history| ==> history[m].nonce != history[m - 1].nonce
    requires m < |history| ==> m > 0
    ensures ActiveOf(history[..m]) == OnPage(unspent, m)
    ensures m < |unspent| ==> AllTopups(unspent[..m])
  {
    PrefixKeeps(history, unspent, rest);
    if |unspent| <= m {
      var more := rest[..m - |unspent|];
      assert history[..m] == unspent + more;
      assert forall t :: t in more ==> t in rest;
      ActiveOfReachingPage(unspent, more, k);
    } else {
      assert history[..m] == unspent[..m];
      CutIsTopups(unspent, k, m);
      NewestSendAfter(unspent[..m], []);
      assert unspent[..m] + [] == unspent[..m];
    }
  }

  /** A page cut before the last unspent output holds no send: a send comes with the whole of its nonce. */
  lemma CutIsTopups(unspent: seq<Tx>, k: int, m: nat)
    requires OneSendPerNonce(unspent) && Descending(unspent) && AllFrom(unspent, k) && 0 < m < |unspent|
    requires if k < 0 then !HasSend(unspent)
             else HasSend(unspent) && NewestSend(unspent) < |unspent| && unspent[NewestSend(unspent)].nonce == k
    requires unspent[m].nonce != unspent[m - 1].nonce
    ensures AllTopups(unspent[..m]) && !HasSend(unspent[..m])
  {
    var i := NewestSend(unspent);
    if k >= 0 && i < m { AfterSend(unspent, i); }
    assert forall j :: 0 <= j < m ==> unspent[..m][j] == unspent[j];
  }

  lemma PrefixKeeps(history: seq<Tx>, a: seq<Tx>, b: seq<Tx>)
    requires history == a + b && WellSigned(history) && Descending(history)
    ensures WellSigned(a) && Descending(a)
  {
    assert forall i :: 0 <= i < |a| ==> history[i] == a[i];
  }

  // ---------------------------------------------------------------- their balances

  /**
   A transaction records what it leaves: a topup its amount, a send the balance before its nonce less what it spent.
   */
  ghost predicate Records(chain: Chain, t: Tx) {
    && t.nonce < |chain|
    && match t.txType
       case Topup => t.commitment == TopupCommitment(t.nonce, t.amount, t.token, t.startIndex)
       case Send =>
         && var before := LedgerBalance(chain, t.token, t.nonce);
         && t.commitment == CommitmentForSend(t.nonce, t.token, before, t.amount, t.fee, t.startIndex)
         && (t.metadata.None? || t.metadata.value == t.commitment)
  }

  /**
   What a transaction the SDK built looks like: a topup commits to its amount, a send to whatever balance it was built
   with, and its metadata, if any, are those of its commitment.
   */
  ghost predicate Proper(t: Tx) {
    match t.txType
    case Topup => t.commitment == TopupCommitment(t.nonce, t.amount, t.token, t.startIndex)
    case Send =>
      && t.commitment == Commitment(t.nonce, t.commitment.balance, t.token, t.startIndex)
      && (t.metadata.None? || t.metadata.value == t.commitment)
  }

  /** The commitment of the transaction is found again, from its metadata or from the history. */
  ghost predicate Rebuilt(chain: Chain, t: Tx) { CommitmentFor(chain, t) == Ok(t.commitment) }

  /** The commitment of `t` is what the history before its nonce and its own fields give. */
  ghost predicate GivenByHistory(chain: Chain, t: Tx) {
    t.commitment == Commitment(t.nonce, LedgerBalance(chain, t.token, Clip(chain, Some(t.nonce))) - t.amount - t.fee,
                               t.token, t.startIndex)
  }

  /**
   Of any transaction on any chain: what is found again of a send is its commitment, and it is found if and only if its
   metadata or the history give it; what does not match the commitment is never taken. A topup's is never compared.
   */
  lemma FoundAgainExactly(chain: Chain, t: Tx)
    ensures t.txType == Topup ==> CommitmentFor(chain, t) == Ok(Commitment(t.nonce, t.amount, t.token, t.startIndex))
    ensures t.txType == Send ==>
              && (CommitmentFor(chain, t) == Ok(t.commitment)
                  <==> t.metadata == Some(t.commitment) || GivenByHistory(chain, t))
              && (CommitmentFor(chain, t) == Err(NotReconstructed)
                  <==> t.metadata != Some(t.commitment) && !GivenByHistory(chain, t))
  {
    hide LedgerBalance;
  }

  /**
   The commitment of a topup, and of a send with metadata, is always found again; that of a legacy send if and only if
   it records the balance.
   */
  lemma RebuiltExactly(chain: Chain, t: Tx)
    requires Proper(t)
    ensures CommitmentFor(chain, t).Ok? <==> Rebuilt(chain, t)
    ensures t.nonce < |chain| ==>
              (Rebuilt(chain, t) <==> t.txType == Topup || t.metadata.Some? || Records(chain, t))
  {
    if t.nonce < |chain| { assert Clip(chain, Some(t.nonce)) == t.nonce; }
  }

  lemma RecordedIsRebuilt(chain: Chain, t: Tx)
    requires Records(chain, t)
    ensures Proper(t) && Rebuilt(chain, t)
  {
    RebuiltExactly(chain, t);
  }

  function SumCommitted(txs: seq<Tx>): int {
    if txs == [] then 0 else txs[0].commitment.balance + SumCommitted(txs[1..])
  }

  lemma {:induction false} SumCommittedConcat(a: seq<Tx>, b: seq<Tx>)
    ensures SumCommitted(a + b) == SumCommitted(a) + SumCommitted(b)
  {
    if a == [] {
      assert a + b == b;
    } else {
      SumCommittedConcat(a[1..], b);
      assert (a + b)[0] == a[0] && (a + b)[1..] == a[1..] + b;
    }
  }

  lemma {:induction false} CommittedTopups(txs: seq<Tx>)
    requires AllTopups(txs) && forall t :: t in txs ==> Proper(t)
    ensures SumCommitted(txs) == Balance(txs)
  {
    if txs != [] {
      assert txs[0] in txs && forall t :: t in txs[1..] ==> t in txs;
      CommittedTopups(txs[1..]);
    }
  }

  /** The commitments of the unspent outputs add up to the ledger balance. */
  lemma UnspentSumsToBalance(chain: Chain, token: Token, n: nat)
    requires ValidChain(chain) && n <= |chain|
    requires WellSigned(TokenHistory(chain, Some(token), n))
    requires forall t :: t in TokenHistory(chain, Some(token), n) ==> Records(chain, t)
    ensures SumCommitted(Unspent(chain, token, n)) == LedgerBalance(chain, token, n)
  {
    var unspent := Unspent(chain, token, n);
    var k := UnspentSplits(chain, token, n);
    TokenHistoryBounds(chain, Some(token), n);
    PrefixKeeps(TokenHistory(chain, Some(token), n), unspent, Before(chain, token, k));
    BalanceConcat(unspent, Before(chain, token, k));
    assert forall t :: t in unspent ==> t in TokenHistory(chain, Some(token), n);
    if k < 0 {
      assert AllTopups(unspent);
      CommittedTopups(unspent);
    } else {
      assert unspent[NewestSend(unspent)] in unspent;
      SumAroundSend(chain, unspent, NewestSend(unspent));
    }
  }

  lemma SumAroundSend(chain: Chain, txs: seq<Tx>, i: nat)
    requires i == NewestSend(txs) < |txs| && OneSendPerNonce(txs) && Descending(txs) && AllFrom(txs, txs[i].nonce)
    requires forall t :: t in txs ==> Records(chain, t)
    ensures txs[i].nonce < |chain|
    ensures SumCommitted(txs) == Balance(txs) + LedgerBalance(chain, txs[i].token, txs[i].nonce)
  {
    AroundSend(txs, i);
    SumCut(chain, txs, i);
  }

  lemma SumCut(chain: Chain, txs: seq<Tx>, i: nat)
    requires i < |txs| && txs[i].txType == Send && AllTopups(txs[..i]) && AllTopups(txs[i + 1..])
    requires forall t :: t in txs ==> Records(chain, t)
    ensures txs[i].nonce < |chain|
    ensures SumCommitted(txs) == Balance(txs) + LedgerBalance(chain, txs[i].token, txs[i].nonce)
  {
    assert txs == txs[..i] + [txs[i]] + txs[i + 1..];
    assert txs[i] in txs;
    SumOfParts(chain, txs[..i], txs[i], txs[i + 1..]);
  }

  lemma SumOfParts(chain: Chain, above: seq<Tx>, send: Tx, late: seq<Tx>)
    requires AllTopups(above) && AllTopups(late) && send.txType == Send && Records(chain, send)
    requires forall t :: t in above + [send] + late ==> Records(chain, t)
    ensures SumCommitted(above + [send] + late)
            == Balance(above + [send] + late) + LedgerBalance(chain, send.token, send.nonce)
  {
    assert [send][1..] == [];
    assert forall t :: t in above || t in late ==> t in above + [send] + late;
    CommittedTopups(above);
    CommittedTopups(late);
    SumCommittedConcat(above + [send], late);
    SumCommittedConcat(above, [send]);
    BalanceConcat(above + [send], late);
    BalanceConcat(above, [send]);
  }

  // ---------------------------------------------------------------- the active commitments

  lemma {:induction false} CommitmentsForRebuilt(chain: Chain, txs: seq<Tx>)
    requires forall t :: t in txs ==> Rebuilt(chain, t)
    ensures var r := CommitmentsFor(chain, txs);
            && r == Ok(CommitmentsIn(txs)) && |r.value| == |txs|
            && (forall i :: 0 <= i < |txs| ==> r.value[i] == txs[i].commitment)
            && SumBalances(r.value) == SumCommitted(txs)
  {
    if txs != [] {
      assert txs[0] in txs && forall t :: t in txs[1..] ==> t in txs;
      CommitmentsForRebuilt(chain, txs[1..]);
    }
  }

  /** The commitments of transactions, in order. */
  function CommitmentsIn(txs: seq<Tx>): seq<Commitment> {
    if txs == [] then [] else [txs[0].commitment] + CommitmentsIn(txs[1..])
  }

  lemma {:induction false} CommitmentsInConcat(a: seq<Tx>, b: seq<Tx>)
    ensures CommitmentsIn(a + b) == CommitmentsIn(a) + CommitmentsIn(b)
  {
    if a == [] {
      assert a + b == b;
    } else {
      CommitmentsInConcat(a[1..], b);
      assert (a + b)[0] == a[0] && (a + b)[1..] == a[1..] + b;
      assert [a[0].commitment] + (CommitmentsIn(a[1..]) + CommitmentsIn(b))
          == [a[0].commitment] + CommitmentsIn(a[1..]) + CommitmentsIn(b);
    }
  }

  lemma NoCommitments()
    ensures CommitmentsIn([]) == []
  {
  }

  lemma CommitmentsCons(t: Tx, txs: seq<Tx>)
    ensures multiset(CommitmentsIn([t] + txs)) == multiset{t.commitment} + multiset(CommitmentsIn(txs))
  {
    assert ([t] + txs)[0] == t && ([t] + txs)[1..] == txs;
  }

  lemma {:induction false} CommitmentsByType(txs: seq<Tx>)
    ensures multiset(CommitmentsIn(OfType(txs, Topup))) + multiset(CommitmentsIn(OfType(txs, Send)))
            == multiset(CommitmentsIn(txs))
  {
    hide CommitmentsIn;
    NoCommitments();
    if txs != [] {
      var a, b := OfType(txs[1..], Topup), OfType(txs[1..], Send);
      CommitmentsByType(txs[1..]);
      CommitmentsCons(txs[0], a);
      CommitmentsCons(txs[0], b);
      CommitmentsCons(txs[0], txs[1..]);
      assert txs == [txs[0]] + txs[1..];
      if txs[0].txType == Topup {
        assert OfType(txs, Topup) == [txs[0]] + a && OfType(txs, Send) == b;
      } else {
        assert OfType(txs, Topup) == a && OfType(txs, Send) == [txs[0]] + b;
      }
    } else {
      assert OfType(txs, Topup) == [] && OfType(txs, Send) == [];
    }
  }

  ghost predicate DistinctCommitments(txs: seq<Tx>) {
    forall i, j :: 0 <= i < j < |txs| ==> txs[i].commitment != txs[j].commitment
  }

  lemma {:induction false} OfTypeKeeps(txs: seq<Tx>, txType: TxType)
    requires DistinctCommitments(txs)
    ensures forall t :: t in OfType(txs, txType) <==> t in txs && t.txType == txType
    ensures DistinctCommitments(OfType(txs, txType))
  {
    if txs != [] {
      var rest := OfType(txs[1..], txType);
      assert DistinctCommitments(txs[1..]) by {
        assert forall i :: 0 <= i < |txs[1..]| ==> txs[1..][i] == txs[i + 1];
      }
      OfTypeKeeps(txs[1..], txType);
      assert forall t :: t in txs <==> t == txs[0] || t in txs[1..];
      forall k | 0 <= k < |rest|
        ensures rest[k].commitment != txs[0].commitment
      {
        assert rest[k] in txs[1..];
        var j :| 0 <= j < |txs[1..]| && txs[1..][j] == rest[k];
        assert txs[j + 1] == rest[k];
      }
    }
  }

  lemma {:induction false} OfTypePartition(txs: seq<Tx>)
    ensures SumCommitted(OfType(txs, Topup)) + SumCommitted(OfType(txs, Send)) == SumCommitted(txs)
    ensures |OfType(txs, Topup)| + |OfType(txs, Send)| == |txs|
  {
    if txs != [] {
      OfTypePartition(txs[1..]);
      var a, b := OfType(txs[1..], Topup), OfType(txs[1..], Send);
      assert ([txs[0]] + a)[1..] == a && ([txs[0]] + b)[1..] == b;
    }
  }

  lemma TopupsThenSendsDistinct(txs: seq<Tx>)
    requires DistinctCommitments(txs)
    ensures DistinctCommitments(OfType(txs, Topup) + OfType(txs, Send))
  {
    var a, b := OfType(txs, Topup), OfType(txs, Send);
    OfTypeKeeps(txs, Topup);
    OfTypeKeeps(txs, Send);
    forall i, j | 0 <= i < |a| && 0 <= j < |b|
      ensures a[i].commitment != b[j].commitment
    {
      assert a[i] in txs && b[j] in txs;
      var k, l :| 0 <= k < |txs| && 0 <= l < |txs| && txs[k] == a[i] && txs[l] == b[j];
      assert a[i].txType != b[j].txType by { assert a[i] in a && b[j] in b; }
    }
  }

  lemma {:induction false} AddAllDistinct(set_: seq<Commitment>, cs: seq<Commitment>)
    requires forall i, j :: 0 <= i < j < |set_ + cs| ==> (set_ + cs)[i] != (set_ + cs)[j]
    ensures AddAllToSet(set_, cs) == set_ + cs
    decreases cs
  {
    if cs != [] {
      assert (set_ + cs)[|set_|] == cs[0];
      assert forall i :: 0 <= i < |set_| ==> (set_ + cs)[i] == set_[i];
      assert set_ + cs == set_ + [cs[0]] + cs[1..];
      AddAllDistinct(set_ + [cs[0]], cs[1..]);
    }
  }

  /** The commitments collected are exactly those of the transactions, each once: topups first, sends after them. */
  lemma IncompleteOfRebuilt(chain: Chain, txs: seq<Tx>)
    requires (forall t :: t in txs ==> Rebuilt(chain, t)) && DistinctCommitments(txs)
    ensures var r := IncompleteCommitments(chain, txs);
            && r == Ok(CommitmentsIn(OfType(txs, Topup) + OfType(txs, Send)))
            && multiset(r.value) == multiset(CommitmentsIn(txs))
            && |r.value| == |txs| && SumBalances(r.value) == SumCommitted(txs)
  {
    hide Rebuilt, CommitmentsFor, OfType, SumCommitted, SumBalances, CommitmentsIn, AddAllToSet;
    var topups, sends := OfType(txs, Topup), OfType(txs, Send);
    OfTypeKeeps(txs, Topup);
    OfTypeKeeps(txs, Send);
    OfTypePartition(txs);
    TopupsThenSendsDistinct(txs);
    SumCommittedConcat(topups, sends);
    CommitmentsForRebuilt(chain, topups + sends);
    var cs := CommitmentsFor(chain, topups + sends).value;
    assert [] + cs == cs;
    AddAllDistinct([], cs);
    CommitmentsInConcat(topups, sends);
    CommitmentsByType(txs);
  }

  lemma {:induction false} CommitmentsForFails(chain: Chain, txs: seq<Tx>, t: Tx)
    requires t in txs && CommitmentFor(chain, t).Err?
    ensures CommitmentsFor(chain, txs).Err?
  {
    if t != txs[0] { CommitmentsForFails(chain, txs[1..], t); }
  }

  /** Collecting succeeds if and only if every commitment is found again. */
  lemma IncompleteExactly(chain: Chain, txs: seq<Tx>)
    requires (forall t :: t in txs ==> Proper(t)) && DistinctCommitments(txs)
    ensures IncompleteCommitments(chain, txs).Ok? <==> forall t :: t in txs ==> Rebuilt(chain, t)
  {
    if forall t :: t in txs ==> Rebuilt(chain, t) {
      IncompleteOfRebuilt(chain, txs);
    } else {
      var t :| t in txs && !Rebuilt(chain, t);
      RebuiltExactly(chain, t);
      OfTypeKeeps(txs, Topup);
      OfTypeKeeps(txs, Send);
      CommitmentsForFails(chain, OfType(txs, Topup) + OfType(txs, Send), t);
    }
  }

  ghost predicate NoRepeats(cs: seq<Commitment>) { forall i, j :: 0 <= i < j < |cs| ==> cs[i] != cs[j] }

  /** A set grows by what is new, at its end; it keeps what it has, and holds nothing twice. */
  lemma {:induction false} AddAllIsASet(set_: seq<Commitment>, cs: seq<Commitment>)
    requires NoRepeats(set_)
    ensures NoRepeats(AddAllToSet(set_, cs)) && set_ <= AddAllToSet(set_, cs)
    ensures forall c :: c in AddAllToSet(set_, cs) <==> c in set_ || c in cs
    decreases cs
  {
    if cs != [] {
      assert cs == [cs[0]] + cs[1..];
      AddAllIsASet(AddToSet(set_, cs[0]), cs[1..]);
    }
  }

  lemma {:induction false} OfTypeElements(txs: seq<Tx>, txType: TxType)
    ensures forall t :: t in OfType(txs, txType) <==> t in txs && t.txType == txType
  {
    if txs != [] {
      OfTypeElements(txs[1..], txType);
      assert txs == [txs[0]] + txs[1..];
    }
  }

  lemma {:induction false} CommitmentsForEach(chain: Chain, txs: seq<Tx>)
    ensures CommitmentsFor(chain, txs).Ok? <==> forall t :: t in txs ==> CommitmentFor(chain, t).Ok?
    ensures CommitmentsFor(chain, txs).Ok? ==>
              forall c :: c in CommitmentsFor(chain, txs).value <==> CommitmentOfOne(chain, txs, c)
  {
    hide CommitmentFor;
    if txs != [] {
      CommitmentsForEach(chain, txs[1..]);
      assert txs == [txs[0]] + txs[1..];
      if CommitmentsFor(chain, txs).Ok? {
        var first := CommitmentFor(chain, txs[0]).value;
        assert CommitmentsFor(chain, txs).value == [first] + CommitmentsFor(chain, txs[1..]).value;
        assert forall c :: CommitmentOfOne(chain, txs, c) <==> c == first || CommitmentOfOne(chain, txs[1..], c);
      }
    }
  }

  /** `c` is what is found again of one of the transactions. */
  ghost predicate CommitmentOfOne(chain: Chain, txs: seq<Tx>, c: Commitment) {
    exists t :: t in txs && CommitmentFor(chain, t) == Ok(c)
  }

  /** On any chain, of any transactions: no commitment is collected twice, however many transactions have it. */
  lemma IncompleteIsASet(chain: Chain, txs: seq<Tx>)
    ensures var r := IncompleteCommitments(chain, txs);
            && (r.Ok? <==> forall t :: t in txs ==> CommitmentFor(chain, t).Ok?)
            && (r.Ok? ==> NoRepeats(r.value) && forall c :: c in r.value <==> CommitmentOfOne(chain, txs, c))
  {
    hide CommitmentFor, CommitmentsFor;
    var ordered := OfType(txs, Topup) + OfType(txs, Send);
    OfTypeElements(txs, Topup);
    OfTypeElements(txs, Send);
    assert forall t :: t in txs <==> t in ordered;
    CommitmentsForEach(chain, ordered);
    if CommitmentsFor(chain, ordered).Ok? {
      AddAllIsASet([], CommitmentsFor(chain, ordered).value);
    }
  }

  // ---------------------------------------------------------------- a chain that goes on keeps its past

  lemma {:induction false} BetweenPrefix(chain: Chain, more: Chain, lo: nat, hi: nat)
    requires hi <= |chain|
    ensures Between(chain + more, lo, hi) == Between(chain, lo, hi)
  {
    if lo < hi { BetweenPrefix(chain, more, lo, hi - 1); }
  }

  lemma HistoryPrefix(chain: Chain, more: Chain, token: Token, n: nat)
    requires n <= |chain|
    ensures TokenHistory(chain + more, Some(token), n) == TokenHistory(chain, Some(token), n)
    ensures LedgerBalance(chain + more, token, n) == LedgerBalance(chain, token, n)
  {
    BetweenPrefix(chain, more, 0, n);
  }

  lemma {:induction false} UnspentPrefix(chain: Chain, more: Chain, token: Token, n: nat)
    requires n <= |chain|
    ensures Unspent(chain + more, token, n) == Unspent(chain, token, n)
  {
    if n > 0 { UnspentPrefix(chain, more, token, n - 1); }
  }

  lemma LastNonceIsLength(chain: Chain)
    requires ValidChain(chain)
    ensures LastNonce(chain) == |chain| - 1
  {
    if chain != [] {
      var slot := chain[|chain| - 1];
      assert ValidSlot(slot, |chain| - 1);
      assert History(chain, |chain|)[0] == Reverse(slot)[0];
      assert Reverse(slot)[0] in Reverse(slot);
    }
  }

  lemma {:induction false} HistoryElements(chain: Chain, n: nat)
    requires ValidChain(chain) && n <= |chain|
    ensures forall t :: t in History(chain, n) ==> t.nonce < n && t in chain[t.nonce]
  {
    if n > 0 {
      HistoryElements(chain, n - 1);
      assert ValidSlot(chain[n - 1], n - 1);
    }
  }

  // ---------------------------------------------------------------- the invariant

  lemma {:induction false} ReverseApart(txs: seq<Tx>)
    requires PairwiseApart(txs)
    ensures PairwiseApart(Reverse(txs))
  {
    if txs != [] {
      var rest := txs[1..];
      assert forall i :: 0 <= i < |rest| ==> rest[i] == txs[i + 1];
      ReverseApart(rest);
      forall i | 0 <= i < |Reverse(rest)|
        ensures Apart(Reverse(rest)[i], txs[0])
      {
        assert Reverse(rest)[i] in rest;
      }
    }
  }

  lemma {:induction false} FilterApart(txs: seq<Tx>, token: Option<Token>)
    requires PairwiseApart(txs)
    ensures PairwiseApart(Filter(txs, token))
  {
    if txs != [] {
      var rest, kept := txs[1..], Filter(txs[1..], token);
      assert forall i :: 0 <= i < |rest| ==> rest[i] == txs[i + 1];
      FilterApart(rest, token);
      FilterElements(rest, token);
      forall i | 0 <= i < |kept|
        ensures Apart(txs[0], kept[i])
      {
        assert kept[i] in rest;
      }
    }
  }

  /** The history of a token is well signed, and its entries are proper, each with another commitment. */
  ghost predicate Sound(chain: Chain, token: Token) {
    var history := TokenHistory(chain, Some(token), |chain|);
    WellSigned(history) && DistinctCommitments(history) && forall t :: t in history ==> Proper(t)
  }

  /** What holds of every chain the SDK builds. */
  ghost predicate Invariant(chain: Chain) {
    ValidChain(chain) && forall token :: Sound(chain, token)
  }

  /** In addition every entry records what it leaves. */
  ghost predicate WellRecorded(chain: Chain, token: Token) {
    Sound(chain, token) && forall t :: t in TokenHistory(chain, Some(token), |chain|) ==> Records(chain, t)
  }

  /** A token in order: it is well recorded, and at most SEND_ARITY outputs are unspent. */
  ghost predicate TokenOk(chain: Chain, token: Token) {
    WellRecorded(chain, token) && |Unspent(chain, token, |chain|)| <= SEND_ARITY
  }

  lemma PartOfHistory(chain: Chain, token: Token, a: seq<Tx>, b: seq<Tx>)
    requires Sound(chain, token) && TokenHistory(chain, Some(token), |chain|) == a + b
    ensures DistinctCommitments(a) && WellSigned(a) && forall t :: t in a ==> Proper(t)
    ensures WellRecorded(chain, token) ==> forall t :: t in a ==> Records(chain, t)
  {
    var history := TokenHistory(chain, Some(token), |chain|);
    assert forall i :: 0 <= i < |a| ==> history[i] == a[i];
    assert forall t :: t in a ==> t in history;
  }

  /** The active transactions are the newest part of the history. */
  lemma ActiveInHistory(chain: Chain, token: Token)
    requires ValidChain(chain) && Sound(chain, token)
    ensures var active := ActiveTxs(chain, token, |chain|);
            && active == OnPage(Unspent(chain, token, |chain|), PageLength(chain, token, |chain|))
            && DistinctCommitments(active) && WellSigned(active) && (forall t :: t in active ==> Proper(t))
            && (WellRecorded(chain, token) ==> forall t :: t in active ==> Records(chain, t))
  {
    hide ValidChain, DistinctCommitments, WellSigned, Proper, WellRecorded, Records, TokenHistory, Unspent,
      ActiveTxs, PageLength;
    var n := |chain|;
    var history, unspent := TokenHistory(chain, Some(token), n), Unspent(chain, token, n);
    var k := UnspentSplits(chain, token, n);
    ActiveArePage(chain, token, n);
    var m := |OnPage(unspent, PageLength(chain, token, n))|;
    assert history == history[..m] + history[m..] && history[..m] == OnPage(unspent, PageLength(chain, token, n));
    PartOfHistory(chain, token, history[..m], history[m..]);
  }

  /**
   The active commitments are those of the active transactions; collecting them fails exactly when that of a legacy
   send is not found again.
   */
  lemma ActiveCommitmentsExactly(chain: Chain, token: Token)
    requires ValidChain(chain) && Sound(chain, token)
    ensures var active, r := ActiveTxs(chain, token, |chain|), ActiveCommitments(chain, token);
            && (r.Ok? <==> forall t :: t in active ==> Rebuilt(chain, t))
            && (r.Ok? ==> multiset(r.value) == multiset(CommitmentsIn(active)) && |r.value| == |active|)
            && (r.Ok? ==> SumBalances(r.value) == SumCommitted(active))
  {
    ActiveInHistory(chain, token);
    var active := ActiveTxs(chain, token, |chain|);
    IncompleteExactly(chain, active);
    if ActiveCommitments(chain, token).Ok? { IncompleteOfRebuilt(chain, active); }
  }

  /** Of a token in order they are those of the unspent outputs, and they hold the whole ledger balance. */
  lemma ActiveCommitmentsAreUnspent(chain: Chain, token: Token)
    requires ValidChain(chain) && TokenOk(chain, token)
    ensures ActiveTxs(chain, token, |chain|) == Unspent(chain, token, |chain|)
    ensures var r := ActiveCommitments(chain, token);
            && r.Ok? && multiset(r.value) == multiset(CommitmentsIn(Unspent(chain, token, |chain|)))
            && |r.value| == |Unspent(chain, token, |chain|)|
            && SumBalances(r.value) == LedgerBalance(chain, token, |chain|)
  {
    hide Sound, Records, Rebuilt, ActiveCommitments, TokenHistory;
    ActiveInHistory(chain, token);
    ActiveCommitmentsExactly(chain, token);
    var active := ActiveTxs(chain, token, |chain|);
    forall t | t in active ensures Rebuilt(chain, t) { RecordedIsRebuilt(chain, t); }
    FitsThePage(chain, token);
    SumOfRecorded(chain, token);
  }

  lemma FitsThePage(chain: Chain, token: Token)
    requires ValidChain(chain) && |Unspent(chain, token, |chain|)| <= SEND_ARITY
    ensures OnPage(Unspent(chain, token, |chain|), PageLength(chain, token, |chain|)) == Unspent(chain, token, |chain|)
  {
    var k := UnspentSplits(chain, token, |chain|);
  }

  lemma SumOfRecorded(chain: Chain, token: Token)
    requires ValidChain(chain) && WellRecorded(chain, token)
    ensures SumCommitted(Unspent(chain, token, |chain|)) == LedgerBalance(chain, token, |chain|)
  {
    UnspentSumsToBalance(chain, token, |chain|);
  }

  lemma InvariantOfToken(chain: Chain, token: Token)
    requires Invariant(chain)
    ensures ValidChain(chain) && Sound(chain, token) && WellSigned(TokenHistory(chain, Some(token), |chain|))
  {
  }

  /** What a round adds is built right, and a topup only where fewer than SEND_ARITY outputs are unspent. */
  lemma BuiltProper(chain: Chain, t: Tx)
    requires Invariant(chain) && LastNonce(chain) >= -1 && Built(chain, t)
    ensures t.nonce == t.commitment.nonce == |chain| && Proper(t)
    ensures t.txType == Topup ==> |Unspent(chain, t.token, |chain|)| < SEND_ARITY
  {
    hide Sound, ActiveTxs, ActiveCommitments, Rebuilt, Unspent, TokenHistory, Invariant;
    InvariantOfToken(chain, t.token);
    LastNonceIsLength(chain);
    ActiveCommitmentsExactly(chain, t.token);
    ActiveInHistory(chain, t.token);
    ActiveArePage(chain, t.token, |chain|);
  }

  /** A send commits to what the outputs it found leave. */
  lemma BuiltSend(chain: Chain, t: Tx)
    requires Invariant(chain) && LastNonce(chain) >= -1 && Built(chain, t)
    ensures ActiveCommitments(chain, t.token).Ok?
    ensures t.txType == Send ==>
              t.commitment.balance == SumCommitted(ActiveTxs(chain, t.token, |chain|)) - t.amount - t.fee
  {
    hide Sound, ActiveTxs, ActiveCommitments, SumCommitted, Rebuilt, LastNonce;
    assert Sound(chain, t.token);
    ActiveCommitmentsExactly(chain, t.token);
  }

  /** A send records the ledger balance if and only if the outputs found add up to it. */
  lemma BuiltRecordsExactly(chain: Chain, slot: seq<Tx>, t: Tx)
    requires Invariant(chain) && LastNonce(chain) >= -1 && Built(chain, t)
    ensures ActiveCommitments(chain, t.token).Ok?
    ensures Records(chain + [slot], t)
            <==> t.txType == Topup
                 || SumCommitted(ActiveTxs(chain, t.token, |chain|)) == LedgerBalance(chain, t.token, |chain|)
  {
    hide Invariant, Built, LastNonce, ActiveCommitments, ActiveTxs, LedgerBalance, TokenHistory, SumCommitted;
    BuiltProper(chain, t);
    BuiltSend(chain, t);
    HistoryPrefix(chain, [slot], t.token, |chain|);
  }

  lemma RecordsPrefix(chain: Chain, slot: seq<Tx>, t: Tx)
    requires Records(chain, t)
    ensures Records(chain + [slot], t)
  {
    HistoryPrefix(chain, [slot], t.token, t.nonce);
  }

  lemma {:induction false} OneSend(txs: seq<Tx>, token: Token)
    requires PairwiseApart(txs) && forall t :: t in txs ==> t.token == token
    ensures |OfType(txs, Send)| <= 1
  {
    if txs != [] {
      var rest := txs[1..];
      assert forall i :: 0 <= i < |rest| ==> rest[i] == txs[i + 1];
      OneSend(rest, token);
      SendAmong(rest);
      assert forall i :: 0 <= i < |rest| ==> Apart(txs[0], rest[i]) && rest[i] in txs;
    }
  }

  lemma {:induction false} SendAmong(txs: seq<Tx>)
    ensures OfType(txs, Send) != [] <==> exists i :: 0 <= i < |txs| && txs[i].txType == Send
  {
    if txs != [] {
      SendAmong(txs[1..]);
      if exists i :: 0 <= i < |txs| && txs[i].txType == Send {
        var i :| 0 <= i < |txs| && txs[i].txType == Send;
        assert i > 0 ==> txs[1..][i - 1].txType == Send;
      }
    }
  }

  /** With one topup at most, a nonce holds at most two transactions of a token, and only one without a send. */
  lemma AtMostTwo(here: seq<Tx>, token: Token)
    requires PairwiseApart(here) && (forall t :: t in here ==> t.token == token) && |OfType(here, Topup)| <= 1
    ensures |here| <= 2 && (!HasSend(here) ==> |here| <= 1)
  {
    OfTypePartition(here);
    OneSend(here, token);
    SendAmong(here);
  }

  lemma WellSignedConcat(here: seq<Tx>, history: seq<Tx>, token: Token, n: nat)
    requires PairwiseApart(here) && (forall t :: t in here ==> t.nonce == n && t.token == token)
    requires WellSigned(history) && AllBelow(history, n)
    requires forall t, u :: t in here && u in history ==> t.sig != u.sig
    ensures WellSigned(here + history)
  {
    assert forall i :: 0 <= i < |here| ==> here[i] in here;
    assert forall i :: 0 <= i < |history| ==> history[i] in history;
    assert forall i, j :: 0 <= i < j < |here| ==> Apart(here[i], here[j]);
  }

  lemma DistinctCommitmentsConcat(chain: Chain, here: seq<Tx>, history: seq<Tx>)
    requires PairwiseApart(here) && DistinctCommitments(history)
    requires forall t :: t in here ==> t.commitment.nonce == |chain|
    requires forall t :: t in history ==> Proper(t) && t.nonce < |chain|
    ensures DistinctCommitments(here + history)
  {
    assert forall i :: 0 <= i < |here| ==> here[i] in here;
    assert forall i :: 0 <= i < |history| ==> history[i] in history;
    assert forall i, j :: 0 <= i < j < |here| ==> Apart(here[i], here[j]);
  }

  /** What a round leaves of one token. */
  lemma RoundOfToken(chain: Chain, slot: seq<Tx>, token: Token) returns (here: seq<Tx>)
    requires Invariant(chain) && LastNonce(chain) >= -1 && Round(chain, slot)
    ensures here == OfToken(slot, token)
    ensures PairwiseApart(here)
    ensures forall t :: t in here ==>
              && t in slot && t.token == token && t.nonce == |chain|
              && t.commitment.nonce == |chain| && Proper(t)
    ensures |OfType(here, Topup)| <= 1 ==> |here| <= 2 && (!HasSend(here) ==> |here| <= 1)
    ensures !HasSend(here) && here != [] ==> |Unspent(chain, token, |chain|)| < SEND_ARITY
  {
    here := OfToken(slot, token);
    ReverseApart(slot);
    FilterApart(Reverse(slot), Some(token));
    FilterElements(Reverse(slot), Some(token));
    forall t | t in here
      ensures t in slot && t.token == token && t.nonce == |chain|
      ensures t.commitment.nonce == |chain| && Proper(t)
      ensures t.txType == Topup ==> |Unspent(chain, token, |chain|)| < SEND_ARITY
    {
      BuiltProper(chain, t);
    }
    if |OfType(here, Topup)| <= 1 { AtMostTwo(here, token); }
    if here != [] { assert here[0] in here; }
  }

  lemma UnspentAfter(chain: Chain, slot: seq<Tx>, token: Token)
    ensures var here := OfToken(slot, token);
            Unspent(chain + [slot], token, |chain| + 1)
            == if HasSend(here) then here else here + Unspent(chain, token, |chain|)
  {
    UnspentPrefix(chain, [slot], token, |chain|);
  }

  lemma SigsOfRound(chain: Chain, slot: seq<Tx>, token: Token)
    requires ValidChain(chain) && forall t, n, u :: t in slot && 0 <= n < |chain| && u in chain[n] ==> t.sig != u.sig
    ensures forall t, u :: t in slot && u in TokenHistory(chain, Some(token), |chain|) ==> t.sig != u.sig
  {
    HistoryElements(chain, |chain|);
    FilterElements(History(chain, |chain|), Some(token));
  }

  lemma TokenHistoryAfter(chain: Chain, slot: seq<Tx>, token: Token)
    ensures TokenHistory(chain + [slot], Some(token), |chain| + 1)
            == OfToken(slot, token) + TokenHistory(chain, Some(token), |chain|)
  {
    TokenHistoryStep(chain + [slot], Some(token), |chain| + 1);
    HistoryPrefix(chain, [slot], token, |chain|);
  }

  /** A round keeps every token sound. */
  lemma RoundKeepsSound(chain: Chain, slot: seq<Tx>, token: Token)
    requires Invariant(chain) && LastNonce(chain) >= -1 && Round(chain, slot)
    ensures Sound(chain + [slot], token)
  {
    hide Built, Proper, PairwiseApart, WellSigned, DistinctCommitments, OfToken, TokenHistory, LastNonce;
    var history := TokenHistory(chain, Some(token), |chain|);
    var here := RoundOfToken(chain, slot, token);
    assert Sound(chain, token);
    TokenHistoryAfter(chain, slot, token);
    TokenHistoryBounds(chain, Some(token), |chain|);
    SigsOfRound(chain, slot, token);
    WellSignedConcat(here, history, token, |chain|);
    DistinctCommitmentsConcat(chain, here, history);
  }

  /** And a token in order well recorded. */
  lemma RoundKeepsRecords(chain: Chain, slot: seq<Tx>, token: Token)
    requires Invariant(chain) && LastNonce(chain) >= -1 && Round(chain, slot) && TokenOk(chain, token)
    ensures WellRecorded(chain + [slot], token)
  {
    hide Built, Proper, Records, Sound, PairwiseApart, OfToken, TokenHistory, LastNonce, LedgerBalance, Unspent;
    var history := TokenHistory(chain, Some(token), |chain|);
    var here := RoundOfToken(chain, slot, token);
    RoundKeepsSound(chain, slot, token);
    TokenHistoryAfter(chain, slot, token);
    ActiveCommitmentsAreUnspent(chain, token);
    SumOfRecorded(chain, token);
    forall t | t in here + history ensures Records(chain + [slot], t) {
      if t in here {
        BuiltRecordsExactly(chain, slot, t);
      } else {
        RecordsPrefix(chain, slot, t);
      }
    }
  }

  /**
   A send of the token spends what was unspent before the round, otherwise the outputs of the round are added. A
   client cannot see what is built beside its own transaction, so several topups of a token at once may leave too
   many (`RoundKeepsToken`, `OneTopupHasRoom`).
   */
  ghost predicate RoomFor(chain: Chain, slot: seq<Tx>, token: Token) {
    var here := OfToken(slot, token);
    |here| + (if HasSend(here) then 0 else |Unspent(chain, token, |chain|)|) <= SEND_ARITY
  }

  /** A token in order stays in order if and only if the round has room for its outputs. */
  lemma RoundKeepsToken(chain: Chain, slot: seq<Tx>, token: Token)
    requires Invariant(chain) && LastNonce(chain) >= -1 && Round(chain, slot) && TokenOk(chain, token)
    ensures TokenOk(chain + [slot], token) <==> RoomFor(chain, slot, token)
  {
    hide WellRecorded, Invariant, Round, ValidChain, OfToken, Unspent;
    RoundKeepsRecords(chain, slot, token);
    UnspentAfter(chain, slot, token);
  }

  lemma RoundIsValid(chain: Chain, slot: seq<Tx>)
    requires Invariant(chain) && LastNonce(chain) >= -1 && Round(chain, slot)
    ensures ValidChain(chain + [slot])
  {
    forall t | t in slot
      ensures t.nonce == |chain|
    {
      BuiltProper(chain, t);
    }
    assert forall i, j :: 0 <= i < j < |slot| ==> Apart(slot[i], slot[j]);
    assert ValidSlot(slot, |chain|);
  }

  /** With one topup of the token at most, a round always has room. */
  lemma OneTopupHasRoom(chain: Chain, slot: seq<Tx>, token: Token)
    requires Invariant(chain) && LastNonce(chain) >= -1 && Round(chain, slot) && TokenOk(chain, token)
    requires |OfType(OfToken(slot, token), Topup)| <= 1
    ensures RoomFor(chain, slot, token)
  {
    var here := RoundOfToken(chain, slot, token);
  }

  /** Whatever a round holds, it keeps the invariant. */
  lemma RoundKeepsInvariant(chain: Chain, slot: seq<Tx>)
    requires Invariant(chain) && LastNonce(chain) >= -1 && Round(chain, slot)
    ensures Invariant(chain + [slot])
  {
    hide Sound, Round, LastNonce, ValidChain;
    RoundIsValid(chain, slot);
    forall token ensures Sound(chain + [slot], token) { RoundKeepsSound(chain, slot, token); }
  }

  lemma NothingBuilt()
    ensures Invariant([])
  {
  }

  /** Every reachable chain satisfies the invariant. */
  lemma {:induction false} ReachableInvariant(chain: Chain)
    requires Reachable(chain)
    ensures Invariant(chain)
    decreases |chain|
  {
    hide Invariant, Round, LastNonce;
    if chain == [] {
      NothingBuilt();
    } else {
      var before, slot := chain[..|chain| - 1], chain[|chain| - 1];
      ReachableInvariant(before);
      RoundKeepsInvariant(before, slot);
      assert before + [slot] == chain;
    }
  }

  lemma {:induction false} ReachablePrefix(chain: Chain, n: nat)
    requires Reachable(chain) && n <= |chain|
    ensures Reachable(chain[..n])
    decreases |chain|
  {
    if n == |chain| {
      assert chain[..n] == chain;
    } else {
      ReachablePrefix(chain[..|chain| - 1], n);
      assert chain[..|chain| - 1][..n] == chain[..n];
    }
  }
}
