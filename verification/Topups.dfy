/**
 Topping up: collecting the commitments of the active transactions (`getIncompleteCommitmentsForTxs` of
 src/sdk/paramManagers/CommitmentManager.ts), the start indices returned beside them, and what `buildTopUpTx` of
 src/public/elusiv.ts builds from them, with a merge when SEND_ARITY of them are unspent.
 */
module Topups {
  import opened Common
  import opened Ledger
  import opened TxCache
  import opened TransactionManager
  import opened CommitmentMachine

  // ---------------------------------------------------------------- collecting commitments

  lemma {:induction false} OfTypeConcat(a: seq<Tx>, b: seq<Tx>, txType: TxType)
    ensures OfType(a + b, txType) == OfType(a, txType) + OfType(b, txType)
  {
    if a == [] {
      assert a + b == b;
    } else {
      OfTypeConcat(a[1..], b, txType);
      assert (a + b)[0] == a[0] && (a + b)[1..] == a[1..] + b;
      assert [a[0]] + (OfType(a[1..], txType) + OfType(b, txType))
          == [a[0]] + OfType(a[1..], txType) + OfType(b, txType);
    }
  }

  lemma OfTypeSnoc(txs: seq<Tx>, k: nat, txType: TxType)
    requires k < |txs|
    ensures OfType(txs[..k + 1], txType)
            == if txs[k].txType == txType then OfType(txs[..k], txType) + [txs[k]] else OfType(txs[..k], txType)
  {
    assert txs[..k + 1] == txs[..k] + [txs[k]] && [txs[k]][1..] == [];
    OfTypeConcat(txs[..k], [txs[k]], txType);
  }

  lemma {:induction false} AddAllConcat(set_: seq<Commitment>, a: seq<Commitment>, b: seq<Commitment>)
    ensures AddAllToSet(set_, a + b) == AddAllToSet(AddAllToSet(set_, a), b)
    decreases a
  {
    if a == [] {
      assert a + b == b;
    } else {
      AddAllConcat(AddToSet(set_, a[0]), a[1..], b);
      assert (a + b)[0] == a[0] && (a + b)[1..] == a[1..] + b;
    }
  }

  /** The set after the commitments of `txs` were added to it, in order. */
  ghost function Collect(chain: Chain, set_: seq<Commitment>, txs: seq<Tx>): Result<seq<Commitment>> {
    match CommitmentsFor(chain, txs) case Err(e) => Err(e) case Ok(cs) => Ok(AddAllToSet(set_, cs))
  }

  lemma {:induction false} CollectConcat(chain: Chain, set_: seq<Commitment>, a: seq<Tx>, b: seq<Tx>)
    ensures Collect(chain, set_, a + b)
            == match Collect(chain, set_, a) case Err(e) => Err(e) case Ok(mid) => Collect(chain, mid, b)
    decreases a
  {
    if a == [] {
      assert a + b == b;
    } else {
      assert (a + b)[0] == a[0] && (a + b)[1..] == a[1..] + b;
      match CommitmentFor(chain, a[0]) {
        case Err(_) =>
        case Ok(c) =>
          CollectConcat(chain, AddToSet(set_, c), a[1..], b);
          CollectCons(chain, set_, a);
          CollectCons(chain, set_, a + b);
      }
    }
  }

  lemma CollectCons(chain: Chain, set_: seq<Commitment>, txs: seq<Tx>)
    requires txs != [] && CommitmentFor(chain, txs[0]).Ok?
    ensures Collect(chain, set_, txs) == Collect(chain, AddToSet(set_, CommitmentFor(chain, txs[0]).value), txs[1..])
  {
    match CommitmentsFor(chain, txs[1..]) {
      case Err(_) =>
      case Ok(cs) => assert ([CommitmentFor(chain, txs[0]).value] + cs)[1..] == cs;
    }
  }

  lemma CollectOne(chain: Chain, set_: seq<Commitment>, t: Tx)
    ensures Collect(chain, set_, [t])
            == match CommitmentFor(chain, t) case Err(e) => Err(e) case Ok(c) => Ok(AddToSet(set_, c))
  {
    assert [t][1..] == [];
    assert CommitmentsFor(chain, []) == Ok([]);
    if CommitmentFor(chain, t).Ok? {
      CollectCons(chain, set_, [t]);
    }
  }

  lemma CollectSnoc(chain: Chain, set_: seq<Commitment>, txs: seq<Tx>, mid: seq<Commitment>, t: Tx)
    requires Collect(chain, set_, txs) == Ok(mid)
    ensures Collect(chain, set_, txs + [t])
            == match CommitmentFor(chain, t) case Err(e) => Err(e) case Ok(c) => Ok(AddToSet(mid, c))
  {
    CollectConcat(chain, set_, txs, [t]);
    CollectOne(chain, mid, t);
  }

  /** `getCommitmentForPartialSend` */
  method GetCommitmentForPartialSend(manager: TransactionManager, node: Chain, t: Tx) returns (r: Result<Commitment>)
    requires manager.Valid(node) && t.txType == Send
    modifies manager.fetchedTxs
    ensures manager.Valid(node) && r == CommitmentFor(Seen(node), t)
  {
    hide EndSeen, Seen;
    if t.metadata.Some? && t.metadata.value == t.commitment {
      return Ok(t.metadata.value);
    }
    manager.EndIsOnChain(node, []);
    var privateBalanceSlow :=
      manager.GetPrivateBalanceFromTxHistory(node, t.token, Some(t.nonce), DEFAULT_FETCH_BATCH_SIZE, []);
    var resSlow := CommitmentForSend(t.nonce, t.token, privateBalanceSlow, t.amount, t.fee, t.startIndex);
    if resSlow != t.commitment {
      return Err(NotReconstructed);
    }
    return Ok(resSlow);
  }

  /** `getIncompleteCommitmentsForTxs`: topups go into the set at once, sends when all were looked at. */
  method GetIncompleteCommitmentsForTxs(manager: TransactionManager, node: Chain, txs: seq<Tx>)
    returns (r: Result<seq<Commitment>>, startIndices: seq<nat>)
    requires manager.Valid(node)
    modifies manager.fetchedTxs
    ensures manager.Valid(node)
    ensures r == IncompleteCommitments(Seen(node), txs)
    ensures startIndices == StartIndices(txs)
  {
    hide Seen, CacheOk, Contiguous;
    ghost var chain := Seen(node);
    var activeCommitments: seq<Commitment> := [];
    var sends: seq<Tx> := [];
    startIndices := [];
    for i := 0 to |txs|
      invariant manager.Valid(node)
      invariant Collect(chain, [], OfType(txs[..i], Topup)) == Ok(activeCommitments)
      invariant sends == OfType(txs[..i], Send)
      invariant startIndices == StartIndices(txs[..i])
    {
      var tx := txs[i];
      OfTypeSnoc(txs, i, Topup);
      OfTypeSnoc(txs, i, Send);
      StartIndicesSnoc(txs, i);
      if tx.txType == Topup {
        CollectSnoc(chain, [], OfType(txs[..i], Topup), activeCommitments, tx);
        activeCommitments := AddToSet(activeCommitments, TopupCommitment(tx.nonce, tx.amount, tx.token, tx.startIndex));
      } else {
        sends := sends + [tx];
      }
      startIndices := startIndices + [tx.startIndex];
    }
    assert txs[..|txs|] == txs;
    ghost var topups := activeCommitments;
    CollectConcat(chain, [], OfType(txs, Topup), sends);
    for k := 0 to |sends|
      invariant manager.Valid(node)
      invariant Collect(chain, topups, sends[..k]) == Ok(activeCommitments)
    {
      assert sends[..k + 1] == sends[..k] + [sends[k]];
      assert sends == sends[..k + 1] + sends[k + 1..];
      SendsAreSends(txs, sends[k]);
      CollectSnoc(chain, topups, sends[..k], activeCommitments, sends[k]);
      CollectConcat(chain, topups, sends[..k + 1], sends[k + 1..]);
      var comm := GetCommitmentForPartialSend(manager, node, sends[k]);
      if comm.Err? {
        return Err(comm.error), startIndices;
      }
      activeCommitments := AddToSet(activeCommitments, comm.value);
    }
    assert sends[..|sends|] == sends;
    r := Ok(activeCommitments);
  }

  lemma {:induction false} SendsAreSends(txs: seq<Tx>, t: Tx)
    requires t in OfType(txs, Send)
    ensures t.txType == Send
  {
    if txs[0] != t || txs[0].txType != Send { SendsAreSends(txs[1..], t); }
  }

  lemma {:induction false} StartIndicesConcat(a: seq<Tx>, b: seq<Tx>)
    ensures StartIndices(a + b) == StartIndices(a) + StartIndices(b)
  {
    if a == [] {
      assert a + b == b;
    } else {
      StartIndicesConcat(a[1..], b);
      assert (a + b)[0] == a[0] && (a + b)[1..] == a[1..] + b;
      assert [a[0].startIndex] + (StartIndices(a[1..]) + StartIndices(b))
          == [a[0].startIndex] + StartIndices(a[1..]) + StartIndices(b);
    }
  }

  lemma StartIndicesSnoc(txs: seq<Tx>, k: nat)
    requires k < |txs|
    ensures StartIndices(txs[..k + 1]) == StartIndices(txs[..k]) + [txs[k].startIndex]
  {
    assert txs[..k + 1] == txs[..k] + [txs[k]] && [txs[k]][1..] == [];
    StartIndicesConcat(txs[..k], [txs[k]]);
  }

  // ---------------------------------------------------------------- start indices

  /** Each commitment is looked for from its own start index. */
  ghost predicate Aligned(cs: seq<Commitment>, startIndices: seq<nat>) { StartsOf(cs) == startIndices }

  function StartsOf(cs: seq<Commitment>): seq<nat> {
    if cs == [] then [] else [cs[0].startIndex] + StartsOf(cs[1..])
  }

  lemma {:induction false} StartsOfRebuilt(chain: Chain, txs: seq<Tx>)
    requires forall t :: t in txs ==> Proper(t) && Rebuilt(chain, t)
    ensures CommitmentsFor(chain, txs).Ok? && StartsOf(CommitmentsFor(chain, txs).value) == StartIndices(txs)
  {
    if txs != [] {
      assert txs[0] in txs && forall t :: t in txs[1..] ==> t in txs;
      StartsOfRebuilt(chain, txs[1..]);
      var cs := CommitmentsFor(chain, txs[1..]).value;
      assert ([txs[0].commitment] + cs)[1..] == cs;
    }
  }

  lemma {:induction false} OfTypeUniform(txs: seq<Tx>, txType: TxType)
    ensures (forall t :: t in txs ==> t.txType == txType) ==> OfType(txs, txType) == txs
    ensures (forall t :: t in txs ==> t.txType != txType) ==> OfType(txs, txType) == []
  {
    if txs != [] {
      assert txs[0] in txs && forall t :: t in txs[1..] ==> t in txs;
      OfTypeUniform(txs[1..], txType);
      assert txs == [txs[0]] + txs[1..];
    }
  }

  /** The commitments come out as topups, then the send; the start indices in the order of the transactions. */
  lemma OrderOfCommitments(above: seq<Tx>, send: Tx, late: seq<Tx>)
    requires AllTopups(above) && AllTopups(late) && send.txType == Send
    ensures var txs := above + [send] + late;
            OfType(txs, Topup) + OfType(txs, Send) == above + late + [send]
  {
    var txs := above + [send] + late;
    OfTypeConcat(above + [send], late, Topup);
    OfTypeConcat(above, [send], Topup);
    OfTypeConcat(above + [send], late, Send);
    OfTypeConcat(above, [send], Send);
    OfTypeUniform(above, Topup);
    OfTypeUniform(late, Topup);
    OfTypeUniform(above, Send);
    OfTypeUniform(late, Send);
    assert [send][1..] == [];
    assert OfType([send], Send) == [send] && OfType([send], Topup) == [];
    assert OfType(txs, Topup) == above + late && OfType(txs, Send) == [send];
  }

  /** Moving `x` from behind `b` to before it changes nothing exactly when `b` is all `x`. */
  lemma {:induction false} RotatedIsConstant(b: seq<nat>, x: nat)
    ensures b + [x] == [x] + b <==> forall j :: 0 <= j < |b| ==> b[j] == x
  {
    if b != [] {
      RotatedIsConstant(b[1..], x);
      assert (b + [x])[1..] == b[1..] + [x];
      assert ([x] + b)[1..] == [b[0]] + b[1..];
      assert forall j :: 0 <= j < |b[1..]| ==> b[1..][j] == b[j + 1];
      assert b + [x] == [x] + b <==> b[0] == x && b[1..] + [x] == [b[0]] + b[1..] by {
        assert (b + [x])[0] == b[0];
        assert b + [x] == [b[0]] + (b[1..] + [x]);
        assert [x] + b == [x] + ([b[0]] + b[1..]);
      }
    }
  }

  lemma PrefixedEqual(a: seq<nat>, u: seq<nat>, v: seq<nat>)
    ensures a + u == a + v <==> u == v
  {
    assert (a + u)[|a|..] == u && (a + v)[|a|..] == v;
  }

  /** Both lists of start indices, spelled out. */
  lemma StartsSpelledOut(above: seq<Tx>, send: Tx, late: seq<Tx>)
    ensures StartIndices(above + late + [send]) == StartIndices(above) + (StartIndices(late) + [send.startIndex])
    ensures StartIndices(above + [send] + late) == StartIndices(above) + ([send.startIndex] + StartIndices(late))
  {
    assert [send][1..] == [] && StartIndices([send]) == [send.startIndex];
    StartIndicesConcat(above + late, [send]);
    StartIndicesConcat(above, late);
    StartIndicesConcat(above + [send], late);
    StartIndicesConcat(above, [send]);
  }

  lemma {:induction false} StartIndicesAt(txs: seq<Tx>)
    ensures |StartIndices(txs)| == |txs| && forall i :: 0 <= i < |txs| ==> StartIndices(txs)[i] == txs[i].startIndex
  {
    if txs != [] { StartIndicesAt(txs[1..]); }
  }

  /**
   The commitments and the start indices returned side by side fit together exactly when every topup
   that shares the send's nonce also shares its start index. Otherwise the tree is searched for some
   commitment from another commitment's start index.
   */
  lemma StartIndicesAlignedExactly(chain: Chain, above: seq<Tx>, send: Tx, late: seq<Tx>)
    requires AllTopups(above) && AllTopups(late) && send.txType == Send
    requires forall t :: t in above + [send] + late ==> Proper(t) && Rebuilt(chain, t)
    requires DistinctCommitments(above + [send] + late)
    ensures var txs := above + [send] + late;
            && IncompleteCommitments(chain, txs).Ok?
            && (Aligned(IncompleteCommitments(chain, txs).value, StartIndices(txs))
                <==> forall t :: t in late ==> t.startIndex == send.startIndex)
  {
    CommitmentsInOrder(chain, above, send, late);
    StartsSpelledOut(above, send, late);
    var mine, x := StartIndices(late), send.startIndex;
    PrefixedEqual(StartIndices(above), mine + [x], [x] + mine);
    RotatedIsConstant(mine, x);
    StartIndicesAt(late);
    assert forall j :: 0 <= j < |late| ==> late[j] in late;
  }

  /** The start indices of the commitments themselves: those of the topups, then those of the sends. */
  lemma OwnStarts(chain: Chain, txs: seq<Tx>)
    requires (forall t :: t in txs ==> Proper(t) && Rebuilt(chain, t)) && DistinctCommitments(txs)
    ensures var r := IncompleteCommitments(chain, txs);
            && r.Ok? && StartsOf(r.value) == StartIndices(OfType(txs, Topup) + OfType(txs, Send))
            && |r.value| == |txs| && forall i, j :: 0 <= i < j < |r.value| ==> r.value[i] != r.value[j]
  {
    hide Proper, Rebuilt, CommitmentsFor, StartsOf, OfType;
    var ordered := OfType(txs, Topup) + OfType(txs, Send);
    TopupsThenSendsDistinct(txs);
    OfTypeKeeps(txs, Topup);
    OfTypeKeeps(txs, Send);
    OfTypePartition(txs);
    assert forall t :: t in ordered ==> t in txs;
    CommitmentsForRebuilt(chain, ordered);
    StartsOfRebuilt(chain, ordered);
    var cs := CommitmentsFor(chain, ordered).value;
    assert [] + cs == cs;
    AddAllDistinct([], cs);
  }

  lemma CommitmentsInOrder(chain: Chain, above: seq<Tx>, send: Tx, late: seq<Tx>)
    requires AllTopups(above) && AllTopups(late) && send.txType == Send
    requires forall t :: t in above + [send] + late ==> Proper(t) && Rebuilt(chain, t)
    requires DistinctCommitments(above + [send] + late)
    ensures var r := IncompleteCommitments(chain, above + [send] + late);
            r.Ok? && StartsOf(r.value) == StartIndices(above + late + [send])
  {
    OrderOfCommitments(above, send, late);
    OwnStarts(chain, above + [send] + late);
  }

  /** Position `j` is the last defined one up to `i`. */
  ghost predicate LastDefined(startIndices: seq<Option<nat>>, j: nat, i: nat)
    requires j <= i < |startIndices|
  {
    startIndices[j].Some? && forall k :: j < k <= i ==> startIndices[k].None?
  }

  ghost predicate NoneDefined(startIndices: seq<Option<nat>>, i: nat)
    requires i < |startIndices|
  {
    forall k :: 0 <= k <= i ==> startIndices[k].None?
  }

  /** Each start index, or the last defined one before it, or 0. */
  function Normalized(startIndices: seq<Option<nat>>): (res: seq<nat>)
    ensures |res| == |startIndices|
  {
    if startIndices == [] then []
    else
      var n := |startIndices| - 1;
      var before := Normalized(startIndices[..n]);
      before + [if startIndices[n].Some? then startIndices[n].value else if n == 0 then 0 else before[n - 1]]
  }

  lemma {:induction false} NormalizedIs(startIndices: seq<Option<nat>>)
    ensures var res := Normalized(startIndices);
            && (forall j, i :: 0 <= j <= i < |res| && LastDefined(startIndices, j, i)
                  ==> res[i] == startIndices[j].value)
            && (forall i :: 0 <= i < |res| && NoneDefined(startIndices, i) ==> res[i] == 0)
  {
    if startIndices != [] {
      var n := |startIndices| - 1;
      var init := startIndices[..n];
      NormalizedIs(init);
      forall j, i | 0 <= j <= i <= n && LastDefined(startIndices, j, i)
        ensures Normalized(startIndices)[i] == startIndices[j].value
      {
        assert i < n ==> LastDefined(init, j, i);
        assert j < i == n ==> LastDefined(init, j, n - 1);
      }
      forall i | 0 <= i <= n && NoneDefined(startIndices, i) ensures Normalized(startIndices)[i] == 0 {
        assert i < n ==> NoneDefined(init, i);
        assert 0 < i == n ==> NoneDefined(init, n - 1);
      }
    }
  }

  /** When all are defined nothing changes. */
  lemma AllDefined(startIndices: seq<nat>)
    ensures Normalized(seq(|startIndices|, i requires 0 <= i < |startIndices| => Some(startIndices[i]))) == startIndices
  {
    var given := seq(|startIndices|, i requires 0 <= i < |startIndices| => Some(startIndices[i]));
    NormalizedIs(given);
    forall i | 0 <= i < |given| ensures Normalized(given)[i] == startIndices[i] {
      assert LastDefined(given, i, i);
    }
  }

  /** `normalizeStartIndices` */
  method NormalizeStartIndices(startIndices: seq<Option<nat>>) returns (res: seq<nat>)
    ensures res == Normalized(startIndices)
  {
    var defaultStartIndex := 0;
    res := [];
    for n := 0 to |startIndices|
      invariant res == Normalized(startIndices[..n])
      invariant defaultStartIndex == if n == 0 then 0 else res[n - 1]
    {
      assert startIndices[..n + 1][..n] == startIndices[..n];
      if startIndices[n].None? {
        res := res + [defaultStartIndex];
      } else {
        res := res + [startIndices[n].value];
        defaultStartIndex := startIndices[n].value;
      }
    }
    assert startIndices[..|startIndices|] == startIndices;
  }

  // ---------------------------------------------------------------- building a topup

  /** What `buildTopUpTx` sends: a merge if one is needed, then the topup; and the private balance the topup states. */
  datatype TopUpTxs = TopUpTxs(merge: Option<Tx>, topup: Tx, balance: int)

  /** `buildTopUpTx`, once the commitments are activated and the newest transaction is confirmed. */
  function TopUp(chain: Chain, q: Request, mergeFee: nat, mergeSig: nat): Result<TopUpTxs>
    requires LastNonce(chain) >= -1
  {
    match ActiveCommitments(chain, q.token)
    case Err(e) => Err(e)
    case Ok(cs) => TopUpFrom(cs, LastNonce(chain), q, mergeFee, mergeSig)
  }

  /** The same from the active commitments and the last nonce on. */
  function TopUpFrom(cs: seq<Commitment>, lastNonce: int, q: Request, mergeFee: nat, mergeSig: nat): Result<TopUpTxs>
    requires lastNonce >= -1
  {
    match NeedMerge(cs)
    case Err(e) => Err(e)
    case Ok(false) =>
      (match BuildTopup(cs, lastNonce, q, None)
       case Err(e) => Err(e)
       case Ok((t, balance)) => Ok(TopUpTxs(None, t, balance)))
    case Ok(true) =>
      match BuildSend(cs, lastNonce, MergeRequest(q, mergeFee, mergeSig), false)
      case Err(e) => Err(e)
      case Ok(merge) =>
        match BuildTopup(cs, lastNonce, q, Some(mergeFee))
        case Err(e) => Err(e)
        case Ok((t, balance)) => Ok(TopUpTxs(Some(merge), t, balance))
  }

  /** The chain once they were accepted, each under a nonce of its own. */
  function After(chain: Chain, txs: TopUpTxs): Chain {
    match txs.merge case None => chain + [[txs.topup]] case Some(merge) => chain + [[merge]] + [[txs.topup]]
  }

  /** A merge is a send of nothing. */
  function MergeRequest(q: Request, mergeFee: nat, mergeSig: nat): Request {
    Request(q.token, 0, mergeFee, q.startIndex, mergeSig)
  }

  ghost predicate FreshSig(chain: Chain, sig: nat) {
    forall n, u :: 0 <= n < |chain| && u in chain[n] ==> u.sig != sig
  }

  /** What is known about the active commitments of a token in order. */
  lemma ActiveSummary(chain: Chain, token: Token) returns (cs: seq<Commitment>)
    requires Reachable(chain) && TokenOk(chain, token)
    ensures ValidChain(chain) && LastNonce(chain) == |chain| - 1
    ensures ActiveCommitments(chain, token) == Ok(cs)
    ensures |cs| == |Unspent(chain, token, |chain|)| <= SEND_ARITY
    ensures SumBalances(cs) == LedgerBalance(chain, token, |chain|)
  {
    ReachableInvariant(chain);
    LastNonceIsLength(chain);
    ActiveCommitmentsAreUnspent(chain, token);
    cs := ActiveCommitments(chain, token).value;
  }

  lemma RoundOfOne(chain: Chain, t: Tx)
    requires LastNonce(chain) >= -1 && Built(chain, t) && |chain| < MAX_UINT32 && FreshSig(chain, t.sig)
    ensures Round(chain, [t])
  {
    forall u | u in [t] ensures Built(chain, u) { assert u == t; }
    forall u, n, v | u in [t] && 0 <= n < |chain| && v in chain[n] ensures u.sig != v.sig { assert u == t; }
  }

  lemma ReachableStep(chain: Chain, slot: seq<Tx>)
    requires Reachable(chain) && LastNonce(chain) >= -1 && Round(chain, slot)
    ensures Reachable(chain + [slot])
  {
    var next := chain + [slot];
    assert next[..|next| - 1] == chain && next[|next| - 1] == slot;
  }

  /** With one topup of each token at most, a round leaves every token in order that was so before. */
  lemma RoundKeepsTokens(chain: Chain, slot: seq<Tx>)
    requires Reachable(chain) && LastNonce(chain) >= -1 && Round(chain, slot)
    requires forall token :: |OfType(OfToken(slot, token), Topup)| <= 1
    ensures forall token :: TokenOk(chain, token) ==> TokenOk(chain + [slot], token)
  {
    ReachableInvariant(chain);
    forall token | TokenOk(chain, token) ensures TokenOk(chain + [slot], token) {
      OneTopupHasRoom(chain, slot, token);
      RoundKeepsToken(chain, slot, token);
    }
  }

  lemma OneOfType(t: Tx, token: Token)
    ensures |OfType(OfToken([t], token), Topup)| <= 1
  {
    FilterOne(t, token);
    OfTypePartition(OfToken([t], token));
  }

  lemma ReachableOne(chain: Chain, t: Tx)
    requires Reachable(chain) && LastNonce(chain) >= -1 && Built(chain, t)
    requires |chain| < MAX_UINT32 && FreshSig(chain, t.sig)
    ensures Reachable(chain + [[t]])
    ensures forall token :: TokenOk(chain, token) ==> TokenOk(chain + [[t]], token)
  {
    hide Built, Reachable, TokenOk, Round;
    RoundOfOne(chain, t);
    forall token ensures |OfType(OfToken([t], token), Topup)| <= 1 { OneOfType(t, token); }
    ReachableStep(chain, [t]);
    RoundKeepsTokens(chain, [t]);
  }

  lemma FilterOne(t: Tx, token: Token)
    ensures Filter(Reverse([t]), Some(token)) == if t.token == token then [t] else []
    ensures HasSend(Filter(Reverse([t]), Some(token))) <==> t.token == token && t.txType == Send
  {
    assert [t][1..] == [] && Reverse([t]) == [t];
    var here := Filter([t], Some(token));
    assert t.token == token ==> here == [t] && here[0] == t;
  }

  /** What one more nonce with one transaction leaves unspent. */
  lemma UnspentAfterOne(chain: Chain, t: Tx, token: Token)
    ensures Unspent(chain + [[t]], token, |chain| + 1)
            == if t.token != token then Unspent(chain, token, |chain|)
               else if t.txType == Send then [t] else [t] + Unspent(chain, token, |chain|)
  {
    UnspentPrefix(chain, [[t]], token, |chain|);
    FilterOne(t, token);
    assert (chain + [[t]])[|chain|] == [t];
    assert [] + Unspent(chain, token, |chain|) == Unspent(chain, token, |chain|);
  }

  lemma BalanceAfterOne(chain: Chain, t: Tx, token: Token)
    ensures LedgerBalance(chain + [[t]], token, |chain| + 1)
            == LedgerBalance(chain, token, |chain|) + if t.token == token then Signed(t) else 0
  {
    HistoryPrefix(chain, [[t]], token, |chain|);
    TokenHistoryStep(chain + [[t]], Some(token), |chain| + 1);
    FilterOne(t, token);
    assert (chain + [[t]])[|chain|] == [t];
    BalanceConcat(Filter(Reverse([t]), Some(token)), TokenHistory(chain, Some(token), |chain|));
    assert [t][1..] == [];
  }

  lemma FreshAfter(chain: Chain, t: Tx)
    ensures forall sig :: FreshSig(chain, sig) && sig != t.sig ==> FreshSig(chain + [[t]], sig)
  {
  }

  function TopupTx(nonce: nat, q: Request): Tx {
    var c := TopupCommitment(nonce, q.amount, q.token, q.startIndex);
    Tx(Topup, nonce, q.token, q.amount, q.fee, q.startIndex, c, None, q.sig)
  }

  lemma BuiltTopup(chain: Chain, cs: seq<Commitment>, q: Request)
    requires LastNonce(chain) == |chain| - 1 && ActiveCommitments(chain, q.token) == Ok(cs) && |cs| < SEND_ARITY
    ensures Built(chain, TopupTx(|chain|, q))
  {
  }

  lemma BuiltMerge(chain: Chain, cs: seq<Commitment>, q: Request, mergeFee: nat, mergeSig: nat)
    requires LastNonce(chain) == |chain| - 1 && ActiveCommitments(chain, q.token) == Ok(cs) && |cs| != 0
    requires SumBalances(cs) == LedgerBalance(chain, q.token, |chain|)
    ensures Built(chain, MergeTx(chain, q, mergeFee, mergeSig))
  {
    assert BuildSend(cs, LastNonce(chain), MergeRequest(q, mergeFee, mergeSig), false)
        == Ok(MergeTx(chain, q, mergeFee, mergeSig));
  }

  /** The tokens that are in order stay so. */
  ghost predicate KeepsTokens(chain: Chain, next: Chain) {
    forall token :: TokenOk(chain, token) ==> TokenOk(next, token)
  }

  /** A topup on fewer than SEND_ARITY outputs. */
  lemma PlainTopUp(chain: Chain, q: Request)
    requires Reachable(chain) && TokenOk(chain, q.token) && |chain| < MAX_UINT32 && FreshSig(chain, q.sig)
    requires |Unspent(chain, q.token, |chain|)| != SEND_ARITY
    ensures var next := chain + [[TopupTx(|chain|, q)]]; Reachable(next) && KeepsTokens(chain, next)
  {
    var cs := ActiveSummary(chain, q.token);
    BuiltTopup(chain, cs, q);
    ReachableOne(chain, TopupTx(|chain|, q));
  }

  function MergeTx(chain: Chain, q: Request, mergeFee: nat, mergeSig: nat): Tx {
    var next := CommitmentForSend(|chain|, q.token, LedgerBalance(chain, q.token, |chain|), 0, mergeFee, q.startIndex);
    Tx(Send, |chain|, q.token, 0, mergeFee, q.startIndex, next, Some(next), mergeSig)
  }

  lemma Merge(chain: Chain, q: Request, mergeFee: nat, mergeSig: nat)
    requires Reachable(chain) && TokenOk(chain, q.token) && |chain| < MAX_UINT32 && FreshSig(chain, mergeSig)
    requires Unspent(chain, q.token, |chain|) != []
    ensures var next := chain + [[MergeTx(chain, q, mergeFee, mergeSig)]]; Reachable(next) && KeepsTokens(chain, next)
  {
    var cs := ActiveSummary(chain, q.token);
    var m := MergeTx(chain, q, mergeFee, mergeSig);
    BuiltMerge(chain, cs, q, mergeFee, mergeSig);
    ReachableOne(chain, m);
  }

  /** Two topups of a token built at once on three unspent outputs: each is right on its own, together they overflow. */
  lemma TwoTopupsOverflow(chain: Chain, q: Request, other: Request)
    requires Reachable(chain) && TokenOk(chain, q.token) && |chain| < MAX_UINT32
    requires |Unspent(chain, q.token, |chain|)| == SEND_ARITY - 1
    requires FreshSig(chain, q.sig) && FreshSig(chain, other.sig) && q.sig != other.sig
    requires other.token == q.token && other.amount != q.amount
    ensures LastNonce(chain) >= -1
    ensures var t, u := TopupTx(|chain|, q), TopupTx(|chain|, other);
            var next := chain + [[t, u]];
            && Round(chain, [t, u]) && !RoomFor(chain, [t, u], q.token) && Reachable(next)
            && Unspent(next, q.token, |next|) == [u, t] + Unspent(chain, q.token, |chain|)
            && |Unspent(next, q.token, |next|)| == SEND_ARITY + 1
            && !TokenOk(next, q.token)
  {
    hide Reachable, TokenOk, Built, Round;
    var cs := ActiveSummary(chain, q.token);
    var t, u := TopupTx(|chain|, q), TopupTx(|chain|, other);
    BuiltTopup(chain, cs, q);
    BuiltTopup(chain, cs, other);
    TopupsAtOnce(chain, t, u);
    ReachableStep(chain, [t, u]);
    TwoTopupsHere(t, u);
    ReachableInvariant(chain);
    UnspentAfter(chain, [t, u], q.token);
    RoundKeepsToken(chain, [t, u], q.token);
  }

  lemma TopupsAtOnce(chain: Chain, t: Tx, u: Tx)
    requires LastNonce(chain) >= -1 && |chain| < MAX_UINT32 && Built(chain, t) && Built(chain, u) && Apart(t, u)
    requires FreshSig(chain, t.sig) && FreshSig(chain, u.sig)
    ensures Round(chain, [t, u])
  {
    hide Built, Apart;
    forall x | x in [t, u] ensures Built(chain, x) { assert x == t || x == u; }
    forall x, n, v | x in [t, u] && 0 <= n < |chain| && v in chain[n] ensures x.sig != v.sig {
      assert x == t || x == u;
    }
  }

  lemma TwoTopupsHere(t: Tx, u: Tx)
    requires t.txType == u.txType == Topup && t.token == u.token
    ensures OfToken([t, u], t.token) == [u, t] && !HasSend([u, t])
  {
    assert [t, u][1..] == [u] && [u][1..] == [] && Reverse([u]) == [u] && Reverse([t, u]) == [u, t];
    assert [u, t][1..] == [t] && [t][1..] == [];
    assert Filter([t], Some(t.token)) == [t];
    assert Filter([u, t], Some(t.token)) == [u, t];
  }

  /** No two unspent outputs of the token share a nonce. */
  ghost predicate OneEach(chain: Chain, token: Token) {
    var unspent := Unspent(chain, token, |chain|);
    forall i, j :: 0 <= i < j < |unspent| ==> unspent[i].nonce != unspent[j].nonce
  }

  /** What a topup with its merge, if it needs one, does to a reachable chain. */
  ghost predicate ToppedUp(chain: Chain, next: Chain, token: Token, merged: bool, balance: int) {
    && Reachable(next) && |chain| < |next| <= |chain| + 2
    && (merged <==> |Unspent(chain, token, |chain|)| == SEND_ARITY)
    && |Unspent(next, token, |next|)| == (if merged then 2 else |Unspent(chain, token, |chain|)| + 1)
    && (OneEach(chain, token) || merged ==> OneEach(next, token))
    && KeepsTokens(chain, next)
    && balance == LedgerBalance(next, token, |next|)
    && (forall other :: other != token ==> Unspent(next, other, |next|) == Unspent(chain, other, |chain|))
  }

  ghost predicate SigsOnlyFrom(chain: Chain, next: Chain, a: nat, b: nat) {
    forall sig :: FreshSig(chain, sig) && sig != a && sig != b ==> FreshSig(next, sig)
  }

  lemma AfterPlain(chain: Chain, q: Request)
    requires Reachable(chain) && TokenOk(chain, q.token) && |chain| < MAX_UINT32 && FreshSig(chain, q.sig)
    requires |Unspent(chain, q.token, |chain|)| != SEND_ARITY
    ensures ToppedUp(chain, chain + [[TopupTx(|chain|, q)]], q.token, false,
                     LedgerBalance(chain, q.token, |chain|) + q.amount)
  {
    hide Reachable, Unspent, OneEach, LedgerBalance, TokenOk, KeepsTokens;
    var t := TopupTx(|chain|, q);
    PlainTopUp(chain, q);
    forall other
      ensures other != q.token ==> Unspent(chain + [[t]], other, |chain| + 1) == Unspent(chain, other, |chain|)
    {
      UnspentAfterOne(chain, t, other);
    }
    UnspentAfterOne(chain, t, q.token);
    BalanceAfterOne(chain, t, q.token);
    TopupStaysApart(chain, t);
  }

  lemma TopupStaysApart(chain: Chain, t: Tx)
    requires Reachable(chain) && t.txType == Topup && t.nonce == |chain|
    ensures OneEach(chain, t.token) ==> OneEach(chain + [[t]], t.token)
  {
    hide Reachable, Unspent;
    UnspentNonces(chain, t.token);
    UnspentAfterOne(chain, t, t.token);
    var unspent := Unspent(chain, t.token, |chain|);
    assert forall i :: 0 <= i < |unspent| ==> unspent[i] in unspent;
  }

  lemma UnspentNonces(chain: Chain, token: Token)
    requires Reachable(chain)
    ensures forall t :: t in Unspent(chain, token, |chain|) ==> t.nonce < |chain|
  {
    ReachableInvariant(chain);
    var k := UnspentSplits(chain, token, |chain|);
    TokenHistoryBounds(chain, Some(token), |chain|);
    assert forall t :: t in Unspent(chain, token, |chain|) ==> t in TokenHistory(chain, Some(token), |chain|);
  }

  lemma AfterMergeTx(chain: Chain, m: Tx, q: Request)
    requires Reachable(chain + [[m]]) && |chain| + 2 <= MAX_UINT32 && m.txType == Send && m.token == q.token
    requires TokenOk(chain, q.token) && KeepsTokens(chain, chain + [[m]])
    requires FreshSig(chain, q.sig) && q.sig != m.sig
    requires |Unspent(chain, q.token, |chain|)| == SEND_ARITY
    ensures ToppedUp(chain, chain + [[m]] + [[TopupTx(|chain| + 1, q)]], q.token, true,
                     LedgerBalance(chain, q.token, |chain|) - m.amount - m.fee + q.amount)
  {
    hide Reachable, TokenOk, LedgerBalance, Unspent, FreshSig;
    var middle := chain + [[m]];
    AfterSendOf(chain, m);
    FreshAfter(chain, m);
    AfterPlain(middle, q);
    assert |middle| == |chain| + 1;
  }

  lemma AfterSendOf(chain: Chain, m: Tx)
    requires m.txType == Send
    ensures Unspent(chain + [[m]], m.token, |chain| + 1) == [m]
    ensures LedgerBalance(chain + [[m]], m.token, |chain| + 1)
            == LedgerBalance(chain, m.token, |chain|) - m.amount - m.fee
    ensures forall other :: other != m.token ==>
            Unspent(chain + [[m]], other, |chain| + 1) == Unspent(chain, other, |chain|)
  {
    UnspentAfterOne(chain, m, m.token);
    BalanceAfterOne(chain, m, m.token);
    forall other | other != m.token
      ensures Unspent(chain + [[m]], other, |chain| + 1) == Unspent(chain, other, |chain|)
    {
      UnspentAfterOne(chain, m, other);
    }
  }

  // ---------------------------------------------------------------- start indices, on a reachable chain

  lemma RoundOfTwo(chain: Chain, t: Tx, m: Tx)
    requires LastNonce(chain) >= -1 && |chain| < MAX_UINT32 && Built(chain, t) && Built(chain, m) && Apart(t, m)
    requires FreshSig(chain, t.sig) && FreshSig(chain, m.sig) && t.txType == Topup && m.txType == Send
    ensures Round(chain, [t, m])
  {
    hide Built;
    forall u | u in [t, m] ensures Built(chain, u) { assert u == t || u == m; }
    forall u, n, v | u in [t, m] && 0 <= n < |chain| && v in chain[n] ensures u.sig != v.sig {
      assert u == t || u == m;
    }
  }

  lemma TopupThenSend(t: Tx, m: Tx, token: Token)
    requires t.txType == Topup && m.txType == Send
    ensures |OfType(OfToken([t, m], token), Topup)| <= 1
    ensures t.token == m.token == token ==> OfToken([t, m], token) == [m, t] && HasSend(OfToken([t, m], token))
  {
    assert [t, m][1..] == [m] && [m][1..] == [] && Reverse([m]) == [m] && Reverse([t, m]) == [m, t];
    assert [m, t][1..] == [t] && [t][1..] == [];
    assert Filter([t], Some(token)) == if t.token == token then [t] else [];
    assert OfToken([t, m], token) == Filter([m, t], Some(token));
    OfTypePartition(OfToken([t, m], token));
    if t.token == m.token == token {
      assert [m, t][0].txType == Send;
      assert OfType([m, t], Topup) == OfType([t], Topup);
    }
  }

  /**
   A topup built beside a send, with another start index: the next look at the active commitments pairs each
   of the two with the start index of the other.
   */
  lemma MisalignmentIsReachable(chain: Chain, q: Request, other: Request, mergeFee: nat, mergeSig: nat)
    requires Reachable(chain) && TokenOk(chain, q.token) && |chain| < MAX_UINT32
    requires 0 < |Unspent(chain, q.token, |chain|)| < SEND_ARITY
    requires FreshSig(chain, q.sig) && FreshSig(chain, mergeSig) && q.sig != mergeSig
    requires other.token == q.token && other.startIndex != q.startIndex
    ensures var next := chain + [[TopupTx(|chain|, q), MergeTx(chain, other, mergeFee, mergeSig)]];
            var txs := ActiveTxs(next, q.token, |next|);
            && Reachable(next) && TokenOk(next, q.token)
            && Unspent(next, q.token, |next|) == [MergeTx(chain, other, mergeFee, mergeSig), TopupTx(|chain|, q)]
            && IncompleteCommitments(next, txs).Ok?
            && !Aligned(IncompleteCommitments(next, txs).value, StartIndices(txs))
  {
    var cs := ActiveSummary(chain, q.token);
    var t, m := TopupTx(|chain|, q), MergeTx(chain, other, mergeFee, mergeSig);
    BuiltTopup(chain, cs, q);
    BuiltMerge(chain, cs, other, mergeFee, mergeSig);
    RoundOfTwo(chain, t, m);
    forall token ensures |OfType(OfToken([t, m], token), Topup)| <= 1 { TopupThenSend(t, m, token); }
    ReachableStep(chain, [t, m]);
    RoundKeepsTokens(chain, [t, m]);
    SendAndTopupActive(chain, t, m);
  }

  lemma SendAndTopupActive(chain: Chain, t: Tx, m: Tx)
    requires Reachable(chain + [[t, m]]) && TokenOk(chain + [[t, m]], t.token)
    requires t.txType == Topup && m.txType == Send && t.token == m.token && t.startIndex != m.startIndex
    ensures var next := chain + [[t, m]];
            var txs := ActiveTxs(next, t.token, |next|);
            && Unspent(next, t.token, |next|) == [m, t]
            && IncompleteCommitments(next, txs).Ok?
            && !Aligned(IncompleteCommitments(next, txs).value, StartIndices(txs))
  {
    var next := chain + [[t, m]];
    TopupThenSend(t, m, t.token);
    ReachableInvariant(next);
    ActiveCommitmentsAreUnspent(next, t.token);
    assert Unspent(next, t.token, |next|) == [m, t];
    var k := UnspentSplits(next, t.token, |next|);
    PartOfHistory(next, t.token, [m, t], Before(next, t.token, k));
    forall x | x in [m, t] ensures Proper(x) && Rebuilt(next, x) { RecordedIsRebuilt(next, x); }
    assert [m, t] == [] + [m] + [t] && [t][0] in [t];
    StartIndicesAlignedExactly(next, [], m, [t]);
  }

  /**
   On every reachable chain with the token in order, once the commitments are activated, `buildTopUpTx` leads to such a
   chain again. It merges exactly when SEND_ARITY outputs of the token are unspent; then two are unspent after it, else
   one more than before. Other tokens are untouched, and the private balance it states is the ledger balance after it.
   */
  lemma TopUpStep(chain: Chain, q: Request, mergeFee: nat, mergeSig: nat)
    requires Reachable(chain) && TokenOk(chain, q.token) && |chain| + 2 <= MAX_UINT32
    requires FreshSig(chain, q.sig) && FreshSig(chain, mergeSig) && q.sig != mergeSig
    ensures LastNonce(chain) >= -1
    ensures var r := TopUp(chain, q, mergeFee, mergeSig);
            && r.Ok?
            && ToppedUp(chain, After(chain, r.value), q.token, r.value.merge.Some?, r.value.balance)
            && SigsOnlyFrom(chain, After(chain, r.value), q.sig, mergeSig)
  {
    var cs := ActiveSummary(chain, q.token);
    TopUpIsFrom(chain, cs, q, mergeFee, mergeSig);
    if |cs| == SEND_ARITY {
      StepMerged(chain, cs, q, mergeFee, mergeSig);
    } else {
      StepPlain(chain, cs, q, mergeFee, mergeSig);
    }
  }

  lemma TopUpIsFrom(chain: Chain, cs: seq<Commitment>, q: Request, mergeFee: nat, mergeSig: nat)
    requires LastNonce(chain) == |chain| - 1 && ActiveCommitments(chain, q.token) == Ok(cs)
    ensures TopUp(chain, q, mergeFee, mergeSig) == TopUpFrom(cs, |chain| - 1, q, mergeFee, mergeSig)
  {
  }

  lemma StepPlain(chain: Chain, cs: seq<Commitment>, q: Request, mergeFee: nat, mergeSig: nat)
    requires Reachable(chain) && TokenOk(chain, q.token) && |chain| < MAX_UINT32 && FreshSig(chain, q.sig)
    requires |cs| == |Unspent(chain, q.token, |chain|)| < SEND_ARITY
    requires SumBalances(cs) == LedgerBalance(chain, q.token, |chain|)
    ensures var r := TopUpFrom(cs, |chain| - 1, q, mergeFee, mergeSig);
            && r.Ok? && ToppedUp(chain, After(chain, r.value), q.token, r.value.merge.Some?, r.value.balance)
            && SigsOnlyFrom(chain, After(chain, r.value), q.sig, mergeSig)
  {
    AfterPlain(chain, q);
    FreshAfter(chain, TopupTx(|chain|, q));
    TopUpFromPlain(chain, cs, q, mergeFee, mergeSig);
  }

  lemma StepMerged(chain: Chain, cs: seq<Commitment>, q: Request, mergeFee: nat, mergeSig: nat)
    requires Reachable(chain) && TokenOk(chain, q.token) && |chain| + 2 <= MAX_UINT32
    requires FreshSig(chain, q.sig) && FreshSig(chain, mergeSig) && q.sig != mergeSig
    requires |cs| == |Unspent(chain, q.token, |chain|)| == SEND_ARITY
    requires SumBalances(cs) == LedgerBalance(chain, q.token, |chain|)
    ensures var r := TopUpFrom(cs, |chain| - 1, q, mergeFee, mergeSig);
            && r.Ok? && ToppedUp(chain, After(chain, r.value), q.token, r.value.merge.Some?, r.value.balance)
            && SigsOnlyFrom(chain, After(chain, r.value), q.sig, mergeSig)
  {
    TopUpFromMerged(chain, cs, q, mergeFee, mergeSig);
    Merge(chain, q, mergeFee, mergeSig);
    AfterMergeTx(chain, MergeTx(chain, q, mergeFee, mergeSig), q);
    FreshAfter(chain, MergeTx(chain, q, mergeFee, mergeSig));
    FreshAfter(chain + [[MergeTx(chain, q, mergeFee, mergeSig)]], TopupTx(|chain| + 1, q));
  }

  lemma TopUpFromPlain(chain: Chain, cs: seq<Commitment>, q: Request, mergeFee: nat, mergeSig: nat)
    requires |cs| < SEND_ARITY
    ensures TopUpFrom(cs, |chain| - 1, q, mergeFee, mergeSig)
            == Ok(TopUpTxs(None, TopupTx(|chain|, q), SumBalances(cs) + q.amount))
  {
  }

  lemma TopUpFromMerged(chain: Chain, cs: seq<Commitment>, q: Request, mergeFee: nat, mergeSig: nat)
    requires |cs| == SEND_ARITY && SumBalances(cs) == LedgerBalance(chain, q.token, |chain|)
    ensures var m := MergeTx(chain, q, mergeFee, mergeSig);
            TopUpFrom(cs, |chain| - 1, q, mergeFee, mergeSig)
            == Ok(TopUpTxs(Some(m), TopupTx(|chain| + 1, q),
                           LedgerBalance(chain, q.token, |chain|) - m.amount - m.fee + q.amount))
  {
  }
}
