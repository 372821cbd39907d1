/**
 Activating the commitments of a token: finding them in the on-chain tree before they are spent or topped up
 (`getActiveCommitments`, `isTransactionConfirmed` and `activateCommitments` of
 src/sdk/paramManagers/CommitmentManager.ts:62-115), the nonce of the newest transaction
 (src/sdk/transactions/txBuilding/RemoteParamFetching.ts:137-146), and `buildTopUpTx` of src/public/elusiv.ts:134-187
 that uses both.
 */
module Activation {
  import opened Common
  import opened Ledger
  import opened TxCache
  import opened TransactionManager
  import opened CommitmentMachine
  import opened Topups
  import opened LostOutputs
  import opened Overfull
  import opened IndexConverter
  import opened ChunkScan
  import Storage = StorageSearch
  import Search = TreeSearch
  import opened AnyStarts
  import opened FullTree
  import opened CrossedStarts
  import opened SkippedInTree

  type Tree = Storage.Tree

  // ---------------------------------------------------------------- what activation gives

  /** `isTransactionConfirmed`, on the tree: is the commitment of the transaction there from its start index on? */
  function Confirmed(h: Commitment -> Hash, tree: Tree, chain: Chain, t: Tx): Result<bool> {
    match CommitmentFor(chain, t) case Err(e) => Err(e) case Ok(c) => Search.HasCommitment(tree, h(c), t.startIndex)
  }

  /**
   `getActiveCommitments`, for a run that sees the chain up to `end`: the commitments, once each was found in the tree,
   or the error thrown.
   */
  ghost function Activation(h: Commitment -> Hash, tree: Tree, chain: Chain, token: Token,
        end: nat): Result<seq<Commitment>>
    requires Storage.WellSized(tree) && end <= |chain|
  {
    var txs := ActiveTxs(chain, token, end);
    if txs == [] then Ok([])
    else match Confirmed(h, tree, chain, txs[0])
      case Err(e) => Err(e)
      case Ok(false) => Err(NotConfirmed)
      case Ok(true) =>
        match IncompleteCommitments(chain, txs)
        case Err(e) => Err(e)
        case Ok(cs) => Activated(h, tree, cs, StartIndices(txs))
  }

  /** `activateCommitments` */
  ghost function Activated(h: Commitment -> Hash, tree: Tree, cs: seq<Commitment>,
        starts: seq<nat>): Result<seq<Commitment>>
    requires Storage.WellSized(tree)
  {
    if |cs| != |starts| then Err(LengthsDiffer)
    else match Openings.InfoLeaves(tree, Want(MapTo(cs, h), starts)) case Err(e) => Err(e) case Ok(_) => Ok(cs)
  }

  /** `getMostRecentNonce`, for a run that sees the chain up to `end`. */
  function RecentNonce(h: Commitment -> Hash, tree: Tree, chain: Chain, end: nat): (r: Result<int>)
    requires end <= |chain|
    ensures r.Ok? ==> r.value >= -1
  {
    match Newest(chain, end)
    case None => Ok(-1)
    case Some(t) =>
      match Confirmed(h, tree, chain, t)
      case Err(e) => Err(e)
      case Ok(false) => Err(NotConfirmed)
      case Ok(true) => var nonce: int := t.nonce; Ok(nonce)
  }

  /**
   `buildTopUpTx` on a tree. The active commitments and the newest nonce are fetched by two runs, which see the chain up
   to `activeEnd` and up to `nonceEnd`.
   */
  ghost function TopUpOnTree(h: Commitment -> Hash, tree: Tree, chain: Chain, activeEnd: nat, nonceEnd: nat,
        q: Request, mergeFee: nat, mergeSig: nat): Result<TopUpTxs>
    requires Storage.WellSized(tree) && activeEnd <= |chain| && nonceEnd <= |chain|
  {
    match Activation(h, tree, chain, q.token, activeEnd)
    case Err(e) => Err(e)
    case Ok(cs) =>
      match RecentNonce(h, tree, chain, nonceEnd)
      case Err(e) => Err(e)
      case Ok(lastNonce) => TopUpFrom(cs, lastNonce, q, mergeFee, mergeSig)
  }

  /** The same when both runs see the whole chain. */
  ghost function TopUpNow(h: Commitment -> Hash, tree: Tree, chain: Chain, q: Request, mergeFee: nat,
        mergeSig: nat): Result<TopUpTxs>
    requires Storage.WellSized(tree)
  {
    TopUpOnTree(h, tree, chain, |chain|, |chain|, q, mergeFee, mergeSig)
  }

  // ---------------------------------------------------------------- the methods

  /** A commitment with its place in the tree. */
  datatype ActiveCommitment = ActiveCommitment(commitment: Commitment, info: Openings.CommitmentInfo)

  function CommitmentsOf(active: seq<ActiveCommitment>): seq<Commitment> {
    seq(|active|, i requires 0 <= i < |active| => active[i].commitment)
  }

  /** `isTransactionConfirmed` */
  method IsTransactionConfirmed(h: Commitment -> Hash, manager: TransactionManager, node: Chain, tree: Tree, t: Tx)
    returns (r: Result<bool>)
    requires manager.Valid(node)
    modifies manager.fetchedTxs
    ensures manager.Valid(node) && r == Confirmed(h, tree, Seen(node), t)
  {
    var c := Ok(TopupCommitment(t.nonce, t.amount, t.token, t.startIndex));
    if t.txType == Send {
      c := GetCommitmentForPartialSend(manager, node, t);
    }
    if c.Err? {
      return Err(c.error);
    }
    r := Search.HasCommitment(tree, h(c.value), t.startIndex);
  }

  /** `activateCommitments`; the commitments come out of a set, so putting them into a set again keeps them all. */
  method ActivateCommitments(p: Openings.Poseidon, h: Commitment -> Hash, tree: Tree, cs: seq<Commitment>,
        startIndices: seq<Option<nat>>)
    returns (r: Result<seq<ActiveCommitment>>)
    requires Storage.WellSized(tree)
    ensures r.Ok? ==> CommitmentsOf(r.value) == cs && Activated(h, tree, cs, Normalized(startIndices)) == Ok(cs)
    ensures r.Err? ==> Activated(h, tree, cs, Normalized(startIndices)) == Err(r.error)
    ensures r.Ok? && Openings.KeptUp(p, MERKLE_TREE_HEIGHT, Openings.Stored(tree)) ==>
              forall i :: 0 <= i < |r.value| ==> Openings.InfoRight(p, tree, h(r.value[i].commitment), r.value[i].info)
  {
    hide Openings.InfoLeaves, Openings.KeptUp, Openings.Stored, Openings.InfoRight, Storage.WellSized, Normalized;
    var normalizedSIs := NormalizeStartIndices(startIndices);
    if |cs| != |normalizedSIs| {
      return Err(LengthsDiffer);
    }
    var infos := Openings.GetCommitmentsInfo(p, tree, Want(MapTo(cs, h), normalizedSIs));
    if infos.Err? {
      return Err(infos.error);
    }
    var res := seq(|cs|, i requires 0 <= i < |cs| && |infos.value| == |cs| => ActiveCommitment(cs[i], infos.value[i]));
    assert CommitmentsOf(res) == cs;
    r := Ok(res);
  }

  /**
   `getActiveCommitments`: the commitments of the active transactions, each with a leaf that holds it and a right
   opening.
   */
  method GetActiveCommitments(p: Openings.Poseidon, h: Commitment -> Hash, manager: TransactionManager, node: Chain,
        tree: Tree, token: Token, meanwhile: seq<Ranges>)
    returns (r: Result<seq<ActiveCommitment>>)
    requires manager.Valid(node) && Storage.WellSized(tree)
    modifies manager.fetchedTxs
    ensures manager.Valid(node)
    ensures var end := EndSeen(|node|, |old(manager.fetchedTxs.cached)|, meanwhile);
            && end <= |node|
            && (r.Ok? ==> Activation(h, tree, Seen(node), token, end) == Ok(CommitmentsOf(r.value)))
            && (r.Err? ==> Activation(h, tree, Seen(node), token, end) == Err(r.error))
    ensures r.Ok? && Openings.KeptUp(p, MERKLE_TREE_HEIGHT, Openings.Stored(tree)) ==>
              forall i :: 0 <= i < |r.value| ==> Openings.InfoRight(p, tree, h(r.value[i].commitment), r.value[i].info)
  {
    hide Activated, Confirmed, IncompleteCommitments, Openings.KeptUp, Openings.Stored, Openings.InfoRight,
      Storage.WellSized, Normalized, Seen, EndSeen;
    SeenLength(node);
    var activeTxs := manager.GetActiveTxs(node, token, None, meanwhile);
    if |activeTxs| == 0 {
      assert CommitmentsOf([]) == [];
      return Ok([]);
    }
    var confirmed := IsTransactionConfirmed(h, manager, node, tree, activeTxs[0]);
    if confirmed.Err? {
      return Err(confirmed.error);
    }
    if !confirmed.value {
      return Err(NotConfirmed);
    }
    var activeComms, startIndices := GetIncompleteCommitmentsForTxs(manager, node, activeTxs);
    if activeComms.Err? {
      return Err(activeComms.error);
    }
    AllDefined(startIndices);
    r := ActivateCommitments(p, h, tree, activeComms.value,
                             seq(|startIndices|, i requires 0 <= i < |startIndices| => Some(startIndices[i])));
  }

  /** `getMostRecentNonce` */
  method GetMostRecentNonce(h: Commitment -> Hash, manager: TransactionManager, node: Chain, tree: Tree,
        meanwhile: seq<Ranges>)
    returns (r: Result<int>)
    requires manager.Valid(node)
    modifies manager.fetchedTxs
    ensures manager.Valid(node)
    ensures var end := EndSeen(|node|, |old(manager.fetchedTxs.cached)|, meanwhile);
            end <= |node| && r == RecentNonce(h, tree, Seen(node), end)
  {
    hide Confirmed, Seen, EndSeen;
    SeenLength(node);
    var mostRecentTx := manager.GetMostRecentTx(node, meanwhile);
    if mostRecentTx.None? {
      return Ok(-1);
    }
    var confirmed := IsTransactionConfirmed(h, manager, node, tree, mostRecentTx.value);
    if confirmed.Err? {
      return Err(confirmed.error);
    }
    if confirmed.value {
      return Ok(mostRecentTx.value.nonce);
    }
    return Err(NotConfirmed);
  }

  lemma SeenLength(node: Chain)
    ensures |Seen(node)| == |node|
  {
  }

  /**
   `buildTopUpTx`: `manualMerge` leaves the merge to the user. The active commitments and the newest nonce are fetched
   at once, by two runs that start on the same cache; what either brings is among what completes while the other waits.
   How far each gets to see is fixed by the cache they start on and by that.
   */
  method BuildTopUpTx(p: Openings.Poseidon, h: Commitment -> Hash, manager: TransactionManager, node: Chain, tree: Tree,
        q: Request, mergeFee: nat, mergeSig: nat, manualMerge: bool, beside: seq<Ranges>, meanwhile: seq<Ranges>)
    returns (r: Result<TopUpTxs>)
    requires manager.Valid(node) && Storage.WellSized(tree)
    modifies manager.fetchedTxs
    ensures manager.Valid(node) && |Seen(node)| == |node|
    ensures var cached := |old(manager.fetchedTxs.cached)|;
            var activeEnd, nonceEnd := EndSeen(|node|, cached, beside), EndSeen(|node|, cached, meanwhile);
            && activeEnd <= |node| && nonceEnd <= |node|
            && var automatic := TopUpOnTree(h, tree, Seen(node), activeEnd, nonceEnd, q, mergeFee, mergeSig);
            r == if manualMerge && automatic.Ok? && automatic.value.merge.Some? then Err(MergeNeeded) else automatic
  {
    hide Activation, RecentNonce, Seen, Openings.InfoRight, Openings.KeptUp, EndSeen;
    SeenLength(node);
    // the cache as the second run finds it
    var found := new TransactionManager();
    found.fetchedTxs.cached := manager.fetchedTxs.cached;
    var active := GetActiveCommitments(p, h, manager, node, tree, q.token, beside);
    var lastNonce := GetMostRecentNonce(h, found, node, tree, meanwhile);
    if active.Err? {
      return Err(active.error);
    }
    if lastNonce.Err? {
      return Err(lastNonce.error);
    }
    var cs := CommitmentsOf(active.value);
    var needMerge := NeedMerge(cs);
    if needMerge.Err? {
      return Err(needMerge.error);
    }
    var merge: Option<Tx> := None;
    if needMerge.value {
      if manualMerge {
        return Err(MergeNeeded);
      }
      merge := Some(BuildSend(cs, lastNonce.value, MergeRequest(q, mergeFee, mergeSig), false).value);
    }
    var topup := BuildTopup(cs, lastNonce.value, q, if needMerge.value then Some(mergeFee) else None).value;
    return Ok(TopUpTxs(merge, topup.0, topup.1));
  }

  /** A run that is behind builds on a nonce that is taken. */
  lemma StaleNonceIsTaken(h: Commitment -> Hash, tree: Tree, chain: Chain, activeEnd: nat, end: nat, q: Request,
        mergeFee: nat, mergeSig: nat)
    requires Storage.WellSized(tree) && ValidChain(chain) && activeEnd <= |chain| && end < |chain|
    ensures var r := TopUpOnTree(h, tree, chain, activeEnd, end, q, mergeFee, mergeSig);
            r.Ok? ==> var first := if r.value.merge.Some? then r.value.merge.value else r.value.topup;
              first.nonce == end && exists t :: t in chain[end] && t.nonce == first.nonce
  {
    hide Activation, Confirmed;
    LastNonceIsLength(chain[..end]);
    assert chain[..end] + chain[end..] == chain;
    BetweenPrefix(chain[..end], chain[end..], 0, end);
    assert ValidSlot(chain[end], end) && chain[end][0] in chain[end];
  }

  /** Runs that are behind build what they would have built when the chain was as long as they see it. */
  lemma BehindIsThePast(h: Commitment -> Hash, tree: Tree, chain: Chain, end: nat, q: Request, mergeFee: nat,
        mergeSig: nat)
    requires Storage.WellSized(tree) && Reachable(chain) && end <= |chain|
    ensures TopUpOnTree(h, tree, chain, end, end, q, mergeFee, mergeSig)
            == TopUpNow(h, tree, chain[..end], q, mergeFee, mergeSig)
  {
    hide Reachable, Invariant, Activation, RecentNonce, Storage.WellSized;
    var past := chain[..end];
    assert past + chain[end..] == chain;
    ReachablePrefix(chain, end);
    ReachableInvariant(past);
    SameActivation(h, tree, past, chain[end..], q.token);
    SameRecentNonce(h, tree, past, chain[end..]);
  }

  lemma SameActivation(h: Commitment -> Hash, tree: Tree, chain: Chain, more: Chain, token: Token)
    requires Storage.WellSized(tree) && Invariant(chain)
    ensures Activation(h, tree, chain + more, token, |chain|) == Activation(h, tree, chain, token, |chain|)
  {
    hide Invariant, Confirmed, IncompleteCommitments, Activated, ActiveTxs, Storage.WellSized;
    SamePast(chain, more, token);
    var txs := ActiveTxs(chain, token, |chain|);
    if txs != [] { SameConfirmed(h, tree, chain, more, txs[0]); }
    SameIncomplete(chain, more, txs);
  }

  lemma SameRecentNonce(h: Commitment -> Hash, tree: Tree, chain: Chain, more: Chain)
    requires Storage.WellSized(tree) && Invariant(chain)
    ensures RecentNonce(h, tree, chain + more, |chain|) == RecentNonce(h, tree, chain, |chain|)
  {
    hide Invariant, Confirmed, Storage.WellSized;
    BetweenPrefix(chain, more, 0, |chain|);
    NewestNonce(chain);
    var newest := Newest(chain, |chain|);
    if newest.Some? { SameConfirmed(h, tree, chain, more, newest.value); }
  }

  lemma NewestNonce(chain: Chain)
    requires Invariant(chain)
    ensures Newest(chain, |chain|).Some? ==> Newest(chain, |chain|).value.nonce < |chain|
  {
    HistoryElements(chain, |chain|);
  }

  lemma SamePast(chain: Chain, more: Chain, token: Token)
    requires Invariant(chain)
    ensures ActiveTxs(chain + more, token, |chain|) == ActiveTxs(chain, token, |chain|)
    ensures forall t :: t in ActiveTxs(chain, token, |chain|) ==> t.nonce < |chain|
  {
    hide ActiveTxs, Sound;
    SoundToken(chain, token);
    forall t | t in ActiveTxs(chain, token, |chain|) ensures t.nonce < |chain| { ActiveAmongHistory(chain, token, t); }
    SameActive(chain, more, token);
  }

  lemma SameActive(chain: Chain, more: Chain, token: Token)
    ensures ActiveTxs(chain + more, token, |chain|) == ActiveTxs(chain, token, |chain|)
  {
    HistoryPrefix(chain, more, token, |chain|);
  }

  lemma SameCommitment(chain: Chain, more: Chain, t: Tx)
    requires t.nonce < |chain|
    ensures CommitmentFor(chain + more, t) == CommitmentFor(chain, t)
  {
    HistoryPrefix(chain, more, t.token, t.nonce);
  }

  lemma SameConfirmed(h: Commitment -> Hash, tree: Tree, chain: Chain, more: Chain, t: Tx)
    requires t.nonce < |chain|
    ensures Confirmed(h, tree, chain + more, t) == Confirmed(h, tree, chain, t)
  {
    SameCommitment(chain, more, t);
  }

  lemma {:induction false} SameCommitments(chain: Chain, more: Chain, txs: seq<Tx>)
    requires forall t :: t in txs ==> t.nonce < |chain|
    ensures CommitmentsFor(chain + more, txs) == CommitmentsFor(chain, txs)
  {
    hide CommitmentFor;
    if txs != [] {
      SameCommitment(chain, more, txs[0]);
      SameCommitments(chain, more, txs[1..]);
    }
  }

  lemma SameIncomplete(chain: Chain, more: Chain, txs: seq<Tx>)
    requires forall t :: t in txs ==> t.nonce < |chain|
    ensures IncompleteCommitments(chain + more, txs) == IncompleteCommitments(chain, txs)
  {
    OfTypeAmong(txs, Topup);
    OfTypeAmong(txs, Send);
    SameCommitments(chain, more, OfType(txs, Topup) + OfType(txs, Send));
  }

  lemma {:induction false} OfTypeAmong(txs: seq<Tx>, txType: TxType)
    ensures forall t :: t in OfType(txs, txType) ==> t in txs
  {
    if txs != [] { OfTypeAmong(txs[1..], txType); }
  }

  // ---------------------------------------------------------------- the start indices it hands around

  /** Hashes tell commitments apart, and none is the empty place of the tree. */
  ghost predicate CollisionFree(h: Commitment -> Hash) {
    && (forall c, d :: h(c) == h(d) ==> c == d)
    && (forall c :: h(c) != 0)
  }

  /** Topups that share the nonce of the newest send start in the chunk account in which the send starts. */
  ghost predicate LateInSendsAccount(txs: seq<Tx>) {
    var i := NewestSend(txs);
    forall j :: i < j < |txs| ==> SameAccount(LeafNode(txs[j].startIndex), LeafNode(txs[i].startIndex))
  }

  /** Topups but for the newest send; those after it share its nonce. */
  ghost predicate Laid(txs: seq<Tx>) {
    var i := NewestSend(txs);
    && AllTopups(txs[..i])
    && (i < |txs| ==> AllTopups(txs[i + 1..]))
    && (i < |txs| ==> forall t :: t in txs[i + 1..] ==> t.nonce == txs[i].nonce)
  }

  /** What the active transactions look like, when the commitment of each is found again. */
  ghost predicate Shaped(chain: Chain, txs: seq<Tx>) {
    Laid(txs) && DistinctCommitments(txs) && forall t :: t in txs ==> Proper(t) && Rebuilt(chain, t)
  }

  lemma ActiveLaid(chain: Chain, token: Token)
    requires Reachable(chain)
    ensures Laid(ActiveTxs(chain, token, |chain|))
  {
    hide Reachable, Sound, ActiveTxs, Laid;
    var n := |chain|;
    ReachableInvariant(chain);
    SoundToken(chain, token);
    SignedToken(chain, token);
    ActiveArePage(chain, token, n);
    var k := UnspentSplits(chain, token, n);
    TokenHistoryBounds(chain, Some(token), n);
    SplitShape(TokenHistory(chain, Some(token), n), Unspent(chain, token, n), Before(chain, token, k), k);
    if AllTopups(ActiveTxs(chain, token, n)) { TopupsLaid(ActiveTxs(chain, token, n)); }
  }

  lemma TopupsLaid(txs: seq<Tx>)
    requires AllTopups(txs)
    ensures Laid(txs)
  {
    assert NewestSend(txs) == |txs| && txs[..|txs|] == txs;
  }

  lemma ActiveShape(chain: Chain, token: Token)
    requires Reachable(chain) && PageRebuilt(chain, token)
    ensures Shaped(chain, ActiveTxs(chain, token, |chain|))
  {
    hide Reachable, Sound, ActiveTxs, Laid;
    ActiveLaid(chain, token);
    ReachableInvariant(chain);
    SoundToken(chain, token);
    ActiveInHistory(chain, token);
  }

  lemma SplitShape(history: seq<Tx>, unspent: seq<Tx>, rest: seq<Tx>, k: int)
    requires SplitsAt(history, unspent, rest, k) && WellSigned(history) && Descending(history)
    ensures Laid(unspent)
  {
    assert forall j :: 0 <= j < |unspent| ==> history[j] == unspent[j];
    var i := NewestSend(unspent);
    if i < |unspent| {
      AroundSend(unspent, i);
    } else {
      assert forall j :: 0 <= j < i ==> unspent[..i][j] == unspent[j];
    }
  }

  lemma MapOfConcat(s: seq<nat>, t: seq<nat>)
    ensures MapTo(s + t, AccountOf) == MapTo(s, AccountOf) + MapTo(t, AccountOf)
  {
    MapConcat(s, t, AccountOf);
  }

  lemma SameAccountsAsLists(starts: seq<nat>, own: seq<nat>)
    requires |starts| == |own| && InTheTree(starts) && InTheTree(own)
    ensures SameAccounts(starts, own) <==> MapTo(starts, AccountOf) == MapTo(own, AccountOf)
  {
    hide SameAccount, AccountOf;
    forall i | 0 <= i < |starts|
      ensures SameAccount(LeafNode(starts[i]), LeafNode(own[i])) <==> AccountOf(starts[i]) == AccountOf(own[i])
    {
      AccountsOfLeaves(starts[i], own[i]);
    }
    var s, t := MapTo(starts, AccountOf), MapTo(own, AccountOf);
    assert forall i :: 0 <= i < |starts| ==> s[i] == AccountOf(starts[i]) && t[i] == AccountOf(own[i]);
  }

  /** The commitments' own start indices, and whether those handed to them lie in the same accounts. */
  lemma {:induction false} HandedStarts(chain: Chain, txs: seq<Tx>)
    requires Shaped(chain, txs) && InTheTree(StartIndices(txs))
    ensures var r := IncompleteCommitments(chain, txs);
            && r.Ok? && |StartsOf(r.value)| == |StartIndices(txs)| == |txs| == |r.value|
            && multiset(StartsOf(r.value)) == multiset(StartIndices(txs))
            && (SameAccounts(StartIndices(txs), StartsOf(r.value)) <==> LateInSendsAccount(txs))
  {
    OwnStarts(chain, txs);
    var own := StartsOf(IncompleteCommitments(chain, txs).value);
    var i := NewestSend(txs);
    StartIndicesAt(txs);
    if i == |txs| {
      assert txs[..i] == txs;
      OfTypeUniform(txs, Topup);
      OfTypeUniform(txs, Send);
      assert own == StartIndices(txs) by { assert txs + [] == txs; }
      SameAccountsAsLists(own, own);
    } else {
      assert txs == txs[..i] + [txs[i]] + txs[i + 1..];
      HandedAroundSend(chain, txs, txs[..i], txs[i], txs[i + 1..]);
    }
  }

  lemma {:induction false} HandedAroundSend(chain: Chain, txs: seq<Tx>, above: seq<Tx>, send: Tx, late: seq<Tx>)
    requires txs == above + [send] + late && send.txType == Send && Shaped(chain, txs) && InTheTree(StartIndices(txs))
    requires NewestSend(txs) == |above| && AllTopups(above) && AllTopups(late)
    ensures var r := IncompleteCommitments(chain, txs);
            && r.Ok? && |StartsOf(r.value)| == |StartIndices(txs)| == |txs|
            && multiset(StartsOf(r.value)) == multiset(StartIndices(txs))
            && (SameAccounts(StartIndices(txs), StartsOf(r.value)) <==> LateInSendsAccount(txs))
  {
    hide Shaped, SameAccounts, LateInSendsAccount, IncompleteCommitments, AllTopups, NewestSend;
    CommitmentsInOrderOf(chain, above, send, late);
    StartsSpelledOut(above, send, late);
    StartIndicesAt(txs);
    StartIndicesAt(late);
    RotatedAccounts(StartIndices(above), StartIndices(late), send.startIndex);
    LateAsList(txs, above, send, late);
  }

  /** Moving `x` from behind `l` to before it changes no account exactly when `l` is all of the account of `x`. */
  lemma {:induction false} RotatedAccounts(a: seq<nat>, l: seq<nat>, x: nat)
    requires InTheTree(a + ([x] + l))
    ensures multiset(a + (l + [x])) == multiset(a + ([x] + l))
    ensures SameAccounts(a + ([x] + l), a + (l + [x])) <==> forall j :: 0 <= j < |l| ==> AccountOf(l[j]) == AccountOf(x)
  {
    hide AccountOf, SameAccount;
    var starts, own := a + ([x] + l), a + (l + [x]);
    assert multiset(own) == multiset(starts);
    forall i | 0 <= i < |own| ensures own[i] < 1_048_576 {
      assert own[i] in multiset(starts);
    }
    SameAccountsAsLists(starts, own);
    var b, y := MapTo(l, AccountOf), AccountOf(x);
    MapOfConcat(a, l + [x]);
    MapOfConcat(l, [x]);
    MapOfConcat(a, [x] + l);
    MapOfConcat([x], l);
    assert MapTo([x], AccountOf) == [y];
    PrefixedEqual(MapTo(a, AccountOf), b + [y], [y] + b);
    RotatedIsConstant(b, y);
    assert forall j :: 0 <= j < |l| ==> b[j] == AccountOf(l[j]);
  }

  lemma CommitmentsInOrderOf(chain: Chain, above: seq<Tx>, send: Tx, late: seq<Tx>)
    requires Shaped(chain, above + [send] + late) && send.txType == Send
    requires AllTopups(above) && AllTopups(late)
    ensures var r := IncompleteCommitments(chain, above + [send] + late);
            r.Ok? && StartsOf(r.value) == StartIndices(above + late + [send])
  {
    CommitmentsInOrder(chain, above, send, late);
  }

  lemma {:induction false} LateAsList(txs: seq<Tx>, above: seq<Tx>, send: Tx, late: seq<Tx>)
    requires txs == above + [send] + late && NewestSend(txs) == |above| && InTheTree(StartIndices(txs))
    requires |StartIndices(late)| == |late|
    ensures LateInSendsAccount(txs)
            <==> forall j :: 0 <= j < |late| ==> AccountOf(StartIndices(late)[j]) == AccountOf(send.startIndex)
  {
    hide SameAccount, AccountOf, NewestSend;
    var i := |above|;
    StartIndicesAt(txs);
    StartIndicesAt(late);
    forall k | i < k < |txs|
      ensures txs[k] == late[k - i - 1]
      ensures SameAccount(LeafNode(txs[k].startIndex), LeafNode(txs[i].startIndex))
              <==> AccountOf(StartIndices(late)[k - i - 1]) == AccountOf(send.startIndex)
    {
      assert StartIndices(txs)[k] == late[k - i - 1].startIndex && StartIndices(txs)[i] == send.startIndex;
      AccountsOfLeaves(late[k - i - 1].startIndex, send.startIndex);
    }
    forall j | 0 <= j < |late| ensures late[j] == txs[i + 1 + j] {}
  }

  // ---------------------------------------------------------------- when activation succeeds

  /** The tree holds the active commitments of the token, each at or behind its own start index. */
  ghost predicate HoldsActive(p: Openings.Poseidon, h: Commitment -> Hash, tree: Tree, chain: Chain, token: Token) {
    var cs := ActiveCommitments(chain, token);
    && Storage.WellSized(tree)
    && (cs.Ok? ==> |StartsOf(cs.value)| == |cs.value| && TreeHolds(p, tree, MapTo(cs.value, h), StartsOf(cs.value)))
  }

  /** There is room behind the start indices, as there is when they are positions of the tree's last leaf. */
  ghost predicate Roomy(txs: seq<Tx>) { forall t :: t in txs ==> t.startIndex + |txs| <= 1_048_576 }

  /** The scan can skip nothing with the start indices of the active commitments. */
  ghost predicate ActiveScan(h: Commitment -> Hash, chain: Chain, token: Token) {
    var cs := ActiveCommitments(chain, token);
    cs.Ok? && |StartsOf(cs.value)| == |cs.value| ==> StartsScan(Want(MapTo(cs.value, h), StartsOf(cs.value)))
  }

  lemma {:induction false} StartsOfAt(cs: seq<Commitment>)
    ensures |StartsOf(cs)| == |cs| && forall i :: 0 <= i < |cs| ==> StartsOf(cs)[i] == cs[i].startIndex
  {
    if cs != [] { StartsOfAt(cs[1..]); }
  }

  lemma CommitmentIn(chain: Chain, txs: seq<Tx>, t: Tx)
    requires Shaped(chain, txs) && t in txs
    ensures IncompleteCommitments(chain, txs).Ok? && t.commitment in IncompleteCommitments(chain, txs).value
    ensures CommitmentFor(chain, t) == Ok(t.commitment) && t.commitment.startIndex == t.startIndex
  {
    IncompleteOfRebuilt(chain, txs);
    CommitmentAmong(txs, t);
    assert t.commitment in multiset(IncompleteCommitments(chain, txs).value);
  }

  lemma {:induction false} CommitmentAmong(txs: seq<Tx>, t: Tx)
    requires t in txs
    ensures t.commitment in CommitmentsIn(txs)
  {
    if t != txs[0] { CommitmentAmong(txs[1..], t); }
  }

  /** A commitment that lies at or behind its start is confirmed. */
  lemma {:induction false} LiesIsConfirmed(h: Commitment -> Hash, tree: Tree, chain: Chain, t: Tx)
    requires Storage.WellSized(tree) && Search.SpareEmpty(Storage.Flat(tree))
    requires CommitmentFor(chain, t) == Ok(t.commitment) && Lies(Storage.Flat(tree), h(t.commitment), t.startIndex)
    ensures Confirmed(h, tree, chain, t) == Ok(true)
  {
    hide CommitmentFor, Search.HasCommitment, Storage.WellSized, Storage.Covers, Search.SpareEmpty;
    TreeSize();
    Storage.FlatCovers(tree);
    Search.HasCommitmentExactly(tree, Storage.Flat(tree), h(t.commitment), t.startIndex);
    LeafPosition(t.startIndex);
    LiesIsFound(Storage.Flat(tree), h(t.commitment), t.startIndex);
  }

  lemma HeldLies(p: Openings.Poseidon, h: Commitment -> Hash, tree: Tree, cs: seq<Commitment>, c: Commitment)
    requires |StartsOf(cs)| == |cs| && TreeHolds(p, tree, MapTo(cs, h), StartsOf(cs)) && c in cs
    ensures Search.SpareEmpty(Storage.Flat(tree)) && Lies(Storage.Flat(tree), h(c), c.startIndex)
  {
    hide Lies, Search.SpareEmpty;
    StartsOfAt(cs);
    var i :| 0 <= i < |cs| && cs[i] == c;
    assert MapTo(cs, h)[i] == h(c);
  }

  /** On a tree that holds the commitments all that is left is the lookup with the start indices handed around. */
  lemma {:induction false} HeldIsConfirmed(p: Openings.Poseidon, h: Commitment -> Hash, tree: Tree, chain: Chain,
        token: Token)
    requires Reachable(chain) && PageRebuilt(chain, token) && HoldsActive(p, h, tree, chain, token)
    ensures var txs := ActiveTxs(chain, token, |chain|);
            && ActiveCommitments(chain, token).Ok?
            && |ActiveCommitments(chain, token).value| == |txs| == |StartIndices(txs)|
            && Activation(h, tree, chain, token, |chain|)
               == if txs == [] then Ok([])
                  else Activated(h, tree, ActiveCommitments(chain, token).value, StartIndices(txs))
  {
    hide Reachable, TreeHolds, Confirmed, Proper, Rebuilt, Laid, Storage.WellSized, ActiveTxs, PageRebuilt;
    var txs := ActiveTxs(chain, token, |chain|);
    ActiveShape(chain, token);
    OwnStarts(chain, txs);
    StartIndicesAt(txs);
    if txs != [] {
      var cs := ActiveCommitments(chain, token).value;
      StartsOfAt(cs);
      CommitmentIn(chain, txs, txs[0]);
      HeldLies(p, h, tree, cs, txs[0].commitment);
      LiesIsConfirmed(h, tree, chain, txs[0]);
    }
  }

  lemma HashesProper(h: Commitment -> Hash, cs: seq<Commitment>)
    requires CollisionFree(h) && forall i, j :: 0 <= i < j < |cs| ==> cs[i] != cs[j]
    ensures ProperHashes(MapTo(cs, h))
  {
    var hashes := MapTo(cs, h);
    assert forall i :: 0 <= i < |cs| ==> hashes[i] == h(cs[i]);
  }

  /** What the theorems on the tree need to know of the active commitments. */
  lemma {:induction false} ActiveStarts(h: Commitment -> Hash, chain: Chain, token: Token)
    returns (txs: seq<Tx>, cs: seq<Commitment>, own: seq<nat>, starts: seq<nat>)
    requires Reachable(chain) && CollisionFree(h) && PageRebuilt(chain, token)
    requires Roomy(ActiveTxs(chain, token, |chain|))
    ensures txs == ActiveTxs(chain, token, |chain|) && ActiveCommitments(chain, token) == Ok(cs)
    ensures own == StartsOf(cs) && starts == StartIndices(txs) && |own| == |starts| == |cs| == |txs|
    ensures ProperHashes(MapTo(cs, h)) && multiset(starts) == multiset(own)
    ensures forall j :: 0 <= j < |own| ==> own[j] + |own| <= 1_048_576
    ensures SameAccounts(starts, own) <==> LateInSendsAccount(txs)
  {
    hide Reachable, ProperHashes, CollisionFree, SameAccounts, LateInSendsAccount, Shaped, ActiveTxs, PageRebuilt;
    txs := ActiveTxs(chain, token, |chain|);
    starts := StartIndices(txs);
    ActiveShape(chain, token);
    StartIndicesAt(txs);
    StartsInTree(txs);
    HandedStarts(chain, txs);
    cs := ActiveCommitments(chain, token).value;
    own := StartsOf(cs);
    ShapedDistinct(chain, txs);
    HashesProper(h, cs);
    forall j | 0 <= j < |own| ensures own[j] + |own| <= 1_048_576 {
      assert own[j] in multiset(starts);
      var i :| 0 <= i < |starts| && starts[i] == own[j];
      assert txs[i] in txs;
    }
  }

  lemma StartsInTree(txs: seq<Tx>)
    requires Roomy(txs)
    ensures InTheTree(StartIndices(txs))
  {
    StartIndicesAt(txs);
    assert forall i :: 0 <= i < |txs| ==> txs[i] in txs;
  }

  lemma ShapedDistinct(chain: Chain, txs: seq<Tx>)
    requires Shaped(chain, txs)
    ensures IncompleteCommitments(chain, txs).Ok?
    ensures var cs := IncompleteCommitments(chain, txs).value; forall i, j :: 0 <= i < j < |cs| ==> cs[i] != cs[j]
  {
    OwnStarts(chain, txs);
  }

  /** On every tree that holds the active commitments of the token, `getActiveCommitments` gives them. */
  ghost predicate ActivatesOnEvery(p: Openings.Poseidon, h: Commitment -> Hash, chain: Chain, token: Token) {
    forall tree | HoldsActive(p, h, tree, chain, token) ::
      Activation(h, tree, chain, token, |chain|) == ActiveCommitments(chain, token)
  }

  /**
   On a reachable chain `getActiveCommitments` gives the active commitments on every tree that holds them if and only if
   the topups under the nonce of the newest send start in the send's chunk account and the scan can skip nothing in any
   account.
   */
  lemma {:induction false} ActivationExactly(p: Openings.Poseidon, h: Commitment -> Hash, chain: Chain, token: Token)
    requires Reachable(chain) && CollisionFree(h) && Storable(p) && PageRebuilt(chain, token)
    requires Roomy(ActiveTxs(chain, token, |chain|))
    ensures ActivatesOnEvery(p, h, chain, token)
            <==> LateInSendsAccount(ActiveTxs(chain, token, |chain|)) && ActiveScan(h, chain, token)
  {
    hide Reachable, CollisionFree, Roomy, ActiveTxs, ActiveCommitments, TreeHolds, ProperHashes, Activation,
      SameAccounts, LateInSendsAccount, StartsScan, Openings.InfoLeaves, Storage.WellSized, PageRebuilt, Storable,
      FoundOnEvery;
    var txs, cs, own, starts := ActiveStarts(h, chain, token);
    var hashes := MapTo(cs, h);
    FoundOnEveryExactly(p, hashes, own, starts);
    if txs == [] {
      NoneLate();
      NoneActive(p, h, chain, token);
    } else {
      ActivatesIfFound(p, h, chain, token, hashes, own, starts);
    }
  }

  lemma NoneActive(p: Openings.Poseidon, h: Commitment -> Hash, chain: Chain, token: Token)
    requires ActiveTxs(chain, token, |chain|) == [] && ActiveCommitments(chain, token) == Ok([])
    ensures ActivatesOnEvery(p, h, chain, token) && ActiveScan(h, chain, token)
  {
    assert Want(MapTo([], h), StartsOf([])) == [];
  }

  /** On every tree that holds them the commitments are activated if and only if the lookup finds them. */
  lemma {:induction false} ActivatesIfFound(p: Openings.Poseidon, h: Commitment -> Hash, chain: Chain, token: Token,
        hashes: seq<Hash>, own: seq<nat>, starts: seq<nat>)
    requires Reachable(chain) && PageRebuilt(chain, token) && ActiveTxs(chain, token, |chain|) != []
    requires var cs := ActiveCommitments(chain, token);
             && cs.Ok? && hashes == MapTo(cs.value, h) && own == StartsOf(cs.value)
             && starts == StartIndices(ActiveTxs(chain, token, |chain|)) && |hashes| == |own| == |starts|
    ensures ActivatesOnEvery(p, h, chain, token) <==> FoundOnEvery(p, hashes, own, starts)
  {
    hide Reachable, ActiveTxs, ActiveCommitments, TreeHolds, Activation, Openings.InfoLeaves, Storage.WellSized,
      PageRebuilt, StartsOf, StartIndices;
    forall tree | HoldsActive(p, h, tree, chain, token)
      ensures Activation(h, tree, chain, token, |chain|) == ActiveCommitments(chain, token)
              <==> Openings.InfoLeaves(tree, Want(hashes, starts)).Ok?
    {
      HeldIsConfirmed(p, h, tree, chain, token);
    }
    forall tree | TreeHolds(p, tree, hashes, own) ensures HoldsActive(p, h, tree, chain, token) {
      HeldIsSized(p, tree, hashes, own);
    }
  }

  lemma HeldIsSized(p: Openings.Poseidon, tree: Tree, hashes: seq<Hash>, own: seq<nat>)
    requires |hashes| == |own| && TreeHolds(p, tree, hashes, own)
    ensures Storage.WellSized(tree)
  {
  }

  lemma NoneLate()
    ensures LateInSendsAccount([])
  {
  }

  /** When every unspent output has a nonce of its own there are no late topups. */
  lemma OneEachNoneLate(chain: Chain, token: Token)
    requires Reachable(chain) && OneEach(chain, token)
    ensures LateInSendsAccount(ActiveTxs(chain, token, |chain|))
  {
    hide Reachable, Unspent, SameAccount, ActiveTxs;
    ActiveLaid(chain, token);
    PageIsOverfull(chain, token);
    var txs, unspent := ActiveTxs(chain, token, |chain|), Unspent(chain, token, |chain|);
    assert forall i :: 0 <= i < |txs| ==> txs[i] == unspent[i];
    var i := NewestSend(txs);
    if i < |txs| { TailElements(txs, i + 1); }
  }

  lemma TailElements(txs: seq<Tx>, m: nat)
    requires m <= |txs|
    ensures forall j :: m <= j < |txs| ==> txs[j] in txs[m..]
  {
    assert forall j :: m <= j < |txs| ==> txs[m..][j - m] == txs[j];
  }

  // ---------------------------------------------------------------- what is not in the tree yet

  /** Some leaf from the start on holds the hash. */
  ghost predicate OnLeaves(tree: Tree, hash: Hash, start: nat)
    requires Storage.WellSized(tree)
  {
    var flat := Storage.Flat(tree);
    hash != 0 && exists g :: 1_048_575 + start <= g < 2_097_151 && g < |flat| && flat[g] == hash
  }

  /** From the start on the tree has no holes. */
  ghost predicate NoHolesFrom(tree: Tree, start: nat)
    requires Storage.WellSized(tree)
  {
    Search.SpareEmpty(Storage.Flat(tree)) && Populated(Storage.Flat(tree), 1_048_575 + start)
  }

  /**
   On a tree without holes from its start on, a transaction is confirmed if and only if some leaf from there on holds
   its commitment; a start that is no leaf is an error, and so is a commitment that is not found again.
   */
  lemma {:induction false} ConfirmedExactly(h: Commitment -> Hash, tree: Tree, chain: Chain, t: Tx)
    requires Storage.WellSized(tree) && NoHolesFrom(tree, t.startIndex)
    ensures Confirmed(h, tree, chain, t)
            == match CommitmentFor(chain, t)
               case Err(e) => Err(e)
               case Ok(c) =>
                 if t.startIndex >= 1_048_576 then Err(OutOfBounds) else Ok(OnLeaves(tree, h(c), t.startIndex))
  {
    hide CommitmentFor, Search.HasCommitment, Storage.WellSized, Storage.Covers, Storage.Flat, Populated,
      Search.SpareEmpty;
    var c := CommitmentFor(chain, t);
    if c.Ok? {
      TreeSize();
      Storage.FlatCovers(tree);
      if t.startIndex < 1_048_576 {
        Search.HasCommitmentOnFilledTree(tree, Storage.Flat(tree), h(c.value), t.startIndex);
        LeafByPlace(Storage.Flat(tree), h(c.value), t.startIndex);
      } else {
        Search.HasCommitmentExactly(tree, Storage.Flat(tree), h(c.value), t.startIndex);
      }
    }
  }

  lemma LeafByPlace(flat: seq<Hash>, hash: Hash, start: nat)
    requires |flat| > 2_097_151
    ensures (exists i :: start <= i < 1_048_576 && Search.Leaf(flat, i) == hash)
            <==> exists g :: 1_048_575 + start <= g < 2_097_151 && g < |flat| && flat[g] == hash
  {
    if i :| start <= i < 1_048_576 && Search.Leaf(flat, i) == hash {
      assert flat[1_048_575 + i] == hash;
    }
    if g :| 1_048_575 + start <= g < 2_097_151 && g < |flat| && flat[g] == hash {
      assert Search.Leaf(flat, g - 1_048_575) == hash;
    }
  }

  /**
   So the nonce of the newest transaction is given if and only if the tree holds its commitment; while it does not, it
   is refused, and nothing can be topped up, of whatever token.
   */
  lemma {:induction false} RecentNonceExactly(h: Commitment -> Hash, tree: Tree, chain: Chain, end: nat, t: Tx,
        c: Commitment)
    requires Storage.WellSized(tree) && end <= |chain| && Newest(chain, end) == Some(t)
    requires CommitmentFor(chain, t) == Ok(c) && t.startIndex < 1_048_576 && NoHolesFrom(tree, t.startIndex)
    ensures RecentNonce(h, tree, chain, end)
            == if OnLeaves(tree, h(c), t.startIndex) then Ok(t.nonce) else Err(NotConfirmed)
    ensures !OnLeaves(tree, h(c), t.startIndex) ==>
              forall activeEnd: nat, q: Request, fee, sig :: activeEnd <= |chain| ==>
                TopUpOnTree(h, tree, chain, activeEnd, end, q, fee, sig).Err?
  {
    hide CommitmentFor, Confirmed, Storage.WellSized, NoHolesFrom, OnLeaves, Activation, Newest;
    ConfirmedExactly(h, tree, chain, t);
  }

  /** Without any transaction the nonce is -1, and what keeps the newest one from being looked up is passed on. */
  lemma {:induction false} RecentNonceOtherwise(h: Commitment -> Hash, tree: Tree, chain: Chain, end: nat)
    requires Storage.WellSized(tree) && end <= |chain|
    ensures end == 0 ==> RecentNonce(h, tree, chain, end) == Ok(-1)
    ensures Newest(chain, end).Some? && Confirmed(h, tree, chain, Newest(chain, end).value).Err? ==>
              var e := Confirmed(h, tree, chain, Newest(chain, end).value).error;
              RecentNonce(h, tree, chain, end) == Err(e)
  {
    hide Confirmed;
  }

  /** And while the tree does not hold the newest active commitment of the token, its activation is refused. */
  lemma {:induction false} ActivationWaits(h: Commitment -> Hash, tree: Tree, chain: Chain, token: Token, end: nat,
        c: Commitment)
    requires Storage.WellSized(tree) && end <= |chain| && ActiveTxs(chain, token, end) != []
    requires var t := ActiveTxs(chain, token, end)[0];
             && CommitmentFor(chain, t) == Ok(c) && t.startIndex < 1_048_576 && NoHolesFrom(tree, t.startIndex)
             && !OnLeaves(tree, h(c), t.startIndex)
    ensures Activation(h, tree, chain, token, end) == Err(NotConfirmed)
  {
    hide CommitmentFor, Confirmed, Storage.WellSized, NoHolesFrom, OnLeaves, ActiveTxs;
    ConfirmedExactly(h, tree, chain, ActiveTxs(chain, token, end)[0]);
  }

  /**
   Without active transactions there is nothing to activate; and once the newest one is looked up, the first thing that
   goes wrong is what is reported: its own lookup, that it is not there, or a commitment that is not found again.
   */
  lemma ActivationOtherwise(h: Commitment -> Hash, tree: Tree, chain: Chain, token: Token, end: nat)
    requires Storage.WellSized(tree) && end <= |chain|
    ensures var txs, r := ActiveTxs(chain, token, end), Activation(h, tree, chain, token, end);
            if txs == [] then r == Ok([])
            else
              var confirmed, cs := Confirmed(h, tree, chain, txs[0]), IncompleteCommitments(chain, txs);
              && (confirmed.Err? ==> r == Err(confirmed.error))
              && (confirmed == Ok(false) ==> r == Err(NotConfirmed))
              && (confirmed == Ok(true) && cs.Err? ==> r == Err(cs.error))
              && (r.Ok? ==> confirmed == Ok(true) && r == cs && |cs.value| == |txs|)
  {
    hide Confirmed, ActiveTxs, IncompleteCommitments;
    StartIndicesAt(ActiveTxs(chain, token, end));
  }

  // ---------------------------------------------------------------- topping up on a tree

  /** The newest transaction, of whatever token, is in the tree too, and its commitment is found again. */
  ghost predicate HoldsNewest(h: Commitment -> Hash, tree: Tree, chain: Chain)
    requires Storage.WellSized(tree)
  {
    && Search.SpareEmpty(Storage.Flat(tree))
    && match Newest(chain, |chain|)
       case None => true
       case Some(t) => Rebuilt(chain, t) && Lies(Storage.Flat(tree), h(t.commitment), t.startIndex)
  }

  lemma {:induction false} NewestIsConfirmed(h: Commitment -> Hash, tree: Tree, chain: Chain)
    requires Reachable(chain) && Storage.WellSized(tree) && HoldsNewest(h, tree, chain)
    ensures RecentNonce(h, tree, chain, |chain|) == Ok(LastNonce(chain))
  {
    hide Reachable, CommitmentFor, Lies, Search.SpareEmpty, Storage.WellSized, Confirmed;
    var newest := Newest(chain, |chain|);
    if newest.Some? {
      LiesIsConfirmed(h, tree, chain, newest.value);
    }
  }

  /**
   On a tree that holds the active commitments and the newest one, `buildTopUpTx` succeeds if and only if the
   commitments are found again and activated and are at most SEND_ARITY. Then it builds what the page calls for, and of
   a token in order what `TopUpStep` says.
   */
  lemma {:induction false} TopUpOnTreeExactly(p: Openings.Poseidon, h: Commitment -> Hash, tree: Tree, chain: Chain,
        q: Request, mergeFee: nat, mergeSig: nat)
    requires Reachable(chain) && |chain| + 2 <= MAX_UINT32
    requires FreshSig(chain, q.sig) && FreshSig(chain, mergeSig) && q.sig != mergeSig
    requires HoldsActive(p, h, tree, chain, q.token) && HoldsNewest(h, tree, chain)
    ensures var r, active := TopUpNow(h, tree, chain, q, mergeFee, mergeSig), ActiveTxs(chain, q.token, |chain|);
            && (r.Ok? <==>
                && PageRebuilt(chain, q.token) && |active| <= SEND_ARITY
                && Activation(h, tree, chain, q.token, |chain|) == ActiveCommitments(chain, q.token))
            && (r.Ok? ==> r.value == TopUpOfPage(|chain|, active, q, mergeFee, mergeSig))
            && (r.Ok? && TokenOk(chain, q.token) ==>
                && ToppedUp(chain, After(chain, r.value), q.token, r.value.merge.Some?, r.value.balance)
                && SigsOnlyFrom(chain, After(chain, r.value), q.sig, mergeSig))
  {
    hide Reachable, Activated, TreeHolds, HoldsNewest, Storage.WellSized, RecentNonce, TopUpFrom, LastNonce, Unspent,
      StartIndices, After, ActiveTxs, PageRebuilt, TokenOk, TopUpOfPage, ActiveCommitments, Activation, ToppedUp,
      SigsOnlyFrom;
    PageDecides(chain, q, mergeFee, mergeSig);
    NewestIsConfirmed(h, tree, chain);
    if PageRebuilt(chain, q.token) {
      ActivationOfPage(p, h, tree, chain, q.token);
      if TokenOk(chain, q.token) { TopUpStep(chain, q, mergeFee, mergeSig); }
    } else {
      NoActivation(h, tree, chain, q.token);
    }
  }

  lemma {:induction false} ActivationOfPage(p: Openings.Poseidon, h: Commitment -> Hash, tree: Tree, chain: Chain,
        token: Token)
    requires Reachable(chain) && PageRebuilt(chain, token) && HoldsActive(p, h, tree, chain, token)
    ensures ActiveCommitments(chain, token).Ok?
    ensures var r := Activation(h, tree, chain, token, |chain|); r.Ok? ==> r == ActiveCommitments(chain, token)
  {
    hide Reachable, Activated, Storage.WellSized, ActiveTxs, ActiveCommitments, TreeHolds, PageRebuilt, Activation;
    HeldIsConfirmed(p, h, tree, chain, token);
    ActivatedAll(h, tree, ActiveCommitments(chain, token).value, StartIndices(ActiveTxs(chain, token, |chain|)));
  }

  lemma NoActivation(h: Commitment -> Hash, tree: Tree, chain: Chain, token: Token)
    requires Reachable(chain) && Storage.WellSized(tree) && !PageRebuilt(chain, token)
    ensures Activation(h, tree, chain, token, |chain|).Err?
  {
    hide Reachable, Sound, ActiveTxs, Rebuilt, Activated, Confirmed;
    ReachableInvariant(chain);
    SoundToken(chain, token);
    ActiveCommitmentsExactly(chain, token);
  }

  lemma ActivatedAll(h: Commitment -> Hash, tree: Tree, cs: seq<Commitment>, starts: seq<nat>)
    requires Storage.WellSized(tree)
    ensures Activated(h, tree, cs, starts).Ok? ==> Activated(h, tree, cs, starts) == Ok(cs)
  {
  }

  /** What a topup may count on when nothing crosses: the tree is kept up, and the scan can skip nothing. */
  ghost predicate Serves(p: Openings.Poseidon, h: Commitment -> Hash, tree: Tree, chain: Chain, token: Token) {
    && HoldsActive(p, h, tree, chain, token) && HoldsNewest(h, tree, chain)
    && Roomy(ActiveTxs(chain, token, |chain|)) && ActiveScan(h, chain, token)
  }

  /** So topping up succeeds on every such tree when no late topup starts in another account. */
  lemma {:induction false} TopUpSucceeds(p: Openings.Poseidon, h: Commitment -> Hash, tree: Tree, chain: Chain,
        q: Request, mergeFee: nat, mergeSig: nat)
    requires Reachable(chain) && TokenOk(chain, q.token) && |chain| + 2 <= MAX_UINT32
    requires CollisionFree(h) && Storable(p)
    requires FreshSig(chain, q.sig) && FreshSig(chain, mergeSig) && q.sig != mergeSig
    requires Serves(p, h, tree, chain, q.token) && LateInSendsAccount(ActiveTxs(chain, q.token, |chain|))
    ensures var r := TopUpNow(h, tree, chain, q, mergeFee, mergeSig);
            && r.Ok? && ToppedUp(chain, After(chain, r.value), q.token, r.value.merge.Some?, r.value.balance)
            && SigsOnlyFrom(chain, After(chain, r.value), q.sig, mergeSig)
  {
    hide Reachable, CollisionFree, Roomy, ActiveScan, HoldsNewest, LateInSendsAccount, Unspent, ActiveCommitments,
      TreeHolds, Activation, TopUpNow, ToppedUp, SigsOnlyFrom, TokenOk, ActiveTxs, PageRebuilt;
    OkPage(chain, q.token);
    ActivationExactly(p, h, chain, q.token);
    TopUpOnTreeExactly(p, h, tree, chain, q, mergeFee, mergeSig);
  }

  /** The page of a token in order: its unspent outputs, at most SEND_ARITY, each found again. */
  lemma OkPage(chain: Chain, token: Token)
    requires Reachable(chain) && TokenOk(chain, token)
    ensures PageRebuilt(chain, token) && ActiveTxs(chain, token, |chain|) == Unspent(chain, token, |chain|)
    ensures |ActiveTxs(chain, token, |chain|)| <= SEND_ARITY
  {
    hide Reachable, Sound, ActiveTxs, Rebuilt, Records;
    ReachableInvariant(chain);
    ActiveCommitmentsAreUnspent(chain, token);
    ActiveCommitmentsExactly(chain, token);
  }

  /**
   It can fail: a topup and a send built at once from one chain, with start indices in different chunk accounts, leave
   a reachable chain on which no topup of the token can be built, although the tree holds both commitments as it should.
   */
  lemma {:induction false} CrossingStopsTopUps(p: Openings.Poseidon, h: Commitment -> Hash, chain: Chain, q: Request,
        other: Request, mergeFee: nat, mergeSig: nat)
    returns (tree: Tree)
    requires Reachable(chain) && TokenOk(chain, q.token) && |chain| < MAX_UINT32
    requires 0 < |Unspent(chain, q.token, |chain|)| < SEND_ARITY
    requires FreshSig(chain, q.sig) && FreshSig(chain, mergeSig) && q.sig != mergeSig
    requires CollisionFree(h) && Storable(p)
    requires other.token == q.token && q.startIndex + 2 <= 1_048_576 && other.startIndex + 2 <= 1_048_576
    requires AccountOf(q.startIndex) != AccountOf(other.startIndex)
    ensures var next := chain + [[TopupTx(|chain|, q), MergeTx(chain, other, mergeFee, mergeSig)]];
            && Reachable(next) && HoldsActive(p, h, tree, next, q.token)
            && Activation(h, tree, next, q.token, |next|).Err?
            && forall again: Request, fee, sig, end: nat :: again.token == q.token && end <= |next| ==>
                 TopUpOnTree(h, tree, next, |next|, end, again, fee, sig).Err?
  {
    hide Reachable, CollisionFree, TreeHolds, ProperHashes, SameAccounts, LateInSendsAccount, ActiveTxs, Activation,
      Openings.InfoLeaves, Storage.WellSized, ActiveCommitments, AccountOf, TokenOk, PageRebuilt;
    var t, m := TopupTx(|chain|, q), MergeTx(chain, other, mergeFee, mergeSig);
    var next := chain + [[t, m]];
    MisalignmentIsReachable(chain, q, other, mergeFee, mergeSig);
    OkPage(next, q.token);
    var txs, cs, own, starts := ActiveStarts(h, next, q.token);
    LateElsewhere(m, t);
    tree := SomeTreeDefeatsIt(p, MapTo(cs, h), own, starts);
    assert HoldsActive(p, h, tree, next, q.token);
    HeldIsConfirmed(p, h, tree, next, q.token);
  }

  lemma {:induction false} LateElsewhere(m: Tx, t: Tx)
    requires m.txType == Send && m.startIndex < 1_048_576 && t.startIndex < 1_048_576
    requires AccountOf(t.startIndex) != AccountOf(m.startIndex)
    ensures !LateInSendsAccount([m, t])
  {
    hide AccountOf, SameAccount;
    AccountsOfLeaves(t.startIndex, m.startIndex);
    assert [m, t][0] == m && [m, t][1] == t && NewestSend([m, t]) == 0;
  }
}
