/**
 Estimating the fees of consecutive topups (`estimateTopupFeesBatch` of src/public/elusiv.ts:391-424 and `addFees` of
 src/public/Fee.ts:91-110), against actually sending the topups one after the other.
 */
module TopupEstimate {
  import opened Common
  import opened Ledger
  import opened CommitmentMachine
  import opened Topups
  import opened Overfull
  import opened Activation
  import opened FullTree

  // ---------------------------------------------------------------- the estimate

  /** A fee in units of a token; the rate is how many lamports one unit is. */
  datatype TokenFee = TokenFee(token: Token, rate: Option<real>, txFee: real, privacyFee: real, rent: real,
        extraFee: real)

  /** `addFees`; a rate that is undefined or 0 is taken from the other fee. */
  function AddFees(f1: TokenFee, f2: TokenFee): Result<TokenFee> {
    if f1.token != f2.token then Err(InvalidTokenType)
    else if f1.rate.Some? && f2.rate.Some? && f1.rate != f2.rate then Err(InvalidRate)
    else Ok(TokenFee(f1.token, if f1.rate.Some? && f1.rate.value != 0.0 then f1.rate else f2.rate,
                     f1.txFee + f2.txFee, f1.privacyFee + f2.privacyFee, f1.rent + f2.rent, f1.extraFee + f2.extraFee))
  }

  /** What is asked about one topup: its token, and what the fee calculator says of it and of a send of it. */
  datatype FeeInfo = FeeInfo(token: Token, topupFee: TokenFee, sendFee: TokenFee)

  function InfoTokens(infos: seq<FeeInfo>): seq<Token> {
    seq(|infos|, i requires 0 <= i < |infos| => infos[i].token)
  }

  /** The count the estimate keeps for a token after these topups. */
  function Counted(tokens: seq<Token>, token: Token): nat {
    if tokens == [] then 0
    else
      var before := Counted(tokens[..|tokens| - 1], token);
      if tokens[|tokens| - 1] != token then before
      else if before == SEND_ARITY then 2 else before + 1
  }

  /** Topup number `i` is estimated to need a merge. */
  ghost predicate MergeAt(tokens: seq<Token>, i: nat)
    requires i < |tokens|
  {
    Counted(tokens[..i], tokens[i]) == SEND_ARITY
  }

  lemma CountedSnoc(tokens: seq<Token>, i: nat)
    requires i < |tokens|
    ensures forall t :: Counted(tokens[..i + 1], t)
              == if tokens[i] != t then Counted(tokens[..i], t)
                 else if Counted(tokens[..i], t) == SEND_ARITY then 2 else Counted(tokens[..i], t) + 1
  {
    assert tokens[..i + 1][..i] == tokens[..i];
  }

  /** The estimate of one topup: with the fee of a merge added, or alone. */
  function Estimate(info: FeeInfo, merge: bool): Result<TokenFee> {
    if merge then AddFees(info.sendFee, info.topupFee) else Ok(info.topupFee)
  }

  /** The fees of a topup and of a send cannot be added. */
  ghost predicate Clashes(info: FeeInfo) {
    || info.topupFee.token != info.sendFee.token
    || (info.topupFee.rate.Some? && info.sendFee.rate.Some? && info.topupFee.rate != info.sendFee.rate)
  }

  /**
   What one topup is priced at: each part is that of the topup and, where it merges, that of the send besides. The rate
   is the topup's, unless a merge brings one that is not 0.
   */
  ghost predicate Priced(info: FeeInfo, merge: bool, fee: TokenFee) {
    && fee.token == info.topupFee.token
    && fee.txFee == info.topupFee.txFee + (if merge then info.sendFee.txFee else 0.0)
    && fee.privacyFee == info.topupFee.privacyFee + (if merge then info.sendFee.privacyFee else 0.0)
    && fee.rent == info.topupFee.rent + (if merge then info.sendFee.rent else 0.0)
    && fee.extraFee == info.topupFee.extraFee + (if merge then info.sendFee.extraFee else 0.0)
    && fee.rate == if merge && info.sendFee.rate.Some? && info.sendFee.rate.value != 0.0 then info.sendFee.rate
                   else info.topupFee.rate
  }

  /** The estimate of one topup fails exactly for a merge whose fee cannot be added, and gives what it is priced at. */
  lemma EstimateExactly(info: FeeInfo, merge: bool)
    ensures var r := Estimate(info, merge);
            && (r.Ok? <==> !(merge && Clashes(info)))
            && (r.Ok? ==> Priced(info, merge, r.value))
            && (r.Err? ==> r.error == (if info.topupFee.token != info.sendFee.token then InvalidTokenType
                                       else InvalidRate))
  {
  }

  /** A merge is counted at this topup, and its fee cannot be added. */
  ghost predicate ClashesAt(infos: seq<FeeInfo>, i: nat)
    requires i < |infos|
  {
    MergeAt(InfoTokens(infos), i) && Clashes(infos[i])
  }

  /** The first such topup, and the error that adding gives there. */
  ghost predicate FailsFirstAt(infos: seq<FeeInfo>, i: nat, error: Error) {
    && i < |infos| && ClashesAt(infos, i) && (forall j :: 0 <= j < i ==> !ClashesAt(infos, j))
    && error == if infos[i].topupFee.token != infos[i].sendFee.token then InvalidTokenType else InvalidRate
  }

  /**
   `estimateTopupFeesBatch`: the price of each topup, with that of a merge where the count calls for one. It fails if
   and only if somewhere these cannot be added, with the error of the first such place.
   */
  method EstimateTopupFeesBatch(infos: seq<FeeInfo>) returns (r: Result<seq<TokenFee>>)
    ensures r.Ok? <==> forall i :: 0 <= i < |infos| ==> !ClashesAt(infos, i)
    ensures r.Ok? ==> |r.value| == |infos| && forall i :: 0 <= i < |infos| ==>
              Priced(infos[i], MergeAt(InfoTokens(infos), i), r.value[i])
    ensures r.Err? ==> exists i :: FailsFirstAt(infos, i, r.error)
  {
    ghost var tokens := InfoTokens(infos);
    var tokenTxCountMap: map<Token, nat> := map[];
    var res: seq<TokenFee> := [];
    for i := 0 to |infos|
      invariant |res| == i
      invariant forall t :: (if t in tokenTxCountMap then tokenTxCountMap[t] else 0) == Counted(tokens[..i], t)
      invariant forall k :: 0 <= k < i ==> !ClashesAt(infos, k) && Priced(infos[k], MergeAt(tokens, k), res[k])
    {
      var token := infos[i].token;
      CountedSnoc(tokens, i);
      var seenCount := if token in tokenTxCountMap then tokenTxCountMap[token] else 0;
      var fee := Estimate(infos[i], seenCount == SEND_ARITY);
      EstimateExactly(infos[i], seenCount == SEND_ARITY);
      if fee.Err? {
        assert ClashesAt(infos, i) && FailsFirstAt(infos, i, fee.error);
        return Err(fee.error);
      }
      res := res + [fee.value];
      tokenTxCountMap := tokenTxCountMap[token := if seenCount == SEND_ARITY then 2 else seenCount + 1];
    }
    return Ok(res);
  }

  function SumOf(fees: seq<TokenFee>, part: TokenFee -> real): real {
    if fees == [] then 0.0 else SumOf(fees[..|fees| - 1], part) + part(fees[|fees| - 1])
  }

  /** Of some part of the fees: that of all topups, and that of the sends where `merges` says so. */
  function SumPriced(infos: seq<FeeInfo>, merges: seq<bool>, part: TokenFee -> real): real
    requires |infos| == |merges|
  {
    if infos == [] then 0.0
    else
      var n := |infos| - 1;
      SumPriced(infos[..n], merges[..n], part) + part(infos[n].topupFee)
      + if merges[n] then part(infos[n].sendFee) else 0.0
  }

  /** A part of the fees that is added up: transaction fee, privacy fee, rent or extra fee. */
  ghost predicate IsPart(part: TokenFee -> real) {
    || (forall f: TokenFee :: part(f) == f.txFee) || (forall f: TokenFee :: part(f) == f.privacyFee)
    || (forall f: TokenFee :: part(f) == f.rent) || (forall f: TokenFee :: part(f) == f.extraFee)
  }

  /** Over the batch every part adds up to that of all topups and that of one send for each merge. */
  lemma {:induction false} BatchTotal(infos: seq<FeeInfo>, merges: seq<bool>, fees: seq<TokenFee>,
        part: TokenFee -> real)
    requires |infos| == |merges| == |fees| && IsPart(part)
    requires forall i :: 0 <= i < |infos| ==> Priced(infos[i], merges[i], fees[i])
    ensures SumOf(fees, part) == SumPriced(infos, merges, part)
  {
    if infos != [] {
      var n := |infos| - 1;
      BatchTotal(infos[..n], merges[..n], fees[..n], part);
      assert Priced(infos[n], merges[n], fees[n]);
    }
  }

  // ---------------------------------------------------------------- sending the topups

  /** A topup request with what its merge would cost and sign, should it need one, and the tree it finds. */
  datatype TopUpRequest = TopUpRequest(q: Request, mergeFee: nat, mergeSig: nat, tree: Tree)

  ghost predicate TreesSized(qs: seq<TopUpRequest>) { forall i :: 0 <= i < |qs| ==> Storage.WellSized(qs[i].tree) }

  /** Sending the topups one after the other on top of `start`: the chain, and which of them merged. */
  ghost function SendTopUps(h: Commitment -> nat, start: Chain, qs: seq<TopUpRequest>): Result<(Chain, seq<bool>)>
    requires TreesSized(qs)
  {
    if qs == [] then Ok((start, []))
    else
      match SendTopUps(h, start, qs[..|qs| - 1])
      case Err(e) => Err(e)
      case Ok((chain, merges)) =>
        var last := qs[|qs| - 1];
        match TopUpNow(h, last.tree, chain, last.q, last.mergeFee, last.mergeSig)
        case Err(e) => Err(e)
        case Ok(txs) => Ok((After(chain, txs), merges + [txs.merge.Some?]))
  }

  function Tokens(qs: seq<TopUpRequest>): seq<Token> { seq(|qs|, i requires 0 <= i < |qs| => qs[i].q.token) }

  /** All signatures of the requests are different. */
  ghost predicate SigsDiffer(qs: seq<TopUpRequest>) {
    && (forall i :: 0 <= i < |qs| ==> qs[i].q.sig != qs[i].mergeSig)
    && (forall i, j :: 0 <= i < j < |qs| ==> NoSharedSig(qs[i], qs[j]))
  }

  ghost predicate NoSharedSig(a: TopUpRequest, b: TopUpRequest) {
    a.q.sig != b.q.sig && a.q.sig != b.mergeSig && a.mergeSig != b.q.sig && a.mergeSig != b.mergeSig
  }

  ghost predicate NotOf(qs: seq<TopUpRequest>, sig: nat) {
    forall i :: 0 <= i < |qs| ==> qs[i].q.sig != sig && qs[i].mergeSig != sig
  }

  /** Nothing of the requested tokens is unspent, and the signatures are new. */
  ghost predicate StartsEmpty(start: Chain, qs: seq<TopUpRequest>) {
    forall i :: 0 <= i < |qs| ==>
      Unspent(start, qs[i].q.token, |start|) == [] && FreshSig(start, qs[i].q.sig) && FreshSig(start, qs[i].mergeSig)
  }

  /** Whenever a topup is built, the tree holds what is unspent by then. */
  ghost predicate TreesServe(p: Openings.Poseidon, h: Commitment -> nat, start: Chain, qs: seq<TopUpRequest>)
    requires TreesSized(qs)
  {
    forall n :: 0 <= n < |qs| ==> TreeServes(p, h, SendTopUps(h, start, qs[..n]), qs[n])
  }

  ghost predicate TreeServes(p: Openings.Poseidon, h: Commitment -> nat, sent: Result<(Chain, seq<bool>)>,
        q: TopUpRequest) {
    sent.Ok? ==> Serves(p, h, q.tree, sent.value.0, q.q.token)
  }

  ghost predicate MergesMatch(tokens: seq<Token>, merges: seq<bool>) {
    |merges| == |tokens| && forall i :: 0 <= i < |tokens| ==> (merges[i] <==> MergeAt(tokens, i))
  }

  /** A token without unspent outputs at the start is in order, with as many as the estimate counts, one a nonce. */
  ghost predicate AsCounted(start: Chain, chain: Chain, tokens: seq<Token>) {
    forall t :: Unspent(start, t, |start|) == [] ==> CountedOf(chain, t, Counted(tokens, t))
  }

  /** What sending keeps. */
  ghost predicate Sent(start: Chain, qs: seq<TopUpRequest>, chain: Chain, merges: seq<bool>) {
    && Reachable(chain) && |chain| <= |start| + 2 * |qs|
    && AsCounted(start, chain, Tokens(qs)) && MergesMatch(Tokens(qs), merges)
    && (forall sig :: NotOf(qs, sig) && FreshSig(start, sig) ==> FreshSig(chain, sig))
  }

  lemma MergesMatchSnoc(tokens: seq<Token>, merges: seq<bool>, token: Token, merged: bool)
    requires MergesMatch(tokens, merges) && (merged <==> Counted(tokens, token) == SEND_ARITY)
    ensures MergesMatch(tokens + [token], merges + [merged])
  {
    var all := tokens + [token];
    assert all[..|tokens|] == tokens;
    assert forall i :: 0 <= i < |tokens| ==> all[..i] == tokens[..i];
  }

  /** What the count says of one token. */
  ghost predicate CountedOf(chain: Chain, token: Token, count: nat) {
    TokenOk(chain, token) && |Unspent(chain, token, |chain|)| == count && OneEach(chain, token)
  }

  lemma CountedAfter(start: Chain, chain: Chain, next: Chain, tokens: seq<Token>, token: Token, merged: bool,
        balance: int)
    requires AsCounted(start, chain, tokens) && ToppedUp(chain, next, token, merged, balance)
    requires Unspent(start, token, |start|) == []
    ensures AsCounted(start, next, tokens + [token]) && (merged <==> Counted(tokens, token) == SEND_ARITY)
  {
    hide CountedOf, ToppedUp, Unspent, Counted;
    assert CountedOf(chain, token, Counted(tokens, token));
    CountedNow(chain, next, token, merged, balance, Counted(tokens, token));
    forall t | Unspent(start, t, |start|) == [] ensures CountedOf(next, t, Counted(tokens + [token], t)) {
      assert CountedOf(chain, t, Counted(tokens, t));
      CountedThen(chain, next, tokens, token, merged, balance, t);
    }
  }

  lemma CountedThen(chain: Chain, next: Chain, tokens: seq<Token>, token: Token, merged: bool, balance: int, t: Token)
    requires ToppedUp(chain, next, token, merged, balance) && CountedOf(chain, t, Counted(tokens, t))
    ensures CountedOf(next, t, Counted(tokens + [token], t))
  {
    hide CountedOf, ToppedUp, Counted;
    var all := tokens + [token];
    assert all[..|tokens|] == tokens && all[..|tokens| + 1] == all;
    CountedSnoc(all, |tokens|);
    if t == token {
      CountedNow(chain, next, t, merged, balance, Counted(tokens, t));
    } else {
      CountedStill(chain, next, token, merged, balance, t, Counted(tokens, t));
    }
  }

  lemma CountedNow(chain: Chain, next: Chain, token: Token, merged: bool, balance: int, count: nat)
    requires ToppedUp(chain, next, token, merged, balance) && CountedOf(chain, token, count)
    ensures CountedOf(next, token, if count == SEND_ARITY then 2 else count + 1) && (merged <==> count == SEND_ARITY)
  {
    hide Reachable, Unspent, TokenOk, OneEach;
  }

  lemma CountedStill(chain: Chain, next: Chain, token: Token, merged: bool, balance: int, other: Token, count: nat)
    requires ToppedUp(chain, next, token, merged, balance) && other != token && CountedOf(chain, other, count)
    ensures CountedOf(next, other, count)
  {
    hide Reachable, Unspent, TokenOk;
  }

  lemma SentStep(start: Chain, before: seq<TopUpRequest>, last: TopUpRequest, chain: Chain, merges: seq<bool>,
        next: Chain,
        merged: bool, balance: int)
    requires Sent(start, before, chain, merges) && Unspent(start, last.q.token, |start|) == []
    requires ToppedUp(chain, next, last.q.token, merged, balance)
    requires SigsOnlyFrom(chain, next, last.q.sig, last.mergeSig)
    ensures Sent(start, before + [last], next, merges + [merged])
  {
    hide AsCounted, MergesMatch, Unspent, Reachable, FreshSig;
    var qs := before + [last];
    assert Tokens(qs) == Tokens(before) + [last.q.token];
    CountedAfter(start, chain, next, Tokens(before), last.q.token, merged, balance);
    MergesMatchSnoc(Tokens(before), merges, last.q.token, merged);
    forall sig | NotOf(qs, sig) && FreshSig(start, sig)
      ensures FreshSig(next, sig)
    {
      assert qs[|before|] == last;
      assert forall i :: 0 <= i < |before| ==> qs[i] == before[i];
      assert NotOf(before, sig);
    }
  }

  lemma NothingSent(start: Chain)
    requires Reachable(start)
    ensures Sent(start, [], start, [])
  {
    forall t | Unspent(start, t, |start|) == [] ensures TokenOk(start, t) && OneEach(start, t) { EmptyIsOk(start, t); }
  }

  /**
   Consecutive topups, tokens interleaved in any order, on top of any reachable chain without unspent outputs of these
   tokens: every one is activated and built, and they merge exactly where the estimate adds a merge fee.
   */
  lemma {:induction false} MergesAsEstimated(p: Openings.Poseidon, h: Commitment -> nat, start: Chain,
        qs: seq<TopUpRequest>)
    requires Reachable(start) && |start| + 2 * |qs| <= MAX_UINT32 && CollisionFree(h) && Storable(p)
    requires SigsDiffer(qs) && StartsEmpty(start, qs) && TreesSized(qs) && TreesServe(p, h, start, qs)
    ensures var r := SendTopUps(h, start, qs); r.Ok? && Sent(start, qs, r.value.0, r.value.1)
  {
    hide Reachable, CollisionFree, SigsDiffer, NotOf, Unspent, FreshSig, MergesMatch, Serves, ToppedUp, SigsOnlyFrom,
      TopUpNow, Storage.WellSized, After, OneEach, TokenOk;
    if qs == [] {
      NothingSent(start);
    } else {
      var before, last := qs[..|qs| - 1], qs[|qs| - 1];
      assert before + [last] == qs;
      SigsOfBefore(qs);
      ServedBefore(p, h, start, qs);
      MergesAsEstimated(p, h, start, before);
      var (chain, merges) := SendTopUps(h, start, before).value;
      NextTopUp(p, h, start, before, last, chain, merges);
    }
  }

  /** One more topup on top of those sent. */
  lemma {:induction false} NextTopUp(p: Openings.Poseidon, h: Commitment -> nat, start: Chain,
        before: seq<TopUpRequest>, last: TopUpRequest, chain: Chain, merges: seq<bool>)
    requires Sent(start, before, chain, merges) && Serves(p, h, last.tree, chain, last.q.token)
    requires CollisionFree(h) && Storable(p)
    requires |start| + 2 * |before| + 2 <= MAX_UINT32 && Storage.WellSized(last.tree)
    requires Unspent(start, last.q.token, |start|) == [] && last.q.sig != last.mergeSig
    requires FreshSig(start, last.q.sig) && FreshSig(start, last.mergeSig)
    requires NotOf(before, last.q.sig) && NotOf(before, last.mergeSig)
    ensures var r := TopUpNow(h, last.tree, chain, last.q, last.mergeFee, last.mergeSig);
            r.Ok? && Sent(start, before + [last], After(chain, r.value), merges + [r.value.merge.Some?])
  {
    hide Reachable, CollisionFree, NotOf, Unspent, FreshSig, MergesMatch, Serves, ToppedUp, SigsOnlyFrom,
      TopUpNow, Storage.WellSized, After, OneEach, TokenOk, ActiveTxs;
    OneEachNoneLate(chain, last.q.token);
    TopUpSucceeds(p, h, last.tree, chain, last.q, last.mergeFee, last.mergeSig);
    var txs := TopUpNow(h, last.tree, chain, last.q, last.mergeFee, last.mergeSig).value;
    SentStep(start, before, last, chain, merges, After(chain, txs), txs.merge.Some?, txs.balance);
  }

  lemma SigsOfBefore(qs: seq<TopUpRequest>)
    requires SigsDiffer(qs) && qs != []
    ensures var before, last := qs[..|qs| - 1], qs[|qs| - 1];
            && SigsDiffer(before) && last.q.sig != last.mergeSig
            && NotOf(before, last.q.sig) && NotOf(before, last.mergeSig)
  {
    assert forall i :: 0 <= i < |qs| - 1 ==> NoSharedSig(qs[i], qs[|qs| - 1]);
  }

  lemma {:induction false} ServedBefore(p: Openings.Poseidon, h: Commitment -> nat, start: Chain, qs: seq<TopUpRequest>)
    requires TreesSized(qs) && TreesServe(p, h, start, qs) && StartsEmpty(start, qs) && qs != []
    ensures var before, last := qs[..|qs| - 1], qs[|qs| - 1];
            && TreesSized(before) && TreesServe(p, h, start, before) && StartsEmpty(start, before)
            && TreeServes(p, h, SendTopUps(h, start, before), last)
  {
    hide TreeServes, Storage.WellSized, FreshSig, Unspent;
    var before := qs[..|qs| - 1];
    forall n | 0 <= n < |before| ensures TreeServes(p, h, SendTopUps(h, start, before[..n]), before[n]) {
      assert before[..n] == qs[..n] && before[n] == qs[n];
    }
    assert TreeServes(p, h, SendTopUps(h, start, qs[..|qs| - 1]), qs[|qs| - 1]);
  }

  // ---------------------------------------------------------------- how many merges

  function CountOf(tokens: seq<Token>, token: Token): nat {
    if tokens == [] then 0
    else CountOf(tokens[..|tokens| - 1], token) + if tokens[|tokens| - 1] == token then 1 else 0
  }

  /** How many of the topups of `token` are estimated to merge. */
  function MergesOf(tokens: seq<Token>, token: Token): nat {
    if tokens == [] then 0
    else
      var before := tokens[..|tokens| - 1];
      MergesOf(before, token) + if tokens[|tokens| - 1] == token && Counted(before, token) == SEND_ARITY then 1 else 0
  }

  /** For each token on its own, k topups count up to four and then cycle, with floor((k - 2) / 3) merges in all. */
  lemma {:induction false} MergesInAll(tokens: seq<Token>, token: Token)
    ensures var k := CountOf(tokens, token);
            && Counted(tokens, token) == (if k < 2 then k else 2 + (k - 2) % 3)
            && MergesOf(tokens, token) == (if k < 2 then 0 else (k - 2) / 3)
  {
    if tokens != [] {
      MergesInAll(tokens[..|tokens| - 1], token);
    }
  }
}
