/**
 Fetching the transactions of many nonces at once, src/sdk/txManagers/IdentifierTxFetcher.ts: the signatures of
 all nonces are put into one list, fetched in one call, and the responses are cut back into one piece per nonce.
 */
module SigBatches {
  import opened Common

  type Nonce = nat
  type Signature = nat

  /** A transaction response of the network, which numbers what it answers. */
  datatype Response = Response(number: nat)

  /** A signature of an identifier's account, and whether its transaction failed. */
  datatype ConfirmedSig = ConfirmedSig(signature: Signature, failed: bool)

  datatype SigResponse = SigResponse(response: Response, signature: Signature)

  datatype IdentifiedSigs = IdentifiedSigs(sigs: seq<Signature>, nonce: Nonce)

  datatype NoncedTxResponse = NoncedTxResponse(txResponse: seq<SigResponse>, nonce: Nonce)

  /** What the network answers: the signatures of a nonce's identifier, and the response to a signature, if any. */
  datatype Rpc = Rpc(signaturesOf: Nonce -> seq<ConfirmedSig>, responseTo: Signature -> Option<Response>)

  datatype Range = Range(start: nat, end: nat)

  /** `getTxSigsForIdKeyFromBlockchain` */
  function Succeeded(sigs: seq<ConfirmedSig>): seq<Signature> {
    if sigs == [] then []
    else
      var rest, last := Succeeded(sigs[..|sigs| - 1]), sigs[|sigs| - 1];
      if last.failed then rest else rest + [last.signature]
  }

  /** The successful ones of a list as its places tell: at these places, in this order, and at no others. */
  ghost predicate SuccessfulAt(sigs: seq<ConfirmedSig>, places: seq<nat>, chosen: seq<Signature>) {
    && |places| == |chosen|
    && (forall i, j :: 0 <= i < j < |places| ==> places[i] < places[j])
    && (forall i :: 0 <= i < |places| ==> places[i] < |sigs| && sigs[places[i]] == ConfirmedSig(chosen[i], false))
    && forall k :: 0 <= k < |sigs| && !sigs[k].failed ==> k in places
  }

  lemma {:induction false} SucceededAt(sigs: seq<ConfirmedSig>) returns (places: seq<nat>)
    ensures SuccessfulAt(sigs, places, Succeeded(sigs))
  {
    hide SuccessfulAt;
    if sigs == [] {
      places := [];
      NoneAt();
    } else {
      var init, n := sigs[..|sigs| - 1], |sigs| - 1;
      var before := SucceededAt(init);
      places := if sigs[n].failed then before else before + [n];
      OneMoreAt(init, before, Succeeded(init), sigs[n]);
      assert sigs == init + [sigs[n]];
    }
  }

  lemma NoneAt()
    ensures SuccessfulAt([], [], Succeeded([]))
  {
  }

  lemma OneMoreAt(init: seq<ConfirmedSig>, places: seq<nat>, chosen: seq<Signature>, last: ConfirmedSig)
    requires SuccessfulAt(init, places, chosen)
    ensures last.failed ==> SuccessfulAt(init + [last], places, chosen)
    ensures !last.failed ==> SuccessfulAt(init + [last], places + [|init|], chosen + [last.signature])
  {
    var sigs := init + [last];
    assert forall k :: 0 <= k < |init| ==> sigs[k] == init[k];
    if !last.failed {
      var more := places + [|init|];
      assert more[|places|] == |init| && forall k :: k in places ==> k in more;
      assert forall i :: 0 <= i < |places| ==> more[i] == places[i] < |init|;
    }
  }

  /**
   What is fetched of an uncached nonce: its successful transactions, every one of them, in the order of the answer and
   as often as they stand there; of a cached one nothing.
   */
  lemma FetchedSigsExactly(rpc: Rpc, nonce: Nonce) returns (places: seq<nat>)
    ensures SuccessfulAt(rpc.signaturesOf(nonce), places, ToFetch(rpc, nonce, false).sigs)
    ensures forall s :: s in ToFetch(rpc, nonce, false).sigs
              <==> ConfirmedSig(s, false) in rpc.signaturesOf(nonce)
    ensures ToFetch(rpc, nonce, true).sigs == []
    ensures forall isCached :: ToFetch(rpc, nonce, isCached).nonce == nonce
  {
    places := SucceededAt(rpc.signaturesOf(nonce));
  }

  // ---------------------------------------------------------------- one nonce at a time

  ghost predicate AllAnswered(rpc: Rpc, sigs: seq<Signature>) {
    forall k :: 0 <= k < |sigs| ==> rpc.responseTo(sigs[k]).Some?
  }

  /** The responses to a nonce's own signatures, in their order. */
  function OwnResponses(rpc: Rpc, sigs: seq<Signature>): (r: seq<SigResponse>)
    requires AllAnswered(rpc, sigs)
    ensures |r| == |sigs|
    ensures forall k :: 0 <= k < |sigs| ==> r[k].signature == sigs[k] && rpc.responseTo(sigs[k]) == Some(r[k].response)
  {
    seq(|sigs|, k requires 0 <= k < |sigs| && AllAnswered(rpc, sigs) =>
      SigResponse(rpc.responseTo(sigs[k]).value, sigs[k]))
  }

  /** The transactions of one nonce fetched on its own: none if it has no signatures or a response is missing. */
  ghost function TxsOfNonce<T>(rpc: Rpc, convert: NoncedTxResponse -> Result<seq<T>>,
        s: IdentifiedSigs): Result<seq<T>> {
    if s.sigs == [] || !AllAnswered(rpc, s.sigs) then Ok([])
    else convert(NoncedTxResponse(OwnResponses(rpc, s.sigs), s.nonce))
  }

  /** Nonce after nonce, each fetched on its own. */
  ghost function NonceByNonce<T>(rpc: Rpc, convert: NoncedTxResponse -> Result<seq<T>>,
        sigs: seq<IdentifiedSigs>): Result<seq<T>> {
    if sigs == [] then Ok([])
    else match NonceByNonce(rpc, convert, sigs[..|sigs| - 1])
      case Err(e) => Err(e)
      case Ok(txs) =>
        match TxsOfNonce(rpc, convert, sigs[|sigs| - 1])
        case Err(e) => Err(e)
        case Ok(more) => Ok(txs + more)
  }

  /** A cached nonce is asked for nothing. */
  function ToFetch(rpc: Rpc, nonce: Nonce, isCached: bool): IdentifiedSigs {
    IdentifiedSigs(if isCached then [] else Succeeded(rpc.signaturesOf(nonce)), nonce)
  }

  function AllToFetch(rpc: Rpc, nonces: seq<(Nonce, bool)>): seq<IdentifiedSigs> {
    seq(|nonces|, i requires 0 <= i < |nonces| => ToFetch(rpc, nonces[i].0, nonces[i].1))
  }

  // ---------------------------------------------------------------- all nonces in one list

  function Flatten(sigs: seq<IdentifiedSigs>): seq<Signature> {
    if sigs == [] then [] else Flatten(sigs[..|sigs| - 1]) + sigs[|sigs| - 1].sigs
  }

  /** The piece of nonce number `i` lies right behind the pieces of the nonces before it. */
  lemma {:induction false} PieceOfNonce(sigs: seq<IdentifiedSigs>, i: nat)
    requires i < |sigs|
    ensures var start := |Flatten(sigs[..i])|;
            start + |sigs[i].sigs| <= |Flatten(sigs)| && Flatten(sigs)[start..start + |sigs[i].sigs|] == sigs[i].sigs
    ensures |Flatten(sigs[..i + 1])| == |Flatten(sigs[..i])| + |sigs[i].sigs|
    decreases |sigs|
  {
    assert sigs[..i + 1][..i] == sigs[..i];
    var n := |sigs| - 1;
    if i < n {
      PieceOfNonce(sigs[..n], i);
      assert sigs[..n][..i] == sigs[..i];
      var start, init := |Flatten(sigs[..i])|, Flatten(sigs[..n]);
      assert Flatten(sigs)[start..start + |sigs[i].sigs|] == init[start..start + |sigs[i].sigs|];
    }
  }

  /** `sigsToElusivTxs` cuts the flat answers by these ranges. */
  method TxRanges(sigs: seq<IdentifiedSigs>) returns (txRanges: seq<Range>, previousEnd: nat)
    ensures |txRanges| == |sigs| && previousEnd == |Flatten(sigs)|
    ensures forall i :: 0 <= i < |sigs| ==>
              && txRanges[i].start <= txRanges[i].end <= |Flatten(sigs)|
              && Flatten(sigs)[txRanges[i].start..txRanges[i].end] == sigs[i].sigs
  {
    txRanges, previousEnd := [], 0;
    for i := 0 to |sigs|
      invariant |txRanges| == i && previousEnd == |Flatten(sigs[..i])|
      invariant forall j :: 0 <= j < i ==>
                  && txRanges[j].start <= txRanges[j].end <= |Flatten(sigs)|
                  && Flatten(sigs)[txRanges[j].start..txRanges[j].end] == sigs[j].sigs
    {
      PieceOfNonce(sigs, i);
      txRanges := txRanges + [Range(previousEnd, previousEnd + |sigs[i].sigs|)];
      previousEnd := previousEnd + |sigs[i].sigs|;
    }
    assert sigs[..|sigs|] == sigs;
  }

  /** `getParsedTransactions`: the answers in the order of the signatures. */
  function Answers(rpc: Rpc, sigs: seq<Signature>): seq<Option<Response>> {
    seq(|sigs|, k requires 0 <= k < |sigs| => rpc.responseTo(sigs[k]))
  }

  predicate AllThere(answers: seq<Option<Response>>) { forall k | 0 <= k < |answers| :: answers[k].Some? }

  /** The response list of one nonce as the fetched pieces have it. */
  ghost predicate IsPiece(rpc: Rpc, s: IdentifiedSigs, piece: Option<NoncedTxResponse>) {
    piece == if AllAnswered(rpc, s.sigs) then Some(NoncedTxResponse(OwnResponses(rpc, s.sigs), s.nonce)) else None
  }

  /** The responses of one nonce, or `None` if one is missing. */
  method OnePiece(realTxs: seq<Option<Response>>, range: Range, s: IdentifiedSigs, ghost rpc: Rpc,
        ghost flat: seq<Signature>) returns (r: Option<NoncedTxResponse>)
    requires realTxs == Answers(rpc, flat) && range.start <= range.end <= |flat|
    requires flat[range.start..range.end] == s.sigs
    ensures IsPiece(rpc, s, r)
  {
    var relevantResp := realTxs[range.start..range.end];
    assert relevantResp == Answers(rpc, s.sigs);
    assert forall k :: 0 <= k < |s.sigs| ==> relevantResp[k] == rpc.responseTo(s.sigs[k]);
    assert AllThere(relevantResp) <==> AllAnswered(rpc, s.sigs);
    if !AllThere(relevantResp) {
      return None;
    }
    var resp: seq<SigResponse> := [];
    for k := 0 to |relevantResp|
      invariant |resp| == k && forall m :: 0 <= m < k ==>
              rpc.responseTo(s.sigs[m]).Some? && resp[m] == SigResponse(rpc.responseTo(s.sigs[m]).value, s.sigs[m])
    {
      resp := resp + [SigResponse(relevantResp[k].value, s.sigs[k])];
    }
    assert resp == OwnResponses(rpc, s.sigs);
    return Some(NoncedTxResponse(resp, s.nonce));
  }

  /** `sigsToElusivTxs` */
  method SigsToElusivTxs<T>(rpc: Rpc, convert: NoncedTxResponse -> Result<seq<T>>,
        sigs: seq<IdentifiedSigs>) returns (r: Result<seq<T>>)
    ensures r == NonceByNonce(rpc, convert, sigs)
  {
    if |sigs| == 0 {
      return Ok([]);
    }
    var preparedSigs := FlattenAll(sigs);
    var txRanges, previousEnd := TxRanges(sigs);
    if previousEnd == 0 {
      NothingToFetch(rpc, convert, sigs);
      return Ok([]);
    }
    var realTxs := Answers(rpc, preparedSigs);
    var totalTxResponses: seq<Option<NoncedTxResponse>> := [];
    for i := 0 to |txRanges|
      invariant |totalTxResponses| == i
      invariant forall j :: 0 <= j < i ==> IsPiece(rpc, sigs[j], totalTxResponses[j])
    {
      var one := OnePiece(realTxs, txRanges[i], sigs[i], rpc, preparedSigs);
      totalTxResponses := totalTxResponses + [one];
    }
    r := TxResponsesToElusivTxs(rpc, convert, sigs, totalTxResponses);
  }

  /** `txResponsesToElusivTxs`: what is missing or empty is left out, the rest is converted. */
  method TxResponsesToElusivTxs<T>(ghost rpc: Rpc, convert: NoncedTxResponse -> Result<seq<T>>,
        ghost sigs: seq<IdentifiedSigs>, txs: seq<Option<NoncedTxResponse>>)
    returns (r: Result<seq<T>>)
    requires |txs| == |sigs| && forall i :: 0 <= i < |txs| ==> IsPiece(rpc, sigs[i], txs[i])
    ensures r == NonceByNonce(rpc, convert, sigs)
  {
    var res: seq<T> := [];
    for i := 0 to |txs|
      invariant NonceByNonce(rpc, convert, sigs[..i]) == Ok(res)
    {
      NextNonce(rpc, convert, sigs, i, res);
      assert IsPiece(rpc, sigs[i], txs[i]);
      if txs[i].Some? && |txs[i].value.txResponse| != 0 {
        var converted := convert(txs[i].value);
        if converted.Err? {
          FailsEarly(rpc, convert, sigs, i + 1);
          return Err(converted.error);
        }
        res := res + converted.value;
      } else {
        assert res + [] == res;
      }
    }
    assert sigs[..|sigs|] == sigs;
    return Ok(res);
  }

  lemma NextNonce<T>(rpc: Rpc, convert: NoncedTxResponse -> Result<seq<T>>, sigs: seq<IdentifiedSigs>, i: nat,
        res: seq<T>)
    requires i < |sigs| && NonceByNonce(rpc, convert, sigs[..i]) == Ok(res)
    ensures NonceByNonce(rpc, convert, sigs[..i + 1])
            == match TxsOfNonce(rpc, convert, sigs[i]) case Err(e) => Err(e) case Ok(more) => Ok(res + more)
  {
    assert sigs[..i + 1][..i] == sigs[..i] && sigs[..i + 1][i] == sigs[i];
  }

  method FlattenAll(sigs: seq<IdentifiedSigs>) returns (flat: seq<Signature>)
    ensures flat == Flatten(sigs)
  {
    flat := [];
    for i := 0 to |sigs|
      invariant flat == Flatten(sigs[..i])
    {
      assert sigs[..i + 1][..i] == sigs[..i];
      flat := flat + sigs[i].sigs;
    }
    assert sigs[..|sigs|] == sigs;
  }

  /** The nonces that are not cached, in order. */
  function NotCached(nonces: seq<(Nonce, bool)>): seq<Nonce> {
    if nonces == [] then []
    else
      var rest, last := NotCached(nonces[..|nonces| - 1]), nonces[|nonces| - 1];
      if last.1 then rest else rest + [last.0]
  }

  /**
   `getTxsFromNonces`: signatures are requested for the nonces that are not cached, once each, and every nonce gets
   exactly the transactions made of its own responses.
   */
  method GetTxsFromNonces<T>(rpc: Rpc, convert: NoncedTxResponse -> Result<seq<T>>, nonces: seq<(Nonce, bool)>)
    returns (r: Result<seq<T>>, requested: seq<Nonce>)
    ensures r == NonceByNonce(rpc, convert, AllToFetch(rpc, nonces))
    ensures requested == NotCached(nonces)
  {
    var sigs: seq<IdentifiedSigs> := [];
    requested := [];
    for i := 0 to |nonces|
      invariant sigs == AllToFetch(rpc, nonces)[..i] && requested == NotCached(nonces[..i])
    {
      var (nonce, isCached) := nonces[i];
      assert nonces[..i + 1][..i] == nonces[..i];
      if isCached {
        sigs := sigs + [IdentifiedSigs([], nonce)];
      } else {
        requested := requested + [nonce];
        sigs := sigs + [IdentifiedSigs(Succeeded(rpc.signaturesOf(nonce)), nonce)];
      }
    }
    assert sigs == AllToFetch(rpc, nonces) && nonces[..|nonces|] == nonces;
    r := SigsToElusivTxs(rpc, convert, sigs);
  }

  lemma {:induction false} NothingToFetch<T>(rpc: Rpc, convert: NoncedTxResponse -> Result<seq<T>>,
        sigs: seq<IdentifiedSigs>)
    requires Flatten(sigs) == []
    ensures NonceByNonce(rpc, convert, sigs) == Ok([])
  {
    if sigs != [] { NothingToFetch(rpc, convert, sigs[..|sigs| - 1]); }
  }

  lemma {:induction false} FailsEarly<T>(rpc: Rpc, convert: NoncedTxResponse -> Result<seq<T>>,
        sigs: seq<IdentifiedSigs>, i: nat)
    requires i <= |sigs| && NonceByNonce(rpc, convert, sigs[..i]).Err?
    ensures NonceByNonce(rpc, convert, sigs) == NonceByNonce(rpc, convert, sigs[..i])
    decreases |sigs|
  {
    if i < |sigs| {
      assert sigs[..|sigs| - 1][..i] == sigs[..i];
      FailsEarly(rpc, convert, sigs[..|sigs| - 1], i);
    } else {
      assert sigs[..i] == sigs;
    }
  }

  /** One answer that is missing leaves out its whole nonce, without an error and without touching the others. */
  lemma {:induction false} MissingLeftOut<T>(rpc: Rpc, convert: NoncedTxResponse -> Result<seq<T>>,
        sigs: seq<IdentifiedSigs>, i: nat, k: nat)
    requires i < |sigs| && k < |sigs[i].sigs| && rpc.responseTo(sigs[i].sigs[k]) == None
    ensures NonceByNonce(rpc, convert, sigs) == NonceByNonce(rpc, convert, sigs[..i] + sigs[i + 1..])
    decreases |sigs|
  {
    var n := |sigs| - 1;
    var without := sigs[..i] + sigs[i + 1..];
    assert !AllAnswered(rpc, sigs[i].sigs);
    if i < n {
      var init := sigs[..n];
      MissingLeftOut(rpc, convert, init, i, k);
      assert without[..|without| - 1] == init[..i] + init[i + 1..] && without[|without| - 1] == sigs[n];
    } else {
      assert without == sigs[..n];
      NothingMore(rpc, convert, sigs);
    }
  }

  lemma NothingMore<T>(rpc: Rpc, convert: NoncedTxResponse -> Result<seq<T>>, sigs: seq<IdentifiedSigs>)
    requires sigs != [] && TxsOfNonce(rpc, convert, sigs[|sigs| - 1]) == Ok([])
    ensures NonceByNonce(rpc, convert, sigs) == NonceByNonce(rpc, convert, sigs[..|sigs| - 1])
  {
    var before := NonceByNonce(rpc, convert, sigs[..|sigs| - 1]);
    if before.Ok? { assert before.value + [] == before.value; }
  }

  /** The fetch fails exactly when the conversion of some nonce's responses does; a missing answer is no failure. */
  lemma {:induction false} FailsExactly<T>(rpc: Rpc, convert: NoncedTxResponse -> Result<seq<T>>,
        sigs: seq<IdentifiedSigs>)
    ensures NonceByNonce(rpc, convert, sigs).Err? <==> exists i :: 0 <= i < |sigs| && FailsAt(rpc, convert, sigs[i])
  {
    if sigs != [] {
      var n := |sigs| - 1;
      FailsExactly(rpc, convert, sigs[..n]);
      if NonceByNonce(rpc, convert, sigs[..n]).Err? {
        var i :| 0 <= i < n && FailsAt(rpc, convert, sigs[..n][i]);
        assert sigs[..n][i] == sigs[i];
      }
      if exists i :: 0 <= i < |sigs| && FailsAt(rpc, convert, sigs[i]) {
        var i :| 0 <= i < |sigs| && FailsAt(rpc, convert, sigs[i]);
        if i < n { assert sigs[..n][i] == sigs[i]; }
      }
    }
  }

  /** All responses of the nonce are there, and the converter does not accept them. */
  ghost predicate FailsAt<T>(rpc: Rpc, convert: NoncedTxResponse -> Result<seq<T>>, s: IdentifiedSigs) {
    s.sigs != [] && AllAnswered(rpc, s.sigs) && convert(NoncedTxResponse(OwnResponses(rpc, s.sigs), s.nonce)).Err?
  }

  /** `t` is among the transactions of the nonce's own responses. */
  ghost predicate Gives<T>(rpc: Rpc, convert: NoncedTxResponse -> Result<seq<T>>, s: IdentifiedSigs, t: T) {
    TxsOfNonce(rpc, convert, s).Ok? && t in TxsOfNonce(rpc, convert, s).value
  }

  /** When nothing fails, a transaction is in the result exactly if it comes from some nonce's own responses. */
  lemma {:induction false} FromOwnResponses<T>(rpc: Rpc, convert: NoncedTxResponse -> Result<seq<T>>,
        sigs: seq<IdentifiedSigs>, t: T)
    requires NonceByNonce(rpc, convert, sigs).Ok?
    ensures t in NonceByNonce(rpc, convert, sigs).value
            <==> exists i :: 0 <= i < |sigs| && Gives(rpc, convert, sigs[i], t)
  {
    if sigs != [] {
      var n := |sigs| - 1;
      FromOwnResponses(rpc, convert, sigs[..n], t);
      if t in NonceByNonce(rpc, convert, sigs[..n]).value {
        var i :| 0 <= i < n && Gives(rpc, convert, sigs[..n][i], t);
        assert sigs[..n][i] == sigs[i];
      }
      if exists i :: 0 <= i < |sigs| && Gives(rpc, convert, sigs[i], t) {
        var i :| 0 <= i < |sigs| && Gives(rpc, convert, sigs[i], t);
        if i < n { assert sigs[..n][i] == sigs[i]; }
      }
    }
  }
}
