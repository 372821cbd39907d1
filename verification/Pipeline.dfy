/**
 From the transactions on Solana to the chain the transaction manager works on: the signatures of the uncached nonces
 are fetched (src/sdk/txManagers/IdentifierTxFetcher.ts), the responses of each nonce are paired
 (src/sdk/txManagers/ResponseConverter.ts) and parsed, and `fetchTxsInRange` of
 src/sdk/txManagers/AbstractTxManager.ts:172-181 returns them. Together they give exactly what the transaction manager
 is modelled to receive from the node.
 */
module Pipeline {
  import opened Common
  import opened Ledger
  import opened TxCache
  import Manager = TransactionManager
  import Pairing = ResponseConverter
  import opened SigBatches

  type Run = seq<Pairing.Event>

  /** The successful transactions of an identifier, newest first, by their position in the run. */
  function SigsOf(run: Run, id: nat, n: nat): seq<Signature>
    requires n <= |run|
  {
    if n == 0 then []
    else if run[n - 1].id == id then [n - 1] + SigsOf(run, id, n - 1)
    else SigsOf(run, id, n - 1)
  }

  /** The list holds these signatures as successful transactions, in this order, with any failed ones between. */
  ghost predicate WithFailed(sigs: seq<ConfirmedSig>, chosen: seq<Signature>) {
    if sigs == [] then chosen == []
    else if sigs[0].failed then WithFailed(sigs[1..], chosen)
    else chosen != [] && sigs[0].signature == chosen[0] && WithFailed(sigs[1..], chosen[1..])
  }

  /**
   The RPC node answers from the run, and may list failed transactions besides. The position of a transaction stands for
   its signature and for its response.
   */
  ghost predicate AnswersFrom(rpc: Rpc, run: Run) {
    && (forall id: nat :: WithFailed(rpc.signaturesOf(id), SigsOf(run, id, |run|)))
    && (forall k: nat :: k < |run| ==> rpc.responseTo(k) == Some(Response(k)))
  }

  function ResponseAt(run: Run, k: nat): Pairing.Response {
    if k < |run| then Pairing.ResponseOf(run[k], k) else Pairing.Response(k, false, None, None)
  }

  /** The responses as the converter sees them. */
  function LogFrom(run: Run, txResponse: seq<SigResponse>): seq<Pairing.Response> {
    seq(|txResponse|, i requires 0 <= i < |txResponse| => ResponseAt(run, txResponse[i].response.number))
  }

  /** Parsing, with decryption, of what the converter paired. */
  function ParseAll(txs: seq<Pairing.ElusivTx>, parse: Pairing.ElusivTx -> Tx): seq<Tx> {
    seq(|txs|, i requires 0 <= i < |txs| => parse(txs[i]))
  }

  /** Pairing and parsing the responses of one nonce. */
  function ConvertOne(run: Run, parse: Pairing.ElusivTx -> Tx, r: NoncedTxResponse): Result<seq<Tx>> {
    match Pairing.Convert(LogFrom(run, r.txResponse)) case Err(e) => Err(e) case Ok(txs) => Ok(ParseAll(txs, parse))
  }

  function Converter(run: Run, parse: Pairing.ElusivTx -> Tx): NoncedTxResponse -> Result<seq<Tx>> {
    (r: NoncedTxResponse) => ConvertOne(run, parse, r)
  }

  /** The chain behind the run: each nonce, which is its own identifier here, holds what its events stand for. */
  ghost predicate ChainOf(run: Run, parse: Pairing.ElusivTx -> Tx, node: Chain)
    requires Pairing.ValidRun(run)
  {
    && (forall n :: 0 <= n < |node| ==> SlotOf(run, parse, n, node[n]))
    && (forall k :: 0 <= k < |run| ==> run[k].id < |node|)
  }

  ghost predicate SlotOf(run: Run, parse: Pairing.ElusivTx -> Tx, n: nat, slot: seq<Tx>)
    requires Pairing.ValidRun(run)
  {
    && (exists k :: 0 <= k < |run| && Pairing.Visible(run[k], n))
    && slot == ParseAll(Pairing.Expected(run, n, |run|), parse)
  }

  // ---------------------------------------------------------------- one nonce

  lemma {:induction false} SucceededConcat(a: seq<ConfirmedSig>, b: seq<ConfirmedSig>)
    ensures Succeeded(a + b) == Succeeded(a) + Succeeded(b)
    decreases |b|
  {
    if b == [] {
      assert a + b == a;
    } else {
      var init := b[..|b| - 1];
      SucceededConcat(a, init);
      assert (a + b)[..|a + b| - 1] == a + init && (a + b)[|a + b| - 1] == b[|b| - 1];
    }
  }

  /** The failed ones are left out. */
  lemma {:induction false} FailedLeftOut(sigs: seq<ConfirmedSig>, chosen: seq<Signature>)
    requires WithFailed(sigs, chosen)
    ensures Succeeded(sigs) == chosen
  {
    if sigs != [] {
      assert sigs == [sigs[0]] + sigs[1..];
      SucceededConcat([sigs[0]], sigs[1..]);
      assert [sigs[0]][..0] == [] && Succeeded([]) == [];
      FailedLeftOut(sigs[1..], if sigs[0].failed then chosen else chosen[1..]);
    }
  }

  lemma {:induction false} SigsInRun(run: Run, id: nat, n: nat)
    requires n <= |run|
    ensures forall i :: 0 <= i < |SigsOf(run, id, n)| ==> SigsOf(run, id, n)[i] < n
  {
    if n > 0 { SigsInRun(run, id, n - 1); }
  }

  lemma {:induction false} LogOfSigs(run: Run, id: nat, n: nat)
    requires n <= |run|
    ensures |Pairing.LogOf(run, id, n)| == |SigsOf(run, id, n)|
    ensures forall i :: 0 <= i < |SigsOf(run, id, n)| ==>
              Pairing.LogOf(run, id, n)[i] == ResponseAt(run, SigsOf(run, id, n)[i])
  {
    if n > 0 {
      SigsInRun(run, id, n);
      LogOfSigs(run, id, n - 1);
      assert [] + Pairing.LogOf(run, id, n - 1) == Pairing.LogOf(run, id, n - 1);
    }
  }

  lemma {:induction false} SigsEmpty(run: Run, id: nat, n: nat)
    requires n <= |run| && forall k :: 0 <= k < n ==> run[k].id != id
    ensures SigsOf(run, id, n) == []
  {
    if n > 0 { SigsEmpty(run, id, n - 1); }
  }

  /** A nonce fetched on its own gives what the chain holds under it. */
  lemma {:induction false} NonceGivesSlot(rpc: Rpc, run: Run, parse: Pairing.ElusivTx -> Tx, node: Chain, n: nat)
    requires Pairing.ValidRun(run) && AnswersFrom(rpc, run) && ChainOf(run, parse, node)
    ensures TxsOfNonce(rpc, Converter(run, parse), ToFetch(rpc, n, false)) == Ok(ChainAt(node, n))
  {
    hide Pairing.Convert, Pairing.Expected, Pairing.ValidRun;
    var sigs := SigsOf(run, n, |run|);
    SigsInRun(run, n, |run|);
    FailedLeftOut(rpc.signaturesOf(n), sigs);
    assert ToFetch(rpc, n, false).sigs == sigs;
    if n < |node| {
      assert SlotOf(run, parse, n, node[n]);
      var k :| 0 <= k < |run| && Pairing.Visible(run[k], n);
      Pairing.LogNotEmpty(run, n, |run|, k);
      LogOfSigs(run, n, |run|);
      assert forall i :: 0 <= i < |sigs| ==> rpc.responseTo(sigs[i]) == Some(Response(sigs[i]));
      assert LogFrom(run, OwnResponses(rpc, sigs)) == Pairing.LogOf(run, n, |run|);
      Pairing.PairingIsCorrect(run, n);
    } else {
      SigsEmpty(run, n, |run|);
    }
  }

  // ---------------------------------------------------------------- a range of nonces

  /** The nonces of [lo, hi), each with whether it is cached. */
  function Nonces(cached: Slots, lo: nat, hi: nat): seq<(Nonce, bool)>
    requires lo <= hi
  {
    seq(hi - lo, i requires 0 <= i < hi - lo => (lo + i, Slot(cached, lo + i) != []))
  }

  lemma {:induction false} FetchedSnoc(node: Chain, cached: Slots, lo: nat, hi: nat)
    requires lo < hi
    ensures Fetched(node, cached, lo, hi) == Fetched(node, cached, lo, hi - 1) + FetchedOne(node, cached, hi - 1)
    decreases hi - lo
  {
    if lo < hi - 1 {
      FetchedSnoc(node, cached, lo + 1, hi);
      assert FetchedOne(node, cached, lo) + (Fetched(node, cached, lo + 1, hi - 1) + FetchedOne(node, cached, hi - 1))
          == FetchedOne(node, cached, lo) + Fetched(node, cached, lo + 1, hi - 1) + FetchedOne(node, cached, hi - 1);
    } else {
      assert Fetched(node, cached, hi, hi) == [] && Fetched(node, cached, lo, lo) == [];
      assert FetchedOne(node, cached, lo) + [] == [] + FetchedOne(node, cached, lo);
    }
  }

  /**
   Fetching a range of nonces signature by signature, cutting the flat list of responses, pairing and parsing gives
   what the chain holds under the nonces that are not cached, in order.
   */
  lemma {:induction false} RangeGivesFetched(rpc: Rpc, run: Run, parse: Pairing.ElusivTx -> Tx, node: Chain,
        cached: Slots,
        lo: nat, hi: nat)
    requires Pairing.ValidRun(run) && AnswersFrom(rpc, run) && ChainOf(run, parse, node) && lo <= hi
    ensures NonceByNonce(rpc, Converter(run, parse), AllToFetch(rpc, Nonces(cached, lo, hi)))
            == Ok(Fetched(node, cached, lo, hi))
    decreases hi - lo
  {
    hide TxsOfNonce, AnswersFrom, ChainOf, Pairing.ValidRun, Slot, Converter, Fetched, FetchedOne, AllToFetch, Nonces;
    if lo < hi {
      RangeGivesFetched(rpc, run, parse, node, cached, lo, hi - 1);
      FetchedSnoc(node, cached, lo, hi);
      RangeSnoc(rpc, cached, lo, hi);
      LastNonceGives(rpc, run, parse, node, cached, hi - 1);
    } else {
      EmptyRange(rpc, node, cached, lo);
    }
  }

  lemma EmptyRange(rpc: Rpc, node: Chain, cached: Slots, lo: nat)
    ensures AllToFetch(rpc, Nonces(cached, lo, lo)) == [] && Fetched(node, cached, lo, lo) == []
  {
  }

  lemma RangeSnoc(rpc: Rpc, cached: Slots, lo: nat, hi: nat)
    requires lo < hi
    ensures var sigs := AllToFetch(rpc, Nonces(cached, lo, hi));
            && |sigs| > 0 && sigs[..|sigs| - 1] == AllToFetch(rpc, Nonces(cached, lo, hi - 1))
            && sigs[|sigs| - 1] == ToFetch(rpc, hi - 1, Slot(cached, hi - 1) != [])
  {
  }

  lemma {:induction false} LastNonceGives(rpc: Rpc, run: Run, parse: Pairing.ElusivTx -> Tx, node: Chain,
        cached: Slots, n: nat)
    requires Pairing.ValidRun(run) && AnswersFrom(rpc, run) && ChainOf(run, parse, node)
    ensures TxsOfNonce(rpc, Converter(run, parse), ToFetch(rpc, n, Slot(cached, n) != []))
            == Ok(FetchedOne(node, cached, n))
  {
    if Slot(cached, n) == [] { NonceGivesSlot(rpc, run, parse, node, n); }
  }

  lemma {:induction false} NotCachedIs(cached: Slots, lo: nat, hi: nat)
    requires lo <= hi
    ensures NotCached(Nonces(cached, lo, hi)) == Manager.Uncached(cached, lo, hi)
    decreases hi - lo
  {
    if lo < hi {
      NotCachedIs(cached, lo, hi - 1);
      var nonces := Nonces(cached, lo, hi);
      assert nonces[..|nonces| - 1] == Nonces(cached, lo, hi - 1);
      UncachedSnoc(cached, lo, hi);
    }
  }

  lemma {:induction false} UncachedSnoc(cached: Slots, lo: nat, hi: nat)
    requires lo < hi
    ensures Manager.Uncached(cached, lo, hi)
            == Manager.Uncached(cached, lo, hi - 1) + if Slot(cached, hi - 1) == [] then [hi - 1] else []
    decreases hi - lo
  {
    if lo < hi - 1 { UncachedSnoc(cached, lo + 1, hi); }
  }

  /** `fetchTxsInRange` for (before, after), both ends left out: what is requested, and what comes back. */
  method FetchTxsInRange(rpc: Rpc, run: Run, parse: Pairing.ElusivTx -> Tx, ghost node: Chain, cached: Slots,
        before: nat, after: int)
    returns (r: Result<seq<Tx>>, requested: seq<Nonce>)
    requires Pairing.ValidRun(run) && AnswersFrom(rpc, run) && ChainOf(run, parse, node) && -1 <= after < before
    ensures r == Ok(Fetched(node, cached, after + 1, before))
    ensures requested == Manager.Uncached(cached, after + 1, before)
  {
    var nonces: seq<(Nonce, bool)> := [];
    for i := 0 to before - (after + 1)
      invariant nonces == Nonces(cached, after + 1, before)[..i]
    {
      nonces := nonces + [(after + 1 + i, Slot(cached, after + 1 + i) != [])];
    }
    assert nonces == Nonces(cached, after + 1, before);
    RangeGivesFetched(rpc, run, parse, node, cached, after + 1, before);
    NotCachedIs(cached, after + 1, before);
    r, requested := GetTxsFromNonces(rpc, Converter(run, parse), nonces);
  }
}
