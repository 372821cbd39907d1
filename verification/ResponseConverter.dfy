/**
 Pairing of send responses, src/sdk/txManagers/ResponseConverter.ts.

 A finished send is two Solana transactions under one identifier, an init and later a finalize. The
 converter sees the transactions of one identifier newest first and pairs every finalize with the
 next init, further down the log, that used the same verification account. The second half of the
 file models the chain that produced the log: a verification account is taken by an init and is not
 free again before its finalize.
 */
module ResponseConverter {
  import opened Common

  type Account = nat

  /** One transaction response: which Elusiv instructions of this identifier it holds. */
  datatype Response = Response(sig: nat, isStore: bool, finalize: Option<Account>, init: Option<Account>)

  /** The Elusiv transactions the converter builds. */
  datatype ElusivTx = StoreTx(tx: Response) | SendTx(parts: seq<Response>)

  predicate IsElusivTx(r: Response) { r.isStore || r.finalize.Some? || r.init.Some? }

  function ElusivTxs(log: seq<Response>): seq<Response> {
    if log == [] then []
    else (if IsElusivTx(log[0]) then [log[0]] else []) + ElusivTxs(log[1..])
  }

  /** Position of the first init for `acc`. */
  function FirstInit(log: seq<Response>, acc: Account): (r: Option<nat>)
    ensures r.Some? ==> r.value < |log| && log[r.value].init == Some(acc)
    ensures forall k :: 0 <= k < (if r.Some? then r.value else |log|) ==> log[k].init != Some(acc)
  {
    if log == [] then None
    else if log[0].init == Some(acc) then Some(0)
    else match FirstInit(log[1..], acc) case None => None case Some(j) => Some(j + 1)
  }

  /** What the loop pushes for the newest response, and the `viewed` flags it leaves. */
  function ConvertOne(log: seq<Response>, viewed: seq<bool>): Result<(seq<ElusivTx>, seq<bool>)>
    requires |log| == |viewed| > 0
  {
    var r := log[0];
    if viewed[0] then Ok(([], viewed))
    else
      var stores := if r.isStore then [StoreTx(r)] else [];
      var lone := if r.init.Some? then [SendTx([r])] else [];
      if r.finalize.None? then Ok((stores + lone, viewed))
      else
        match FirstInit(log, r.finalize.value)
        case None => Err(InitNotFound)
        case Some(j) => Ok((stores + [SendTx([r, log[j]])] + lone, viewed[j := true]))
  }

  /** The outer loop from a suffix of the log on. */
  function ConvertFrom(log: seq<Response>, viewed: seq<bool>): Result<seq<ElusivTx>>
    requires |log| == |viewed|
    decreases |log|
  {
    if log == [] then Ok([])
    else
      match ConvertOne(log, viewed)
      case Err(e) => Err(e)
      case Ok((txs, viewed')) =>
        match ConvertFrom(log[1..], viewed'[1..])
        case Err(e) => Err(e)
        case Ok(rest) => Ok(txs + rest)
  }

  function NoneViewed(n: nat): seq<bool> { seq(n, _ => false) }

  function Convert(log: seq<Response>): Result<seq<ElusivTx>> {
    if log == [] then Err(EmptyResponse)
    else
      match ConvertFrom(ElusivTxs(log), NoneViewed(|ElusivTxs(log)|))
      case Err(e) => Err(e)
      case Ok(txs) => if txs == [] then Err(InvalidTxType) else Ok(txs)
  }

  /** `txResponseToElusivTxs` */
  method TxResponseToElusivTxs(log: seq<Response>) returns (r: Result<seq<ElusivTx>>)
    ensures r == Convert(log)
  {
    if log == [] {
      return Err(EmptyResponse);
    }
    var elusivTxs := ElusivTxs(log);
    var txs: seq<ElusivTx> := [];
    var viewed := new bool[|elusivTxs|](_ => false);
    assert viewed[..] == NoneViewed(|elusivTxs|);
    ghost var whole := ConvertFrom(elusivTxs, NoneViewed(|elusivTxs|));
    assert elusivTxs[0..] == elusivTxs && viewed[0..] == viewed[..];
    assert whole.Ok? ==> [] + whole.value == whole.value;
    for i := 0 to |elusivTxs|
      invariant whole == Prepend(txs, ConvertFrom(elusivTxs[i..], viewed[i..]))
    {
      var one := ConvertAt(elusivTxs, viewed, i);
      if one.Err? {
        return Err(one.error);
      }
      assert elusivTxs[i..][1..] == elusivTxs[i + 1..] && viewed[i..][1..] == viewed[i + 1..];
      PrependConcat(txs, one.value, ConvertFrom(elusivTxs[i + 1..], viewed[i + 1..]));
      txs := txs + one.value;
    }
    assert txs + [] == txs;
    assert whole == Ok(txs);
    if |txs| == 0 {
      return Err(InvalidTxType);
    }
    return Ok(txs);
  }

  /** One turn of the loop of `txResponseToElusivTxs`: what it pushes for response `i`, and the flag it sets. */
  method ConvertAt(elusivTxs: seq<Response>, viewed: array<bool>, i: nat) returns (r: Result<seq<ElusivTx>>)
    requires i < |elusivTxs| == viewed.Length
    modifies viewed
    ensures var one := ConvertOne(elusivTxs[i..], old(viewed[i..]));
            if r.Ok? then one == Ok((r.value, viewed[i..])) else one == Err(r.error)
  {
    ghost var flags := viewed[i..];
    var pushed: seq<ElusivTx> := [];
    if !viewed[i] {
      var elusivTx := elusivTxs[i];
      if elusivTx.isStore {
        pushed := [StoreTx(elusivTx)];
      }
      if elusivTx.finalize.Some? {
        var j := FindInitPartner(elusivTxs, i, elusivTx.finalize.value);
        if j == None {
          return Err(InitNotFound);
        }
        viewed[j.value] := true;
        assert viewed[i..] == flags[j.value - i := true];
        pushed := pushed + [SendTx([elusivTx, elusivTxs[j.value]])];
      }
      if elusivTx.init.Some? {
        pushed := pushed + [SendTx([elusivTx])];
      } else {
        assert pushed == pushed + [];
      }
    }
    return Ok(pushed);
  }

  /** The inner loop of `txResponseToElusivTxs`: the next init down the log, from `i` on, with this account. */
  method FindInitPartner(elusivTxs: seq<Response>, i: nat, acc: Account) returns (r: Option<nat>)
    requires i <= |elusivTxs|
    ensures r.None? <==> FirstInit(elusivTxs[i..], acc).None?
    ensures r.Some? ==> i <= r.value < |elusivTxs| && FirstInit(elusivTxs[i..], acc) == Some(r.value - i)
  {
    ghost var first := FirstInit(elusivTxs[i..], acc);
    assert forall k :: 0 <= k < |elusivTxs| - i ==> elusivTxs[i..][k] == elusivTxs[i + k];
    for j := i to |elusivTxs|
      invariant forall k :: i <= k < j ==> elusivTxs[k].init != Some(acc)
    {
      if elusivTxs[j].init == Some(acc) {
        assert elusivTxs[i..][j - i] == elusivTxs[j];
        return Some(j);
      }
    }
    return None;
  }

  ghost function Prepend(txs: seq<ElusivTx>, r: Result<seq<ElusivTx>>): Result<seq<ElusivTx>> {
    match r case Err(e) => Err(e) case Ok(rest) => Ok(txs + rest)
  }

  lemma PrependConcat(a: seq<ElusivTx>, b: seq<ElusivTx>, r: Result<seq<ElusivTx>>)
    ensures Prepend(a + b, r) == Prepend(a, Prepend(b, r))
  {
    if r.Ok? { assert a + b + r.value == a + (b + r.value); }
  }

  // ---------------------------------------------------------------- finalizes without an init

  /** The response at `p` finalizes an account that no response from `p` on down the log took. */
  ghost predicate OrphanAt(log: seq<Response>, p: nat) {
    p < |log| && log[p].finalize.Some? && forall k :: p <= k < |log| ==> log[k].init != log[p].finalize
  }

  ghost predicate HasOrphan(log: seq<Response>) { exists p: nat :: OrphanAt(log, p) }

  /** No response holds an init and a finalize. */
  ghost predicate Apart(log: seq<Response>) {
    forall p :: 0 <= p < |log| ==> log[p].init.None? || log[p].finalize.None?
  }

  lemma OrphanSplit(r: Response, rest: seq<Response>)
    ensures HasOrphan([r] + rest) <==> OrphanAt([r] + rest, 0) || HasOrphan(rest)
  {
    var log := [r] + rest;
    assert forall p :: 0 <= p < |rest| ==> log[p + 1] == rest[p];
    if HasOrphan(log) {
      var p: nat :| OrphanAt(log, p);
      if p > 0 { assert OrphanAt(rest, p - 1); }
    }
    if HasOrphan(rest) {
      var p: nat :| OrphanAt(rest, p);
      assert OrphanAt(log, p + 1);
    }
  }

  lemma OrphanHead(r: Response, rest: seq<Response>)
    ensures OrphanAt([r] + rest, 0)
            <==> r.finalize.Some? && r.init != r.finalize && forall x :: x in rest ==> x.init != r.finalize
  {
    var log := [r] + rest;
    assert log[0] == r && forall k :: 0 <= k < |rest| ==> log[k + 1] == rest[k];
    if OrphanAt(log, 0) {
      forall x | x in rest
        ensures x.init != r.finalize
      {
        var k :| 0 <= k < |rest| && rest[k] == x;
        assert log[k + 1] == x;
      }
    }
  }

  /** No flagged response is a finalize. */
  ghost predicate OnlyInitsViewed(log: seq<Response>, viewed: seq<bool>) {
    |log| == |viewed| && forall p :: 0 <= p < |log| && viewed[p] ==> log[p].finalize.None?
  }

  lemma ConvertOneFails(log: seq<Response>, viewed: seq<bool>)
    requires |log| == |viewed| > 0
    ensures ConvertOne(log, viewed) == Err(InitNotFound) <==> !viewed[0] && OrphanAt(log, 0)
    ensures ConvertOne(log, viewed).Err? ==> ConvertOne(log, viewed) == Err(InitNotFound)
    ensures ConvertOne(log, viewed).Ok? ==> |ConvertOne(log, viewed).value.1| == |log|
    ensures OnlyInitsViewed(log, viewed) && Apart(log) && ConvertOne(log, viewed).Ok?
            ==> OnlyInitsViewed(log, ConvertOne(log, viewed).value.1)
  {
  }

  /** The loop fails only at an orphan; when no response holds both an init and a finalize, at every orphan. */
  lemma {:induction false} ConvertFromFails(log: seq<Response>, viewed: seq<bool>)
    requires |log| == |viewed|
    ensures ConvertFrom(log, viewed).Err? ==> ConvertFrom(log, viewed) == Err(InitNotFound) && HasOrphan(log)
    ensures OnlyInitsViewed(log, viewed) && Apart(log) && HasOrphan(log) ==> ConvertFrom(log, viewed).Err?
    decreases |log|
  {
    if log != [] {
      ConvertOneFails(log, viewed);
      assert log == [log[0]] + log[1..];
      OrphanSplit(log[0], log[1..]);
      var one := ConvertOne(log, viewed);
      if one.Ok? {
        ConvertFromFails(log[1..], one.value.1[1..]);
      }
    }
  }

  lemma {:induction false} OrphansAreElusiv(log: seq<Response>)
    ensures HasOrphan(ElusivTxs(log)) <==> HasOrphan(log)
    ensures Apart(log) ==> Apart(ElusivTxs(log))
  {
    if log != [] {
      var rest := log[1..];
      OrphansAreElusiv(rest);
      assert log == [log[0]] + rest;
      OrphanSplit(log[0], rest);
      OrphanSplit(log[0], ElusivTxs(rest));
      if log[0].finalize.Some? { InitsAreElusiv(rest, log[0].finalize); }
      if IsElusivTx(log[0]) {
        OrphanHead(log[0], rest);
        OrphanHead(log[0], ElusivTxs(rest));
      } else {
        assert ElusivTxs(log) == ElusivTxs(rest);
      }
    }
  }

  lemma {:induction false} InitsAreElusiv(log: seq<Response>, acc: Option<Account>)
    requires acc.Some?
    ensures (forall r :: r in log ==> r.init != acc) <==> forall r :: r in ElusivTxs(log) ==> r.init != acc
  {
    if log != [] { InitsAreElusiv(log[1..], acc); }
  }

  /**
   On any log whatever: the converter reports a missing init only if some finalize has no init of its account at or
   below it, and, when no response holds both, whenever one has none.
   */
  lemma InitNotFoundExactly(log: seq<Response>)
    ensures Convert(log) == Err(InitNotFound) ==> HasOrphan(log)
    ensures Apart(log) ==> (Convert(log) == Err(InitNotFound) <==> HasOrphan(log))
  {
    var elusivTxs := ElusivTxs(log);
    OrphansAreElusiv(log);
    ConvertFromFails(elusivTxs, NoneViewed(|elusivTxs|));
  }

  // ---------------------------------------------------------------- the chain behind the log

  type Identifier = nat

  datatype Kind = Store | Init(acc: Account) | Finalize(acc: Account) | Other

  /** One transaction of the run, of whatever identifier. */
  datatype Event = Event(id: Identifier, kind: Kind)

  /** Which init (by position in the run) holds each verification account after the first `n` events. */
  function Held(run: seq<Event>, n: nat): map<Account, nat>
    requires n <= |run|
  {
    if n == 0 then map[]
    else
      var before := Held(run, n - 1);
      match run[n - 1].kind
      case Init(acc) => before[acc := n - 1]
      case Finalize(acc) => before - {acc}
      case _ => before
  }

  /** Init number `h` took `acc`, and nothing between it and `n` took it again or gave it back. */
  ghost predicate TookLast(run: seq<Event>, n: nat, acc: Account, h: nat) {
    && h < n <= |run| && run[h].kind == Init(acc)
    && forall k :: h < k < n ==> run[k].kind != Init(acc) && run[k].kind != Finalize(acc)
  }

  /** On any run: an account is held exactly by the init that took it last, if nothing gave it back since. */
  lemma {:induction false} HeldExactly(run: seq<Event>, n: nat, acc: Account, h: nat)
    requires n <= |run|
    ensures acc in Held(run, n) && Held(run, n)[acc] == h <==> TookLast(run, n, acc, h)
  {
    if n > 0 {
      HeldExactly(run, n - 1, acc, h);
      var kind := run[n - 1].kind;
      if h < n - 1 && kind != Init(acc) && kind != Finalize(acc) {
        assert TookLast(run, n, acc, h) <==> TookLast(run, n - 1, acc, h);
      }
    }
  }

  /** An account is held from its init to its finalize: mutual exclusion over all identifiers. */
  ghost predicate ValidRun(run: seq<Event>) {
    forall k :: 0 <= k < |run| ==> ValidEvent(run, k)
  }

  ghost predicate ValidEvent(run: seq<Event>, k: nat)
    requires k < |run|
  {
    match run[k].kind
    case Init(acc) => acc !in Held(run, k)
    case Finalize(acc) => acc in Held(run, k) && Held(run, k)[acc] < k && run[Held(run, k)[acc]].id == run[k].id
    case _ => true
  }

  function ResponseOf(e: Event, sig: nat): Response {
    match e.kind
    case Store => Response(sig, true, None, None)
    case Init(acc) => Response(sig, false, None, Some(acc))
    case Finalize(acc) => Response(sig, false, Some(acc), None)
    case Other => Response(sig, false, None, None)
  }

  /** What the RPC node returns for an identifier: its transactions, newest first. */
  function LogOf(run: seq<Event>, id: Identifier, n: nat): seq<Response>
    requires n <= |run|
  {
    if n == 0 then []
    else (if run[n - 1].id == id then [ResponseOf(run[n - 1], n - 1)] else []) + LogOf(run, id, n - 1)
  }

  /** Init number `h` was finalized by an event in [from, to). */
  ghost predicate Finalized(run: seq<Event>, h: nat, from: nat, to: nat)
    requires to <= |run|
  {
    exists k :: from <= k < to && FinalizedBy(run, h, k)
  }

  ghost predicate FinalizedBy(run: seq<Event>, h: nat, k: nat)
    requires k < |run|
  {
    run[k].kind.Finalize? && run[k].kind.acc in Held(run, k) && Held(run, k)[run[k].kind.acc] == h
  }

  /**
   What the converter should build, read off the run itself: one transaction per store, one of two
   parts per finalize with the init that holds its account, one of one part per init that was never
   finalized.
   */
  ghost function Expected(run: seq<Event>, id: Identifier, n: nat): seq<ElusivTx>
    requires ValidRun(run) && n <= |run|
  {
    if n == 0 then []
    else (if run[n - 1].id == id then ExpectedFor(run, n - 1) else []) + Expected(run, id, n - 1)
  }

  ghost function ExpectedFor(run: seq<Event>, k: nat): seq<ElusivTx>
    requires ValidRun(run) && k < |run|
  {
    var r := ResponseOf(run[k], k);
    match run[k].kind
    case Store => [StoreTx(r)]
    case Init(acc) => if Finalized(run, k, k, |run|) then [] else [SendTx([r])]
    case Finalize(acc) =>
      assert ValidEvent(run, k);
      var h := Held(run, k)[acc];
      [SendTx([r, ResponseOf(run[h], h)])]
    case Other => []
  }

  /** Whoever holds an account took it with an init, and no init for that account came after. */
  lemma {:induction false} HolderIsLastInit(run: seq<Event>, n: nat, acc: Account)
    requires ValidRun(run) && n <= |run| && acc in Held(run, n)
    ensures var h := Held(run, n)[acc];
            && h < n && run[h].kind == Init(acc)
            && forall k :: h < k < n ==> run[k].kind != Init(acc) && run[k].kind != Finalize(acc)
  {
    var k := n - 1;
    assert ValidEvent(run, k);
    if run[k].kind != Init(acc) {
      HolderIsLastInit(run, k, acc);
    }
  }

  ghost predicate Visible(e: Event, id: Identifier) { e.id == id && e.kind != Other }

  /** The part of the log the pairing loop sees. */
  ghost function ElusivLog(run: seq<Event>, id: Identifier, n: nat): seq<Response>
    requires n <= |run|
  {
    if n == 0 then []
    else (if Visible(run[n - 1], id) then [ResponseOf(run[n - 1], n - 1)] else []) + ElusivLog(run, id, n - 1)
  }

  lemma {:induction false} ElusivLogOf(run: seq<Event>, id: Identifier, n: nat)
    requires n <= |run|
    ensures ElusivTxs(LogOf(run, id, n)) == ElusivLog(run, id, n)
  {
    if n > 0 {
      ElusivLogOf(run, id, n - 1);
      var log := LogOf(run, id, n);
      if run[n - 1].id == id {
        assert log[1..] == LogOf(run, id, n - 1);
      } else {
        assert log == LogOf(run, id, n - 1);
      }
    }
  }

  /** The log lists visible events before `n`, each as its own response. */
  ghost predicate Lists(run: seq<Event>, id: Identifier, n: nat, r: Response) {
    r.sig < n <= |run| && Visible(run[r.sig], id) && r == ResponseOf(run[r.sig], r.sig)
  }

  ghost predicate Descending(log: seq<Response>) {
    forall p, q :: 0 <= p < q < |log| ==> log[p].sig > log[q].sig
  }

  /** The log lists the visible events, newest first. */
  lemma {:induction false} ElusivLogEntries(run: seq<Event>, id: Identifier, n: nat)
    requires n <= |run|
    ensures forall r :: r in ElusivLog(run, id, n) ==> Lists(run, id, n, r)
    ensures Descending(ElusivLog(run, id, n))
  {
    if n > 0 {
      ElusivLogEntries(run, id, n - 1);
      var log, rest := ElusivLog(run, id, n), ElusivLog(run, id, n - 1);
      if Visible(run[n - 1], id) {
        PrependDescending(ResponseOf(run[n - 1], n - 1), rest);
      } else {
        assert log == rest;
      }
    }
  }

  lemma PrependDescending(r: Response, rest: seq<Response>)
    requires Descending(rest) && forall x :: x in rest ==> x.sig < r.sig
    ensures Descending([r] + rest)
  {
    assert forall p :: 0 <= p < |rest| ==> rest[p] in rest;
  }

  /** Going down the log from event `n`, the first init for a held account is the holder's. */
  lemma {:induction false} FirstInitIsHolder(run: seq<Event>, id: Identifier, n: nat, acc: Account, h: nat)
    requires h < n <= |run| && run[h] == Event(id, Init(acc))
    requires forall k :: h < k < n ==> run[k].kind != Init(acc)
    ensures var log := ElusivLog(run, id, n);
            var j := FirstInit(log, acc);
            j.Some? && log[j.value] == ResponseOf(run[h], h)
  {
    var log := ElusivLog(run, id, n);
    if n - 1 != h {
      FirstInitIsHolder(run, id, n - 1, acc, h);
      if Visible(run[n - 1], id) {
        assert log[1..] == ElusivLog(run, id, n - 1);
      } else {
        assert log == ElusivLog(run, id, n - 1);
      }
    }
  }

  /** Only inits are ever finalized, and by an event of their own identifier. */
  lemma FinalizedIsInit(run: seq<Event>, h: nat, k: nat)
    requires ValidRun(run) && k < |run| && FinalizedBy(run, h, k)
    ensures h < k && run[h] == Event(run[k].id, Init(run[k].kind.acc))
  {
    assert ValidEvent(run, k);
    HolderIsLastInit(run, k, run[k].kind.acc);
  }

  /** An init is finalized once at most. */
  lemma FinalizedOnce(run: seq<Event>, h: nat, k1: nat, k2: nat)
    requires ValidRun(run) && k1 < k2 < |run| && FinalizedBy(run, h, k1)
    ensures !FinalizedBy(run, h, k2)
  {
    if FinalizedBy(run, h, k2) {
      HolderIsLastInit(run, k1, run[k1].kind.acc);
      HolderIsLastInit(run, k2, run[k2].kind.acc);
    }
  }

  /** The flags the loop should have when it has reached event `n`: the inits finalized from there on. */
  ghost predicate Flags(run: seq<Event>, n: nat, log: seq<Response>, viewed: seq<bool>)
    requires n <= |run|
  {
    |log| == |viewed| && forall p :: 0 <= p < |log| ==> (viewed[p] <==> Finalized(run, log[p].sig, n, |run|))
  }

  lemma FinalizedSplit(run: seq<Event>, h: nat, n: nat)
    requires 0 < n <= |run|
    ensures Finalized(run, h, n - 1, |run|) <==> Finalized(run, h, n, |run|) || FinalizedBy(run, h, n - 1)
  {
    if Finalized(run, h, n - 1, |run|) {
      var k :| n - 1 <= k < |run| && FinalizedBy(run, h, k);
    }
  }

  /** An event that finalizes nothing in the log leaves the flags as they are. */
  lemma FlagsUnchanged(run: seq<Event>, n: nat, log: seq<Response>, viewed: seq<bool>)
    requires ValidRun(run) && 0 < n <= |run| && Flags(run, n, log, viewed)
    requires forall p :: 0 <= p < |log| ==> !FinalizedBy(run, log[p].sig, n - 1)
    ensures Flags(run, n - 1, log, viewed)
  {
    forall p | 0 <= p < |log|
      ensures viewed[p] <==> Finalized(run, log[p].sig, n - 1, |run|)
    {
      FinalizedSplit(run, log[p].sig, n);
    }
  }

  /** A finalize is not flagged, finds its own init, and flags it. */
  lemma FinalizeStep(run: seq<Event>, id: Identifier, n: nat, viewed: seq<bool>) returns (viewed': seq<bool>)
    requires ValidRun(run) && 0 < n <= |run| && Visible(run[n - 1], id) && run[n - 1].kind.Finalize?
    requires Flags(run, n, ElusivLog(run, id, n), viewed) && !viewed[0]
    ensures ConvertOne(ElusivLog(run, id, n), viewed) == Ok((ExpectedFor(run, n - 1), viewed'))
    ensures Flags(run, n - 1, ElusivLog(run, id, n - 1), viewed'[1..])
  {
    var k, log, rest := n - 1, ElusivLog(run, id, n), ElusivLog(run, id, n - 1);
    var acc := run[k].kind.acc;
    assert ValidEvent(run, k);
    var h := Held(run, k)[acc];
    ElusivLogEntries(run, id, n);
    HolderIsLastInit(run, k, acc);
    FirstInitIsHolder(run, id, n, acc, h);
    var j := FirstInit(log, acc).value;
    viewed' := viewed[j := true];
    assert [] + [SendTx([log[0], log[j]])] + [] == ExpectedFor(run, k);
    forall p | 0 <= p < |rest|
      ensures viewed'[1..][p] <==> Finalized(run, rest[p].sig, k, |run|)
    {
      assert rest[p] == log[p + 1];
      FinalizedSplit(run, rest[p].sig, n);
      assert p + 1 != j ==> log[p + 1].sig != log[j].sig;
    }
  }

  /** One visible event: the loop pushes what is expected for it and keeps the flags right. */
  lemma ConvertOneStep(run: seq<Event>, id: Identifier, n: nat, viewed: seq<bool>) returns (viewed': seq<bool>)
    requires ValidRun(run) && 0 < n <= |run| && Visible(run[n - 1], id)
    requires Flags(run, n, ElusivLog(run, id, n), viewed)
    ensures |ElusivLog(run, id, n)| > 0
    ensures ConvertOne(ElusivLog(run, id, n), viewed) == Ok((ExpectedFor(run, n - 1), viewed'))
    ensures Flags(run, n - 1, ElusivLog(run, id, n - 1), viewed'[1..])
  {
    var k, log, rest := n - 1, ElusivLog(run, id, n), ElusivLog(run, id, n - 1);
    assert log[0] == ResponseOf(run[k], k) && log[1..] == rest;
    FinalizedSplit(run, k, n);
    if Finalized(run, k, n, |run|) {
      var later :| n <= later < |run| && FinalizedBy(run, k, later);
      FinalizedIsInit(run, k, later);
    }
    if run[k].kind.Finalize? {
      viewed' := FinalizeStep(run, id, n, viewed);
    } else {
      viewed' := viewed;
      assert forall p :: 0 <= p < |rest| ==> rest[p] == log[p + 1];
      FlagsUnchanged(run, n, rest, viewed[1..]);
      assert [] + [SendTx([log[0]])] == [SendTx([log[0]])] && [StoreTx(log[0])] + [] == [StoreTx(log[0])];
    }
  }

  /** The pairing loop, started anywhere in the log with the right flags, builds what is expected. */
  lemma {:induction false} ConvertFromExpected(run: seq<Event>, id: Identifier, n: nat, viewed: seq<bool>)
    requires ValidRun(run) && n <= |run| && Flags(run, n, ElusivLog(run, id, n), viewed)
    ensures ConvertFrom(ElusivLog(run, id, n), viewed) == Ok(Expected(run, id, n))
  {
    if n > 0 {
      if Visible(run[n - 1], id) {
        var viewed' := ConvertOneStep(run, id, n, viewed);
        ConvertFromExpected(run, id, n - 1, viewed'[1..]);
        assert ElusivLog(run, id, n)[1..] == ElusivLog(run, id, n - 1);
      } else {
        var log := ElusivLog(run, id, n - 1);
        assert ElusivLog(run, id, n) == log;
        ElusivLogEntries(run, id, n - 1);
        forall p | 0 <= p < |log|
          ensures !FinalizedBy(run, log[p].sig, n - 1)
        {
          assert log[p] in log;
          if FinalizedBy(run, log[p].sig, n - 1) { FinalizedIsInit(run, log[p].sig, n - 1); }
        }
        FlagsUnchanged(run, n, log, viewed);
        ConvertFromExpected(run, id, n - 1, viewed);
        assert Expected(run, id, n) == Expected(run, id, n - 1);
      }
    }
  }

  /** The store or init a built transaction stands for. */
  function Anchor(t: ElusivTx): nat {
    match t
    case StoreTx(r) => r.sig
    case SendTx(parts) => if parts == [] then 0 else parts[|parts| - 1].sig
  }

  /** `t` is the transaction for the store or init at position `p`, two-part exactly when it was finalized. */
  ghost predicate StandsFor(run: seq<Event>, id: Identifier, t: ElusivTx, p: nat) {
    && p < |run| && run[p].id == id
    && match run[p].kind
       case Store => t == StoreTx(ResponseOf(run[p], p))
       case Init(_) =>
         if Finalized(run, p, 0, |run|)
         then exists k :: 0 <= k < |run| && FinalizedBy(run, p, k)
                          && t == SendTx([ResponseOf(run[k], k), ResponseOf(run[p], p)])
         else t == SendTx([ResponseOf(run[p], p)])
       case _ => false
  }

  lemma FinalizedFrom(run: seq<Event>, p: nat, n: nat)
    requires ValidRun(run) && p <= n <= |run| && (forall k :: p <= k < n ==> !FinalizedBy(run, p, k))
    ensures Finalized(run, p, 0, |run|) <==> Finalized(run, p, n, |run|)
  {
    if Finalized(run, p, 0, |run|) {
      var k :| 0 <= k < |run| && FinalizedBy(run, p, k);
      FinalizedIsInit(run, p, k);
    }
  }

  lemma ExpectedForStands(run: seq<Event>, k: nat)
    requires ValidRun(run) && k < |run|
    ensures |ExpectedFor(run, k)| <= 1
    ensures forall t :: t in ExpectedFor(run, k) ==>
              && Anchor(t) <= k && StandsFor(run, run[k].id, t, Anchor(t))
              && (Anchor(t) == k || FinalizedBy(run, Anchor(t), k))
  {
    assert ValidEvent(run, k);
    match run[k].kind {
      case Init(acc) => FinalizedFrom(run, k, k);
      case Finalize(acc) =>
        var h := Held(run, k)[acc];
        assert FinalizedBy(run, h, k);
        FinalizedIsInit(run, h, k);
        assert Finalized(run, h, 0, |run|);
      case _ =>
    }
  }

  /** Two different events never lead to transactions for the same store or init. */
  lemma AnchorsDiffer(run: seq<Event>, k1: nat, k2: nat, t1: ElusivTx, t2: ElusivTx)
    requires ValidRun(run) && k1 < k2 < |run| && t1 in ExpectedFor(run, k1) && t2 in ExpectedFor(run, k2)
    ensures Anchor(t1) != Anchor(t2)
  {
    ExpectedForStands(run, k1);
    ExpectedForStands(run, k2);
    var p := Anchor(t2);
    if Anchor(t1) == p && p != k2 {
      FinalizedIsInit(run, p, k2);
      if p == k1 {
        assert Finalized(run, p, k1, |run|);
      } else {
        FinalizedOnce(run, p, k1, k2);
      }
    }
  }

  lemma {:induction false} ExpectedStands(run: seq<Event>, id: Identifier, n: nat)
    requires ValidRun(run) && n <= |run|
    ensures forall t :: t in Expected(run, id, n) ==> StandsFor(run, id, t, Anchor(t))
    ensures forall t :: t in Expected(run, id, n) ==> exists k :: 0 <= k < n && t in ExpectedFor(run, k)
    ensures forall i, j :: 0 <= i < j < |Expected(run, id, n)| ==>
              Anchor(Expected(run, id, n)[i]) != Anchor(Expected(run, id, n)[j])
  {
    if n > 0 {
      ExpectedStands(run, id, n - 1);
      ExpectedForStands(run, n - 1);
      var rest := Expected(run, id, n - 1);
      forall t1, t2 | t1 in rest && t2 in ExpectedFor(run, n - 1)
        ensures Anchor(t1) != Anchor(t2)
      {
        var k :| 0 <= k < n - 1 && t1 in ExpectedFor(run, k);
        AnchorsDiffer(run, k, n - 1, t1, t2);
      }
    }
  }

  lemma {:induction false} ExpectedContains(run: seq<Event>, id: Identifier, n: nat, k: nat, t: ElusivTx)
    requires ValidRun(run) && k < n <= |run| && run[k].id == id && t in ExpectedFor(run, k)
    ensures t in Expected(run, id, n)
  {
    if k < n - 1 { ExpectedContains(run, id, n - 1, k, t); }
  }

  ghost predicate StoreOrInit(e: Event, id: Identifier) { e.id == id && (e.kind.Store? || e.kind.Init?) }

  /** Every store and every init has a transaction that stands for it. */
  lemma ExpectedCovers(run: seq<Event>, id: Identifier, p: nat) returns (t: ElusivTx)
    requires ValidRun(run) && p < |run| && StoreOrInit(run[p], id)
    ensures t in Expected(run, id, |run|) && Anchor(t) == p
  {
    if Finalized(run, p, p, |run|) {
      var k :| p <= k < |run| && FinalizedBy(run, p, k);
      FinalizedIsInit(run, p, k);
      assert ValidEvent(run, k);
      t := ExpectedFor(run, k)[0];
      ExpectedContains(run, id, |run|, k, t);
    } else {
      assert ValidEvent(run, p);
      t := ExpectedFor(run, p)[0];
      ExpectedContains(run, id, |run|, p, t);
    }
  }

  /** `out` holds exactly one transaction for each store and each init of the identifier, and nothing else. */
  ghost predicate OnePerStoreAndInit(run: seq<Event>, id: Identifier, out: seq<ElusivTx>) {
    && (forall t :: t in out ==> StandsFor(run, id, t, Anchor(t)))
    && (forall i, j :: 0 <= i < j < |out| ==> Anchor(out[i]) != Anchor(out[j]))
    && (forall p :: 0 <= p < |run| && StoreOrInit(run[p], id) ==> exists i :: 0 <= i < |out| && Anchor(out[i]) == p)
  }

  /**
   For every run in which an account is held from its init to its finalize, and whatever the other
   identifiers do in between: the converter throws only when the log is empty or holds no Elusiv
   transaction, and otherwise builds exactly one transaction per store and per init, which has two
   parts, its own finalize and itself, exactly when the init was finalized.
   */
  lemma PairingIsCorrect(run: seq<Event>, id: Identifier)
    requires ValidRun(run)
    ensures var log := LogOf(run, id, |run|);
            var out := Expected(run, id, |run|);
            && OnePerStoreAndInit(run, id, out)
            && Convert(log) == if log == [] then Err(EmptyResponse)
                               else if (forall k :: 0 <= k < |run| ==> !Visible(run[k], id)) then Err(InvalidTxType)
                               else Ok(out)
  {
    var n, log, out := |run|, LogOf(run, id, |run|), Expected(run, id, |run|);
    ExpectedStands(run, id, n);
    forall p | 0 <= p < n && StoreOrInit(run[p], id)
      ensures exists i :: 0 <= i < |out| && Anchor(out[i]) == p
    {
      var t := ExpectedCovers(run, id, p);
    }
    ConvertLog(run, id);
    if exists k :: 0 <= k < n && Visible(run[k], id) {
      var k :| 0 <= k < n && Visible(run[k], id);
      assert ValidEvent(run, k);
      var p := if run[k].kind.Finalize? then Held(run, k)[run[k].kind.acc] else k;
      if run[k].kind.Finalize? {
        HolderIsLastInit(run, k, run[k].kind.acc);
      }
      var t := ExpectedCovers(run, id, p);
      LogNotEmpty(run, id, n, k);
    } else {
      NothingExpected(run, id, n);
    }
  }

  lemma ConvertLog(run: seq<Event>, id: Identifier)
    requires ValidRun(run)
    ensures var log, out := LogOf(run, id, |run|), Expected(run, id, |run|);
            Convert(log) == if log == [] then Err(EmptyResponse) else if out == [] then Err(InvalidTxType) else Ok(out)
  {
    ElusivLogOf(run, id, |run|);
    ConvertFromExpected(run, id, |run|, NoneViewed(|ElusivLog(run, id, |run|)|));
  }

  lemma {:induction false} NothingExpected(run: seq<Event>, id: Identifier, n: nat)
    requires ValidRun(run) && n <= |run| && forall k :: 0 <= k < n ==> !Visible(run[k], id)
    ensures Expected(run, id, n) == []
  {
    if n > 0 { NothingExpected(run, id, n - 1); }
  }

  lemma {:induction false} LogNotEmpty(run: seq<Event>, id: Identifier, n: nat, k: nat)
    requires k < n <= |run| && run[k].id == id
    ensures LogOf(run, id, n) != []
  {
    if k < n - 1 { LogNotEmpty(run, id, n - 1, k); }
  }
}
