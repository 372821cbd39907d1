/**
 The private ledger as values: what is on chain, its history newest first, pages of that history, and
 the two ways to read a balance off it (src/sdk/txManagers/TransactionManager.ts).
 */
module Ledger {
  import opened Common

  const MAX_UINT32: nat := 4_294_967_295
  const SEND_ARITY: nat := 4

  type Token = nat

  datatype TxType = Topup | Send

  /**
   What a commitment hash commits to. The nullifier is derived from the nonce, so the four fields
   stand for the hash: hashes are taken to be equal only for equal contents.
   */
  datatype Commitment = Commitment(nonce: nat, balance: int, token: Token, startIndex: nat)

  /**
   One Elusiv transaction as parsed from the chain. The decrypted metadata of a send is itself the
   contents of its commitment; sends from before metadata existed have none.
   */
  datatype Tx = Tx(
    txType: TxType,
    nonce: nat,
    token: Token,
    amount: nat,
    fee: nat,
    startIndex: nat,
    commitment: Commitment,
    metadata: Option<Commitment>,
    sig: nat)

  /** The transactions on chain by nonce. Several can share a nonce. */
  type Chain = seq<seq<Tx>>

  /** Nonces are used without gaps and fit 32 bits. */
  ghost predicate Contiguous(chain: Chain) {
    |chain| <= MAX_UINT32 && forall n :: 0 <= n < |chain| ==> SlotOfNonce(chain[n], n)
  }

  ghost predicate SlotOfNonce(slot: seq<Tx>, n: nat) { slot != [] && forall t :: t in slot ==> t.nonce == n }

  /** In addition the transactions of a nonce commit to different things. */
  ghost predicate ValidChain(chain: Chain) {
    |chain| <= MAX_UINT32 && forall n :: 0 <= n < |chain| ==> ValidSlot(chain[n], n)
  }

  ghost predicate ValidSlot(slot: seq<Tx>, n: nat) {
    SlotOfNonce(slot, n) && forall i, j :: 0 <= i < j < |slot| ==> slot[i].commitment != slot[j].commitment
  }

  // ---------------------------------------------------------------- history

  function Reverse(s: seq<Tx>): (r: seq<Tx>)
    ensures |r| == |s|
    ensures forall t :: t in r <==> t in s
  {
    if s == [] then [] else Reverse(s[1..]) + [s[0]]
  }

  /** Transactions with nonces in [lo, hi), newest nonce first. */
  function Between(chain: Chain, lo: nat, hi: nat): seq<Tx>
    requires hi <= |chain|
  {
    if hi <= lo then [] else Reverse(chain[hi - 1]) + Between(chain, lo, hi - 1)
  }

  /** Everything before nonce `n`, newest first. */
  function History(chain: Chain, n: nat): seq<Tx>
    requires n <= |chain|
  {
    Between(chain, 0, n)
  }

  /** A `before` argument as the number of nonces it leaves; `undefined` leaves all. */
  function Clip(chain: Chain, before: Option<int>): (n: nat)
    ensures n <= |chain|
  {
    match before
    case None => |chain|
    case Some(b) => if b < 0 then 0 else if b > |chain| then |chain| else b
  }

  predicate Matches(t: Tx, token: Option<Token>) { token.None? || t.token == token.value }

  function Filter(txs: seq<Tx>, token: Option<Token>): seq<Tx> {
    if txs == [] then []
    else if Matches(txs[0], token) then [txs[0]] + Filter(txs[1..], token)
    else Filter(txs[1..], token)
  }

  /** The history of one token, or of all. */
  function TokenHistory(chain: Chain, token: Option<Token>, n: nat): seq<Tx>
    requires n <= |chain|
  {
    Filter(History(chain, n), token)
  }

  ghost predicate Descending(txs: seq<Tx>) {
    forall i, j :: 0 <= i < j < |txs| ==> txs[i].nonce >= txs[j].nonce
  }

  ghost predicate AllBelow(txs: seq<Tx>, n: int) { forall t :: t in txs ==> t.nonce < n }

  ghost predicate AllFrom(txs: seq<Tx>, n: int) { forall t :: t in txs ==> t.nonce >= n }

  lemma {:induction false} BetweenBounds(chain: Chain, lo: nat, hi: nat)
    requires ValidChain(chain) && hi <= |chain|
    ensures AllBelow(Between(chain, lo, hi), hi) && AllFrom(Between(chain, lo, hi), lo)
    ensures Descending(Between(chain, lo, hi))
    ensures |Between(chain, lo, hi)| >= hi - lo
  {
    if lo < hi {
      BetweenBounds(chain, lo, hi - 1);
      assert ValidSlot(chain[hi - 1], hi - 1);
      DescendingConcat(Reverse(chain[hi - 1]), Between(chain, lo, hi - 1), hi - 1);
    }
  }

  lemma DescendingConcat(a: seq<Tx>, b: seq<Tx>, n: nat)
    requires (forall t :: t in a ==> t.nonce == n) && Descending(b) && AllBelow(b, n)
    ensures Descending(a + b)
  {
    assert forall i :: 0 <= i < |a| ==> a[i] in a;
    assert forall i :: 0 <= i < |b| ==> b[i] in b;
  }

  lemma {:induction false} BetweenSplit(chain: Chain, lo: nat, mid: nat, hi: nat)
    requires lo <= mid <= hi <= |chain|
    ensures Between(chain, lo, hi) == Between(chain, mid, hi) + Between(chain, lo, mid)
  {
    hide Reverse;
    if mid < hi {
      BetweenSplit(chain, lo, mid, hi - 1);
      Associative(Reverse(chain[hi - 1]), Between(chain, mid, hi - 1), Between(chain, lo, mid));
    } else {
      assert Between(chain, mid, hi) == [];
    }
  }

  lemma Associative(a: seq<Tx>, b: seq<Tx>, c: seq<Tx>)
    ensures a + (b + c) == (a + b) + c
  {
  }

  lemma {:induction false} FilterConcat(a: seq<Tx>, b: seq<Tx>, token: Option<Token>)
    ensures Filter(a + b, token) == Filter(a, token) + Filter(b, token)
  {
    if a == [] {
      assert a + b == b;
    } else {
      FilterConcat(a[1..], b, token);
      assert (a + b)[0] == a[0] && (a + b)[1..] == a[1..] + b;
      assert [a[0]] + (Filter(a[1..], token) + Filter(b, token)) == [a[0]] + Filter(a[1..], token) + Filter(b, token);
    }
  }

  lemma {:induction false} FilterElements(txs: seq<Tx>, token: Option<Token>)
    ensures forall t :: t in Filter(txs, token) <==> t in txs && Matches(t, token)
    ensures Descending(txs) ==> Descending(Filter(txs, token))
  {
    if txs != [] {
      FilterElements(txs[1..], token);
      var rest := Filter(txs[1..], token);
      assert forall t :: t in txs <==> t == txs[0] || t in txs[1..];
      if Descending(txs) {
        assert Descending(txs[1..]);
        forall j | 0 <= j < |rest|
          ensures txs[0].nonce >= rest[j].nonce
        {
          assert rest[j] in txs[1..];
        }
      }
    }
  }

  lemma TokenHistoryBounds(chain: Chain, token: Option<Token>, n: nat)
    requires ValidChain(chain) && n <= |chain|
    ensures Descending(TokenHistory(chain, token, n)) && AllBelow(TokenHistory(chain, token, n), n)
    ensures forall t :: t in TokenHistory(chain, token, n) ==> Matches(t, token)
  {
    BetweenBounds(chain, 0, n);
    FilterElements(History(chain, n), token);
  }

  // ---------------------------------------------------------------- pages

  function ExtendSame(txs: seq<Tx>, m: nat): (r: nat)
    requires 0 < m <= |txs|
    ensures m <= r <= |txs|
    ensures r < |txs| ==> txs[r].nonce != txs[r - 1].nonce
    decreases |txs| - m
  {
    if m < |txs| && txs[m].nonce == txs[m - 1].nonce then ExtendSame(txs, m + 1) else m
  }

  /** How many transactions the first `count` are once the last nonce among them is taken whole. */
  function WholeLength(txs: seq<Tx>, count: nat): (r: nat)
    ensures r <= |txs| && (r >= count || r == |txs|)
    ensures 0 < r < |txs| ==> txs[r].nonce != txs[r - 1].nonce
    ensures r == 0 <==> count == 0 || txs == []
  {
    if |txs| <= count then |txs| else if count == 0 then 0 else ExtendSame(txs, count)
  }

  /** The first `count` transactions, extended to the whole of the last nonce. */
  function TakeWhole(txs: seq<Tx>, count: nat): seq<Tx> { txs[..WholeLength(txs, count)] }

  lemma {:induction false} ExtendSameStops(a: seq<Tx>, b: seq<Tx>, m: nat)
    requires 0 < m <= |a| && (b != [] ==> a[|a| - 1].nonce != b[0].nonce)
    ensures ExtendSame(a + b, m) == ExtendSame(a, m)
    decreases |a| - m
  {
    if m < |a| {
      if a[m].nonce == a[m - 1].nonce { ExtendSameStops(a, b, m + 1); }
    }
  }

  /** A page that a whole number of nonces already covers does not depend on what comes after them. */
  lemma TakeWholePrefix(a: seq<Tx>, b: seq<Tx>, count: nat)
    requires |a| >= count || b == []
    requires a != [] && b != [] ==> a[|a| - 1].nonce != b[0].nonce
    ensures TakeWhole(a + b, count) == TakeWhole(a, count)
  {
    if b == [] {
      assert a + b == a;
    } else if count > 0 {
      ExtendSameStops(a, b, count);
    }
  }

  /** What is left of a token's history after whole nonces were cut off is the history before the last of them. */
  lemma HistoryAfterPage(chain: Chain, token: Option<Token>, n: nat, m: nat)
    requires ValidChain(chain) && n <= |chain|
    requires var f := TokenHistory(chain, token, n);
             0 < m <= |f| && (m < |f| ==> f[m].nonce != f[m - 1].nonce)
    ensures var f := TokenHistory(chain, token, n);
            f[m - 1].nonce < n && f[m..] == TokenHistory(chain, token, f[m - 1].nonce)
  {
    TokenHistoryBounds(chain, token, n);
    var f := TokenHistory(chain, token, n);
    assert f[m - 1] in f;
    var low := f[m - 1].nonce;
    BetweenSplit(chain, 0, low, n);
    FilterConcat(Between(chain, low, n), History(chain, low), token);
    BetweenBounds(chain, low, n);
    FilterElements(Between(chain, low, n), token);
    TokenHistoryBounds(chain, token, low);
    CutAt(f, Filter(Between(chain, low, n), token), TokenHistory(chain, token, low), low, m);
  }

  lemma CutAt(f: seq<Tx>, a: seq<Tx>, b: seq<Tx>, low: nat, m: nat)
    requires f == a + b && Descending(f) && AllFrom(a, low) && AllBelow(b, low)
    requires 0 < m <= |f| && f[m - 1].nonce == low && (m < |f| ==> f[m].nonce != low)
    ensures f[m..] == b
  {
    assert forall i :: 0 <= i < |a| ==> a[i] in a;
    assert forall i :: 0 <= i < |b| ==> b[i] in b;
    assert |a| == m;
  }

  // ---------------------------------------------------------------- balances

  /** What a transaction does to the private balance. */
  function Signed(t: Tx): int {
    match t.txType
    case Topup => t.amount
    case Send => -(t.amount as int) - t.fee
  }

  function Balance(txs: seq<Tx>): int {
    if txs == [] then 0 else Signed(txs[0]) + Balance(txs[1..])
  }

  /** The private balance of a token over the nonces before `n`. */
  function LedgerBalance(chain: Chain, token: Token, n: nat): int
    requires n <= |chain|
  {
    Balance(TokenHistory(chain, Some(token), n))
  }

  lemma {:induction false} BalanceConcat(a: seq<Tx>, b: seq<Tx>)
    ensures Balance(a + b) == Balance(a) + Balance(b)
  {
    if a == [] {
      assert a + b == b;
    } else {
      BalanceConcat(a[1..], b);
      assert (a + b)[1..] == a[1..] + b;
    }
  }

  function AtNonce(txs: seq<Tx>, n: nat): seq<Tx> {
    if txs == [] then []
    else if txs[0].nonce == n then [txs[0]] + AtNonce(txs[1..], n)
    else AtNonce(txs[1..], n)
  }

  function BelowNonce(txs: seq<Tx>, n: nat): seq<Tx> {
    if txs == [] then []
    else if txs[0].nonce < n then [txs[0]] + BelowNonce(txs[1..], n)
    else BelowNonce(txs[1..], n)
  }

  predicate HasSend(txs: seq<Tx>) { exists i | 0 <= i < |txs| :: txs[i].txType == Send }

  function TopupSum(txs: seq<Tx>): int {
    if txs == [] then 0 else (if txs[0].txType == Topup then txs[0].amount else 0) + TopupSum(txs[1..])
  }

  /** The fast balance on the whole history: back to the newest send that carries its balance. */
  function MetadataBalance(txs: seq<Tx>, soFar: int): Result<int> {
    if txs == [] then Ok(soFar)
    else if txs[0].txType == Topup then MetadataBalance(txs[1..], soFar + txs[0].amount)
    else if txs[0].metadata.None? then MetadataBalance(txs[1..], soFar - txs[0].amount - txs[0].fee)
    else
      var sameNonce := AtNonce(txs[1..], txs[0].nonce);
      if HasSend(sameNonce) then Err(TwoSends)
      else Ok(txs[0].metadata.value.balance + soFar + TopupSum(sameNonce))
  }

  /**
   What the newest send with metadata fails to record: the balance of the nonces before it, less what it spent, less
   what it does record.
   */
  function Gap(txs: seq<Tx>): int {
    if txs == [] then 0
    else if txs[0].txType == Send && txs[0].metadata.Some? then
      Balance(BelowNonce(txs, txs[0].nonce)) - txs[0].amount - txs[0].fee - txs[0].metadata.value.balance
    else Gap(txs[1..])
  }

  /** The newest send that carries a balance is number `i`. */
  ghost predicate RecordedAt(txs: seq<Tx>, i: nat) {
    && i < |txs| && txs[i].txType == Send && txs[i].metadata.Some?
    && forall k :: 0 <= k < i ==> txs[k].txType == Topup || txs[k].metadata.None?
  }

  /** Below number `i` its nonce holds another send. */
  ghost predicate AnotherSend(txs: seq<Tx>, i: nat)
    requires i < |txs|
  {
    exists j :: i < j < |txs| && SendOf(txs[j], txs[i].nonce)
  }

  ghost predicate SendOf(t: Tx, n: nat) { t.txType == Send && t.nonce == n }

  /** The fast balance throws exactly when the newest send that carries a balance is not the only send of its nonce. */
  lemma {:induction false} TwoSendsExactly(txs: seq<Tx>, soFar: int)
    ensures MetadataBalance(txs, soFar) == Err(TwoSends) <==> exists i: nat :: RecordedAt(txs, i) && AnotherSend(txs, i)
    ensures MetadataBalance(txs, soFar).Err? ==> MetadataBalance(txs, soFar) == Err(TwoSends)
    decreases txs
  {
    if txs != [] {
      var rest := txs[1..];
      assert forall k :: 0 <= k < |rest| ==> rest[k] == txs[k + 1];
      if txs[0].txType == Send && txs[0].metadata.Some? {
        assert RecordedAt(txs, 0) && forall i: nat :: RecordedAt(txs, i) ==> i == 0;
        SendAtNonce(rest, txs[0].nonce);
        assert AnotherSend(txs, 0) <==> exists j :: 0 <= j < |rest| && SendOf(rest[j], txs[0].nonce);
      } else {
        TwoSendsExactly(rest, if txs[0].txType == Topup then soFar + txs[0].amount
                              else soFar - txs[0].amount - txs[0].fee);
        TwoSendsBehind(txs);
      }
    }
  }

  lemma SendAtNonce(txs: seq<Tx>, n: nat)
    ensures HasSend(AtNonce(txs, n)) <==> exists j :: 0 <= j < |txs| && SendOf(txs[j], n)
  {
    var same := AtNonce(txs, n);
    AtNonceElements(txs, n);
    if HasSend(same) {
      var i :| 0 <= i < |same| && same[i].txType == Send;
      assert same[i] in txs;
    }
    if j :| 0 <= j < |txs| && SendOf(txs[j], n) {
      assert txs[j] in same;
    }
  }

  lemma TwoSendsBehind(txs: seq<Tx>)
    requires txs != [] && (txs[0].txType == Topup || txs[0].metadata.None?)
    ensures (exists i: nat :: RecordedAt(txs, i) && AnotherSend(txs, i))
            <==> exists i: nat :: RecordedAt(txs[1..], i) && AnotherSend(txs[1..], i)
  {
    var rest := txs[1..];
    assert forall k :: 0 <= k < |rest| ==> rest[k] == txs[k + 1];
    if i: nat :| RecordedAt(txs, i) && AnotherSend(txs, i) {
      var j :| i < j < |txs| && SendOf(txs[j], txs[i].nonce);
      assert RecordedAt(rest, i - 1) && SendOf(rest[j - 1], rest[i - 1].nonce);
    }
    if i: nat :| RecordedAt(rest, i) && AnotherSend(rest, i) {
      var j :| i < j < |rest| && SendOf(rest[j], rest[i].nonce);
      assert RecordedAt(txs, i + 1) && SendOf(txs[j + 1], txs[i + 1].nonce);
    }
  }

  ghost predicate OneSendPerNonce(txs: seq<Tx>) {
    forall i, j :: 0 <= i < j < |txs| && txs[i].txType == Send && txs[j].txType == Send ==> txs[i].nonce != txs[j].nonce
  }

  lemma {:induction false} BelowNonceElements(txs: seq<Tx>, n: nat)
    ensures AllBelow(BelowNonce(txs, n), n) && forall t :: t in BelowNonce(txs, n) ==> t in txs
    ensures AllBelow(txs, n) ==> BelowNonce(txs, n) == txs
    ensures AllFrom(txs, n) ==> BelowNonce(txs, n) == []
  {
    if txs != [] {
      BelowNonceElements(txs[1..], n);
      assert forall t :: t in txs[1..] ==> t in txs;
      assert txs[0] in txs;
      assert txs == [txs[0]] + txs[1..];
    }
  }

  lemma {:induction false} AtNonceElements(txs: seq<Tx>, n: nat)
    ensures forall t :: t in AtNonce(txs, n) <==> t in txs && t.nonce == n
    ensures AllBelow(txs, n) ==> AtNonce(txs, n) == []
  {
    if txs != [] {
      AtNonceElements(txs[1..], n);
      assert forall t :: t in txs <==> t == txs[0] || t in txs[1..];
    }
  }

  lemma {:induction false} BelowNonceConcat(a: seq<Tx>, b: seq<Tx>, n: nat)
    ensures BelowNonce(a + b, n) == BelowNonce(a, n) + BelowNonce(b, n)
  {
    if a == [] {
      assert a + b == b;
    } else {
      BelowNonceConcat(a[1..], b, n);
      assert (a + b)[0] == a[0] && (a + b)[1..] == a[1..] + b;
      assert [a[0]] + (BelowNonce(a[1..], n) + BelowNonce(b, n)) == [a[0]] + BelowNonce(a[1..], n) + BelowNonce(b, n);
    }
  }

  lemma {:induction false} AtNonceConcat(a: seq<Tx>, b: seq<Tx>, n: nat)
    ensures AtNonce(a + b, n) == AtNonce(a, n) + AtNonce(b, n)
  {
    if a == [] {
      assert a + b == b;
    } else {
      AtNonceConcat(a[1..], b, n);
      assert (a + b)[0] == a[0] && (a + b)[1..] == a[1..] + b;
      assert [a[0]] + (AtNonce(a[1..], n) + AtNonce(b, n)) == [a[0]] + AtNonce(a[1..], n) + AtNonce(b, n);
    }
  }

  lemma {:induction false} BalanceByNonce(txs: seq<Tx>, n: nat)
    requires AllBelow(txs, n + 1)
    ensures Balance(txs) == Balance(AtNonce(txs, n)) + Balance(BelowNonce(txs, n))
  {
    if txs != [] {
      assert txs[0] in txs && forall t :: t in txs[1..] ==> t in txs;
      BalanceByNonce(txs[1..], n);
      var at, below := AtNonce(txs[1..], n), BelowNonce(txs[1..], n);
      assert ([txs[0]] + at)[1..] == at;
      assert ([txs[0]] + below)[1..] == below;
    }
  }

  lemma {:induction false} TopupsOnly(txs: seq<Tx>)
    requires !HasSend(txs)
    ensures TopupSum(txs) == Balance(txs)
  {
    if txs != [] {
      assert txs[0].txType == Topup;
      assert forall i :: 0 <= i < |txs[1..]| ==> txs[1..][i] == txs[i + 1];
      TopupsOnly(txs[1..]);
    }
  }

  lemma NoOtherSendAtNonce(txs: seq<Tx>)
    requires txs != [] && txs[0].txType == Send && OneSendPerNonce(txs)
    ensures !HasSend(AtNonce(txs[1..], txs[0].nonce))
  {
    var same := AtNonce(txs[1..], txs[0].nonce);
    AtNonceElements(txs[1..], txs[0].nonce);
    forall i | 0 <= i < |same|
      ensures same[i].txType != Send
    {
      assert same[i] in txs[1..];
      var j :| 0 <= j < |txs[1..]| && txs[1..][j] == same[i];
      assert txs[j + 1] == same[i];
    }
  }

  /** Below a send: the topups of its own nonce, and the balance of the nonces before it. */
  lemma BalanceBelowNewest(txs: seq<Tx>)
    requires txs != [] && txs[0].txType == Send && Descending(txs) && OneSendPerNonce(txs)
    ensures Balance(txs[1..])
            == TopupSum(AtNonce(txs[1..], txs[0].nonce)) + Balance(BelowNonce(txs, txs[0].nonce))
  {
    var n, rest := txs[0].nonce, txs[1..];
    NoOtherSendAtNonce(txs);
    TopupsOnly(AtNonce(rest, n));
    forall t | t in rest
      ensures t.nonce < n + 1
    {
      var j :| 0 <= j < |rest| && rest[j] == t;
      assert txs[j + 1] == t;
    }
    BalanceByNonce(rest, n);
  }

  /** The fast balance is the balance of the whole history less what the newest send with metadata fails to record. */
  lemma {:induction false} MetadataBalanceExactly(txs: seq<Tx>, soFar: int)
    requires Descending(txs) && OneSendPerNonce(txs)
    ensures MetadataBalance(txs, soFar) == Ok(soFar + Balance(txs) - Gap(txs))
  {
    if txs != [] {
      var newest := txs[0];
      if newest.txType == Send && newest.metadata.Some? {
        NoOtherSendAtNonce(txs);
        BalanceBelowNewest(txs);
      } else {
        MetadataBalanceExactly(txs[1..], soFar + Signed(newest));
      }
    }
  }

  // ---------------------------------------------------------------- active transactions

  /** Position of the newest send, or the length. */
  function NewestSend(txs: seq<Tx>): (r: nat)
    ensures r <= |txs| && (r < |txs| ==> txs[r].txType == Send)
    ensures forall k :: 0 <= k < r ==> txs[k].txType != Send
  {
    if txs == [] || txs[0].txType == Send then 0
    else
      var r := NewestSend(txs[1..]);
      assert forall k :: 1 <= k <= r ==> txs[k] == txs[1..][k - 1];
      r + 1
  }

  predicate IsLateTopup(t: Tx, nonce: nat, included: seq<Tx>) {
    t.txType == Topup && t.nonce == nonce && forall i | 0 <= i < |included| :: included[i].sig != t.sig
  }

  /** The topups of `txs` with this nonce whose signature is not among `included`. */
  function LateTopups(txs: seq<Tx>, nonce: nat, included: seq<Tx>): seq<Tx> {
    if txs == [] then []
    else if IsLateTopup(txs[0], nonce, included) then [txs[0]] + LateTopups(txs[1..], nonce, included)
    else LateTopups(txs[1..], nonce, included)
  }

  /** What `getActiveTxs` makes of the page it fetched. */
  function ActiveOf(page: seq<Tx>): seq<Tx> {
    var i := NewestSend(page);
    if i == |page| then page
    else page[..i + 1] + LateTopups(page, page[i].nonce, page[..i + 1])
  }

  /** `t` is a topup on the page with the nonce of number `i`, and signed differently from all up to there. */
  ghost predicate LateOnPage(page: seq<Tx>, i: nat, t: Tx)
    requires i < |page|
  {
    t in page && t.txType == Topup && t.nonce == page[i].nonce && forall k :: 0 <= k <= i ==> page[k].sig != t.sig
  }

  /**
   On any page, even one the chain could not give: it comes back whole if it has no send; otherwise what is above its
   newest send, that send, and behind these exactly the topups of its nonce that are not among them.
   */
  lemma ActiveExactly(page: seq<Tx>)
    ensures (forall t :: t in page ==> t.txType != Send) ==> ActiveOf(page) == page
    ensures forall i: nat :: i < |page| && page[i].txType == Send && (forall k :: 0 <= k < i ==> page[k].txType != Send)
              ==> ActiveAround(page, i, ActiveOf(page))
  {
    var newest := NewestSend(page);
    assert newest < |page| ==> page[newest] in page;
    forall i: nat | i < |page| && page[i].txType == Send && (forall k :: 0 <= k < i ==> page[k].txType != Send)
      ensures ActiveAround(page, i, ActiveOf(page))
    {
      assert newest == i;
      LateTopupsElements(page, page[i].nonce, page[..i + 1]);
      assert ActiveOf(page)[i + 1..] == LateTopups(page, page[i].nonce, page[..i + 1]);
    }
  }

  ghost predicate ActiveAround(page: seq<Tx>, i: nat, active: seq<Tx>)
    requires i < |page|
  {
    && page[..i + 1] <= active
    && forall t :: t in active[i + 1..] <==> LateOnPage(page, i, t)
  }

  lemma {:induction false} LateTopupsElements(txs: seq<Tx>, nonce: nat, included: seq<Tx>)
    ensures forall t :: t in LateTopups(txs, nonce, included)
              <==> t in txs && t.txType == Topup && t.nonce == nonce && forall u :: u in included ==> u.sig != t.sig
  {
    if txs != [] {
      LateTopupsElements(txs[1..], nonce, included);
      assert forall t :: t in txs <==> t == txs[0] || t in txs[1..];
      assert IsLateTopup(txs[0], nonce, included)
        <==> txs[0].txType == Topup && txs[0].nonce == nonce && forall u :: u in included ==> u.sig != txs[0].sig;
    }
  }

  /** `getActiveTxs` on the whole chain before nonce `n`. */
  function ActiveTxs(chain: Chain, token: Token, n: nat): seq<Tx>
    requires n <= |chain|
  {
    ActiveOf(TakeWhole(TokenHistory(chain, Some(token), n), SEND_ARITY))
  }
}
