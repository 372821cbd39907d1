# Verification of the Elusiv SDK's private ledger, tree search, pairing and fees

This project models the parts of the Elusiv SDK that decide how much private money a user has, which outputs can be
spent, where they are in the on-chain Merkle tree, and what a send costs, and proves them correct in Dafny. `dafny
verify dfyconfig.toml` checks everything.

## What is modelled

* **History, cache and balance** (`Ledger`, `TxCache`, `TransactionManager`). The chain is a sequence of nonces, each
  with its transactions. A cache class sits in front of it; the methods page backwards through it. Every method is
  proved against `Seen(chain)`, the chain as the cache shows it, whatever the cache held before and whatever other
  runs fetch meanwhile.
* **Commitments** (`CommitmentMachine`, `Topups`, `LostOutputs`, `Overfull`, `OnChain`). A chain is reachable when
  every nonce was built by the SDK from the chain before it: topups, sends with or without metadata, and merges, of
  any tokens, also several under one nonce, but for two sends of one token, which would spend the same outputs.
  However many topups come together, what the SDK sees of what it puts on chain is reachable. In every reachable chain
  the balance splits into what is unspent and what was lost, and from this it follows exactly when the fast balance,
  which stops at the newest send with metadata, is the fold over the whole history.
* **Tree search and openings** (`IndexConverter`, `Decimal`, `ChunkScan`, `SkippingScan`, `StorageSearch`,
  `TreeSearch`, `AnyStarts`, `GeneralSet`, `Openings`). The scan that jumps over start indices, the search over 25
  chunk accounts and the batched reading of openings are each compared with a plain definition, up to the theorem that
  whatever is returned with its opening hashes up to the root returned.
* **Topping up** (`FullTree`, `CrossedStarts`, `SkippedInTree`, `Activation`, `TopupEstimate`, `ServingTrees`). The
  active commitments are found in the tree, merged when there are SEND_ARITY of them, and topped up; exactly when they
  are found on every tree that holds them is proved, and the estimate of consecutive topups is compared with sending
  them.
* **From signatures to transactions** (`SigBatches`, `ResponseConverter`, `Pipeline`). A finished send is an init and
  a finalize. The log of one identifier comes from an interleaved run of all identifiers in which a verification
  account is held from its init to its finalize; fetching, pairing and parsing give back the chain.
* **Send fee** (`FeeCalculator`). Greedy packing of compute units, the extra input, and the search for an amount that
  pays for its own transactions.

Assumptions, stated where they are used: nonces on chain have no gaps, and a nonce gains no transaction once it is
cached; two commitment hashes are equal only for equal contents (a commitment is modelled by its contents, and its
hash in the tree by an injective function of them); the two-input hash, the conversion out of Montgomery form and the
default nodes are arbitrary functions (where a tree is laid out, every hash of two nodes has a stored form that is not
the empty place, and the defaults are those of empty subtrees); the chain and the tree do not change during one call.
Array objects used as map keys are told apart by an id, as JavaScript tells them apart by identity. A promise that
rejects is an `Err`; where several may reject, the first in order is reported.

A token is in order (`TokenOk`) when every send of it recorded the balance before it and at most SEND_ARITY outputs
are unspent. Every token starts in order, and one with at most one topup under each nonce stays so
(`Overfull.OneTopupEachIsOk`); what holds of other tokens is stated for them too.

Calls that overlap on one manager: `meanwhile` lists the ranges whose fetches other runs complete while each step of
`GetLatestTransactionsIntoCache` waits, the one place where a run can end early because of another. Every method that
steps forward takes it, down to `OnChain.GetPrivateBalance` and `Activation.BuildTopUpTx`, where both runs that the
source starts at once have their own; `EndSeen` says how far a run sees.

## What the proofs found

* `startIndices.sort()` (src/sdk/accountReaders/StorageAccountReader.ts:103) has no comparator and sorts numbers as
  decimal strings, while the comment and the jumps need ascending order. `SkippingScan.ScanWorksExactly` says exactly
  when that is harmless, for any start indices: when no commitment can be skipped (`ChunkScan.NoSkips`). For up to ten
  of them, and for different ones, this means that they come out ascending (`SkippingScan.TenStartsExactly`,
  `DifferentStartsExactly`); `StartsOutOfOrder` gives two for which a commitment is missed.
* A send spends the outputs on the one page that `getActiveTxs` fetches and records what these leave. Topups of a
  token built at once can leave more than SEND_ARITY unspent (`Topups.TwoTopupsOverflow`), and what is not on the page
  is then lost with the next send: it is never found again, and from then on the fast balance is short of the balance
  of the history (`Overfull.LosingRun`, with numbers `Overfull.LosingExample`). `LostOutputs.FastBalanceExactly` gives
  the difference in every run, `LostOutputs.NothingLostExactly` when it is nothing.
* With more than SEND_ARITY unspent the token goes on, with less, as long as the page holds SEND_ARITY
  (`Overfull.PageDecides`, `Overfull.MergeLeavesBehind`). When the fourth and the fifth newest output share a nonce
  the page holds more (`Overfull.PageIsOverfull`); then every topup of the token fails until it is sent
  (`Overfull.StaysOverfull`). No code modelled here stops a send of more than SEND_ARITY outputs.
* In the branch where the total does not exceed the subvention (src/sdk/paramManagers/fee/FeeCalculator.ts:152-155)
  `baseAmount` is set to 0 before it is subtracted, so the whole subvention is taken off and the fee comes out as
  minus amount minus subvention (`FeeCalculator.FeeIdentityExactly`, `FeeCalculator.SubventionBranchFails`,
  `FeeCalculator.SubventionExample`).
* `getIncompleteCommitmentsForTxs` (src/sdk/paramManagers/CommitmentManager.ts:37-60) returns commitments as topups
  then sends, but start indices in the order of the transactions, and `activateCommitments` zips them. They disagree
  exactly when a topup listed behind the send has another start index (`Topups.StartIndicesAlignedExactly`), and such
  a chain is reachable (`Topups.MisalignmentIsReachable`). Since the scan of a chunk sees the start indices only as a
  sorted list, this does no harm within one chunk account (`AnyStarts.HandingAroundIsHarmless`). Across accounts it
  does: activation succeeds on every tree that holds the commitments if and only if the late topups start in the
  account of their send and the scan can skip nothing (`Activation.ActivationExactly`), and when they do not, there is
  such a tree on which the token can no longer be topped up (`Activation.CrossingStopsTopUps`).
* `fetchTopupRemoteParams` and `fetchSendRemoteParams` start two runs on one manager at once
  (src/sdk/transactions/txBuilding/RemoteParamFetching.ts:71-72, 102-103). When the fetches of other runs have covered
  a whole step of a run before it starts, the run takes that for the end of the chain
  (`TransactionManager.StopsShortExactly`). It then reports a stale newest transaction unless others also brought the
  last nonce (`TransactionManager.EndSeenExactly`, with an example in `GetMostRecentTxTooLate`), and what is built on
  it carries a nonce that is taken (`Activation.StaleNonceIsTaken`).
* `getTxCountForExtraInput` agrees with repacking only if there was something packed before
  (`FeeCalculator.ExtraInputEqualsRepacking`); the inputs of a send are never empty.
* A batch size of 0 makes both balances 0 without reading anything.
* The cache drops the second of two transactions of one nonce with the same commitment hash, so a fetched range is
  shown as it is on chain exactly when no nonce of it holds two such (`TxCache.CacheFetchedExactly`). Two equal topups
  built from the same chain are an example: both amounts are paid in, one is shown (`OnChain.EqualTopupsCountOnce`).
* `cacheOverwrite` keeps only the last of several values with one nonce (`TxCache.OverwriteKeepsLast`), because the
  slot is reset for every value.
* The documentation of `fetchTxs` (src/sdk/txManagers/TransactionManager.ts:20-22) speaks of the last `count` nonces;
  the code returns the last `count` transactions, extended to a whole nonce. The comment at lines 69-71 speaks of the
  latest store; the code goes back to the latest send. The model follows the code.

## Model

| member | source | states |
|---|---|---|
| `FeeCalculator.SerializedBytes` | src/sdk/paramManagers/fee/FeeCalculator.ts:212-220 | the 32 bytes the packing loop looks at are the digits of the input to base 256, lowest first: each below 256, and together they give the input back |
| `FeeCalculator.InputCost` | src/sdk/paramManagers/fee/FeeCalculator.ts:212-225 | an input costs a mixed addition for each of its digits to base 256 that is not 0, and an addition unless it is 0; byte by byte, in 33 rounds |
| `FeeCalculator.RoundsInOrder` | src/sdk/paramManagers/fee/FeeCalculator.ts:210-225 | the rounds of all inputs are packed one input after the other, lowest byte first |
| `FeeCalculator.GetInputPreparationTxCountNoAmount` | src/sdk/paramManagers/fee/FeeCalculator.ts:206-241 | the packing loop returns the number of transactions and the units of the last one of the greedy packing of all rounds |
| `FeeCalculator.PackingFits` | src/sdk/paramManagers/fee/FeeCalculator.ts:206-241 | every round is packed, in order, and no transaction is over MAX_CUS |
| `FeeCalculator.UsedByLastRounds` | src/sdk/paramManagers/fee/FeeCalculator.ts:228-240 | the units it leaves used are those of the rounds of the last transaction |
| `FeeCalculator.OneTransaction` | src/sdk/paramManagers/fee/FeeCalculator.ts:206-241 | inputs whose rounds fit one transaction take one |
| `FeeCalculator.TwoSmallInputs` | src/sdk/paramManagers/fee/FeeCalculator.ts:206-241 | two inputs of one byte, as fee version and token id are, take 104 000 units and one transaction |
| `FeeCalculator.PackingIsOptimal` | src/sdk/paramManagers/fee/FeeCalculator.ts:206-241 | no other in-order split of the same costs into transactions of at most MAX_CUS has fewer transactions |
| `FeeCalculator.GreedyStaysAhead` | src/sdk/paramManagers/fee/FeeCalculator.ts:228-237 | the exchange argument: a packer that is ahead of a rival at some round, in an earlier transaction or in the same one with no more units, ends with no more transactions than the rival |
| `FeeCalculator.ExtraInputEqualsRepacking` | src/sdk/paramManagers/fee/FeeCalculator.ts:244-249 | counting the transactions an extra input adds agrees with repacking the whole list if and only if the list is not empty; it adds 0 or 1 |
| `FeeCalculator.CommitmentHashFeePaysTheBatch` | src/sdk/paramManagers/fee/FeeCalculator.ts:292-323 | for each batching rate: the commitments of a batch together pay its 24, 24, 25, 29 or 37 hash transactions, and with one lamport less each they would not |
| `FeeCalculator.HashFees` | src/sdk/paramManagers/fee/FeeCalculator.ts:292-311 | the share of a commitment at every rate, in numbers, and the error above the highest |
| `FeeCalculator.NetworkFeeRoundsDown` | src/sdk/paramManagers/fee/FeeCalculator.ts:195-199 | the privacy fee is the share of the amount in basis points, rounded down |
| `FeeCalculator.TotalInFields` | src/sdk/paramManagers/fee/FeeCalculator.ts:141-147 | the total before the subvention, in the fields of the program fee: amount, proof reward, hash fee, privacy fee, and a price for each base and each preparation transaction |
| `FeeCalculator.LeastWorkable` | src/sdk/paramManagers/fee/FeeCalculator.ts:163-175 | whatever a total needs: the search stops at the least number of extra transactions that is enough for the amount with their price on top, and finds none exactly if there is none below the limit |
| `FeeCalculator.FeeShape` | src/sdk/paramManagers/fee/FeeCalculator.ts:148-175 | the search ends at i = 0 or 1 and never reaches the throw; what it returns in each branch, and that i is least |
| `FeeCalculator.SearchFee` | src/sdk/paramManagers/fee/FeeCalculator.ts:143-175 | the search loop returns the fee of the least workable number of extra transactions, for every total, and never throws |
| `FeeCalculator.GetSendTotalFeeInner` | src/sdk/paramManagers/fee/FeeCalculator.ts:134-176 | the total fee is the specified one, and it fails exactly for a batching rate above the maximum |
| `FeeCalculator.FeePaysForItsOwnTransactions` | src/sdk/paramManagers/fee/FeeCalculator.ts:134-176 | with the total above the subvention: fee and subvention pay for the fixed costs, the privacy fee and TxCount + i transactions; these cover the inputs repacked with the amount including the fee, at most one to spare; and i is least |
| `FeeCalculator.FeeIdentityExactly` | src/sdk/paramManagers/fee/FeeCalculator.ts:148-155 | fee plus subvention equals the costs if and only if the total is above the subvention or is 0; otherwise the fee is minus the amount minus the whole subvention |
| `FeeCalculator.SubventionBranchFails` | src/sdk/paramManagers/fee/FeeCalculator.ts:134-176 | for every program fee, input list and amount with the total not above the subvention, the total fee of a send is minus the amount minus the whole subvention |
| `FeeCalculator.SubventionExample` | src/sdk/paramManagers/fee/FeeCalculator.ts:152-155 | such a send: at one lamport per transaction and a subvention of 1000, sending 1 costs 25 and the fee is -1001 |
| `FeeCalculator.SendFeeParts` | src/sdk/paramManagers/fee/FeeCalculator.ts:64-87 | above the subvention the quoted transaction fee and the subvention pay, in the fields of the program fee, for the verification and the transactions alone, enough of these for the amount with transaction fee and privacy fee on top; these two are the total fee; the privacy fee is a share of the amount, and the rent is for a recipient that does not exist |
| `ResponseConverter.TxResponseToElusivTxs` | src/sdk/txManagers/ResponseConverter.ts:24-72 | the nested loops with their flags return what the pairing function says, errors included |
| `ResponseConverter.ConvertAt` | src/sdk/txManagers/ResponseConverter.ts:38-69 | one turn of the outer loop: what is pushed and which flag is set |
| `ResponseConverter.FindInitPartner` | src/sdk/txManagers/ResponseConverter.ts:54-61 | the inner loop finds the nearest init down the log with the account, or none |
| `ResponseConverter.HolderIsLastInit` | src/sdk/txManagers/ResponseConverter.ts:43-52 | under mutual exclusion the holder of a verification account is the last init of that account, with no finalize since |
| `ResponseConverter.FirstInitIsHolder` | src/sdk/txManagers/ResponseConverter.ts:43-61 | so the first init found down the log from a finalize is its own |
| `ResponseConverter.FinalizedOnce` | src/sdk/txManagers/ResponseConverter.ts:43-52 | an init is finalized at most once |
| `ResponseConverter.ConvertFromExpected` | src/sdk/txManagers/ResponseConverter.ts:37-69 | started anywhere with the right flags the loop builds exactly what the run calls for |
| `ResponseConverter.PairingIsCorrect` | src/sdk/txManagers/ResponseConverter.ts:24-72 | for every interleaved run in which an account is held from init to finalize: it throws only on an empty log or one without Elusiv transactions; otherwise exactly one transaction per store and per init, two-part with its own finalize exactly when finalized |
| `ResponseConverter.HeldExactly` | src/sdk/txManagers/ResponseConverter.ts:43-52 | on any run, valid or not: an account is held by an init exactly if it took the account last and nothing gave it back since |
| `ResponseConverter.InitNotFoundExactly` | src/sdk/txManagers/ResponseConverter.ts:54-66 | on any log: a missing init is reported only if some finalize has no init of its account at or below it, and, when no response holds both, whenever one has none |
| `Ledger.TakeWholePrefix` | src/sdk/txManagers/AbstractTxManager.ts:63-77 | a page that ends with a whole nonce does not depend on what lies below it |
| `Ledger.HistoryAfterPage` | src/sdk/txManagers/AbstractTxManager.ts:63-77 | cutting whole nonces off a token's history leaves the history before the last of them |
| `Ledger.BalanceBelowNewest` | src/sdk/txManagers/TransactionManager.ts:106-122 | below the newest send: the topups of its own nonce, and the balance of the nonces before it |
| `Ledger.MetadataBalanceExactly` | src/sdk/txManagers/TransactionManager.ts:96-135 | on every history with at most one send per nonce the fast balance is the fold over the whole history, less what the newest send with metadata fails to record of the nonces before it |
| `Ledger.TwoSendsExactly` | src/sdk/txManagers/TransactionManager.ts:106-122 | on any history: it throws exactly when the newest send with metadata is not the only send of its nonce from there on |
| `Ledger.ActiveExactly` | src/sdk/txManagers/TransactionManager.ts:157-177 | on any page, also one no chain gives: without a send it is active whole; otherwise what is above its newest send, that send, and exactly the topups of its nonce signed differently from these |
| `TxCache.IndexedMultiCacher.CacheInner` | src/sdk/utils/caching/IndexedMultiCacher.ts:35-42 | the loop leaves the slots the specification function gives, with and without overwriting |
| `TxCache.IndexedMultiCacher.CacheOne` | src/sdk/utils/caching/IndexedMultiCacher.ts:36-40 | one turn of the loop |
| `TxCache.InsertAllSlot` | src/sdk/utils/caching/IndexedMultiCacher.ts:35-42 | each slot sees exactly the values of its own nonce, in order |
| `TxCache.OverwriteKeepsLast` | src/sdk/utils/caching/IndexedMultiCacher.ts:35-42 | overwriting resets a slot for every value, so of several values with one nonce only the last stays |
| `TxCache.InsertAllInSlotKeeps` | src/sdk/txManagers/TransactionCacher.ts:12-13 | a slot never holds two equal transactions, gains only values given to it, and loses none |
| `TxCache.CachingIsIdempotent` | src/sdk/utils/caching/IndexedMultiCacher.ts:35-42 | caching the same values again changes nothing |
| `TxCache.DisjointBatchesCommute` | src/sdk/txManagers/AbstractTxManager.ts:165-170 | batches without a common nonce lead to the same cache in either order |
| `TxCache.SeenSlotExactly` | src/sdk/txManagers/TransactionCacher.ts:12-13 | what the cache shows of a nonce is what the nonce holds if and only if no two of its transactions have one commitment hash; it never shows two such |
| `TxCache.SeenExactly` | src/sdk/txManagers/TransactionCacher.ts:12-13 | what the cache shows of a whole chain is the chain if and only if that holds of every nonce |
| `TxCache.ShownWholeExactly` | src/sdk/txManagers/TransactionCacher.ts:12-13 | the same by the fields: on any chain without gaps the cache shows all of it if and only if the transactions under each nonce have different commitment hashes, as they do on every valid chain |
| `TxCache.CacheFetched` | src/sdk/txManagers/AbstractTxManager.ts:165-181 | on any chain without gaps: caching a fetched range makes its slots what the cache shows of the chain and touches no other, even if other fetches, overlapping ones too, completed since it was requested |
| `TxCache.CacheFetchedExactly` | src/sdk/txManagers/AbstractTxManager.ts:165-181 | the fetched range is then in the cache as it is on chain if and only if no nonce of it holds two equal transactions |
| `TxCache.IndexedMultiCacher.CacheOverwrite` | src/sdk/utils/caching/IndexedMultiCacher.ts:22-24 | caching with overwriting leaves the slots of the specification function |
| `TxCache.CollisionIsDropped` | src/sdk/txManagers/TransactionCacher.ts:12-13 | of two transactions with the same nonce and the same commitment hash the cache keeps only the first |
| `TxCache.CacheOkGrows` | src/sdk/txManagers/TransactionCacher.ts:8 | a chain that goes on under new nonces, whatever they hold, keeps the cache right |
| `TransactionManager.CachedTxsIsBetween` | src/sdk/txManagers/AbstractTxManager.ts:150-154 | a filled stretch of the cache, sliced, flattened and reversed, is the chain's history of that stretch, newest nonce first |
| `TransactionManager.TransactionManager.GetTxsInNonceRange` | src/sdk/txManagers/AbstractTxManager.ts:63-77 | the first count transactions, extended to the whole of the last nonce |
| `TransactionManager.TransactionManager.OthersComplete` | src/sdk/txManagers/AbstractTxManager.ts:165-181 | the fetches other runs on the same manager complete fill exactly the slots of their ranges, with what the cache shows of the chain, and no other slot |
| `TransactionManager.TransactionManager.FetchAndCacheTxsInRange` | src/sdk/txManagers/AbstractTxManager.ts:165-181 | returns what was uncached when the fetch started; in the end exactly its own range and the ranges others completed meanwhile are filled, all else is as before |
| `TransactionManager.TransactionManager.GetLatestTransactionsIntoCache` | src/sdk/txManagers/AbstractTxManager.ts:188-202 | whatever ranges other runs complete while each step waits: which slots are filled in the end and how far it sees, both as functions of the lengths of chain and cache and of these ranges |
| `TransactionManager.StopsShortExactly` | src/sdk/txManagers/AbstractTxManager.ts:193-199 | the loop ends on the chain if and only if some step is overtaken: it starts on the chain, and the ranges that others completed before it cover all of it |
| `TransactionManager.EndSeenExactly` | src/sdk/txManagers/AbstractTxManager.ts:188-202 | it sees the whole chain if and only if no step is overtaken or others brought the last nonce by then; in any case what was cached and two steps more, and all of it when alone or when all was cached |
| `TransactionManager.IdleExactly` | src/sdk/txManagers/AbstractTxManager.ts:193-199 | a fetch brings nothing, which ends the loop, if and only if everything of it that is on chain was cached |
| `TransactionManager.TwoStepsAhead` | src/sdk/txManagers/AbstractTxManager.ts:188-202 | when another run completes two steps before the first of this one is answered, this one sees two steps and no more, however long the chain is |
| `TransactionManager.TransactionManager.GetMostRecentTxTooLate` | src/sdk/txManagers/TransactionManager.ts:137-139 | such a call: the transaction it returns is not the newest, at any cache and any chain that goes on beyond the two steps |
| `TransactionManager.TransactionManager.FetchTxsIntoCache` | src/sdk/txManagers/AbstractTxManager.ts:104-132 | on any chain without gaps: terminates, requests each uncached nonce of the range exactly once and no cached one, and leaves the whole range cached, each nonce as the cache shows it |
| `TransactionManager.TransactionManager.CompleteAll` | src/sdk/txManagers/AbstractTxManager.ts:127-129 | the fetches may complete in any order: the contents are the same |
| `TransactionManager.PageIsEnough` | src/sdk/txManagers/AbstractTxManager.ts:83-102 | looking back count nonces always suffices for count transactions |
| `TransactionManager.TransactionManager.GetTxs` | src/sdk/txManagers/AbstractTxManager.ts:42-61 | the newest count transactions the cache shows before a nonce, newest first, the last nonce whole, whatever was cached, of the chain as far as the run sees it |
| `TransactionManager.TransactionManager.GetLowestFetchedNonceFromBatch` | src/sdk/txManagers/TransactionManager.ts:181-192 | the lowest nonce of a page, or -1 |
| `TransactionManager.PageSeam` | src/sdk/txManagers/TransactionManager.ts:36-54 | the history before a page's start is the page followed by the history before its lowest nonce, which is lower than the start |
| `TransactionManager.NextPage` | src/sdk/txManagers/TransactionManager.ts:36-54 | pages neither miss nor repeat a transaction |
| `TransactionManager.PagesSuffice` | src/sdk/txManagers/TransactionManager.ts:36-56 | once enough was seen, or everything, cutting what was seen equals cutting the whole history |
| `TransactionManager.TransactionManager.FetchTxs` | src/sdk/txManagers/TransactionManager.ts:31-67 | on any chain without gaps: the newest count transactions of the token that the cache shows before a nonce, the last nonce whole, of the chain as far as the run sees it, also beside other runs; and the paging loop terminates |
| `TransactionManager.TransactionManager.GetPrivateBalanceFromTxHistory` | src/sdk/txManagers/TransactionManager.ts:77-94 | the fold over the token's whole history before a nonce, as far as the run sees it, for every batch size but 0 |
| `TransactionManager.TransactionManager.GetPrivateBalanceFromMetadata` | src/sdk/txManagers/TransactionManager.ts:96-135 | the paged search returns what a search of the unpaged history returns, as far as the run sees it, for every batch size but 0 |
| `TransactionManager.TransactionManager.GetMostRecentTx` | src/sdk/txManagers/TransactionManager.ts:137-139 | the newest transaction of the chain as far as the run sees it |
| `TransactionManager.TransactionManager.GetActiveTxs` | src/sdk/txManagers/TransactionManager.ts:152-178 | of the page of the chain as far as the run sees it: the newest send, what is above it, and the topups that share its nonce |
| `CommitmentMachine.ActiveArePage` | src/sdk/txManagers/TransactionManager.ts:141-178 | getActiveTxs returns the unspent outputs that fit on the one page it fetches, in history order and each once; when they do not all fit these are topups only, at least SEND_ARITY |
| `CommitmentMachine.UnspentSplits` | src/sdk/txManagers/TransactionManager.ts:141-178 | the unspent outputs are the history down to the whole of the newest send's nonce |
| `CommitmentMachine.UnspentSumsToBalance` | src/sdk/paramManagers/CommitmentManager.ts:166-185 | the commitments of the unspent outputs add up to the ledger balance |
| `CommitmentMachine.IncompleteOfRebuilt` | src/sdk/paramManagers/CommitmentManager.ts:37-60 | the commitments collected are exactly those of the transactions, as a list (topups first, sends after them) and as a multiset, none lost or counted twice, and their balances add up |
| `CommitmentMachine.IncompleteIsASet` | src/sdk/paramManagers/CommitmentManager.ts:37-60 | on any chain, of any transactions: collecting fails exactly when the commitment of one of them is not found again; otherwise it gives exactly their commitments, and none twice however many transactions have it |
| `CommitmentMachine.FoundAgainExactly` | src/sdk/paramManagers/CommitmentManager.ts:141-155 | of any transaction on any chain: what is found again of a send is its commitment, if and only if its metadata or the history before its nonce give it; metadata that do not match are never taken |
| `CommitmentMachine.SendFoundAgain` | src/sdk/paramManagers/CommitmentManager.ts:141-155 | what a send that is built holds, whatever it spends; with metadata its commitment is found again on every chain, without it exactly where the history before its nonce adds up to what it spent |
| `CommitmentMachine.TopupFoundAgain` | src/sdk/transactions/txBuilding/TransactionBuilding.ts:48-116 | a topup is refused exactly for SEND_ARITY active commitments without a merge; its commitment is found again on every chain, and the balance it states is what is active, less the fee of the merge, and its amount |
| `CommitmentMachine.ActiveCommitmentsExactly` | src/sdk/paramManagers/CommitmentManager.ts:37-71 | collecting the active commitments succeeds if and only if the commitment of every active transaction is found again; they are then exactly theirs and add up |
| `CommitmentMachine.ActiveCommitmentsAreUnspent` | src/sdk/paramManagers/CommitmentManager.ts:62-71 | of a token in order the active commitments are, as a multiset, exactly those of the unspent outputs, and they hold the whole ledger balance |
| `CommitmentMachine.BuiltRecordsExactly` | src/sdk/transactions/txBuilding/TransactionBuilding.ts:282-437 | a send that is built records the ledger balance before its nonce, less what it spent, if and only if the outputs getActiveTxs found add up to that balance |
| `CommitmentMachine.RoundKeepsInvariant` | src/sdk/transactions/txBuilding/TransactionBuilding.ts:48-116 | whatever is built from a chain (topups, sends, merges, of any tokens, under one nonce) keeps its invariant |
| `CommitmentMachine.RoundKeepsToken` | src/sdk/transactions/txBuilding/TransactionBuilding.ts:48-116 | a token in order, all sends recording the balance and at most SEND_ARITY outputs unspent, stays so if and only if, counted before the round, the outputs it adds and leaves unspent are at most SEND_ARITY |
| `CommitmentMachine.OneTopupHasRoom` | src/sdk/transactions/txBuilding/TransactionBuilding.ts:48-116 | with one topup of a token at most there is always room |
| `CommitmentMachine.ReachableInvariant` | src/sdk/transactions/txBuilding/TransactionBuilding.ts:282-437 | every reachable chain satisfies the invariant: nonces without gaps, one send per nonce and token, and every commitment different and of the form it is built in |
| `LostOutputs.BalanceSplits` | src/sdk/txManagers/TransactionManager.ts:141-178 | in every run, at every nonce, for every token: the balance of the history is what the unspent outputs hold and what was lost, that is, missed by a send because it did not fit on its page |
| `LostOutputs.ActiveInRun` | src/sdk/txManagers/TransactionManager.ts:152-178 | in every run the active transactions are the unspent outputs that fit on the page, so all of them if and only if they fit |
| `LostOutputs.RecordsExactly` | src/sdk/paramManagers/CommitmentManager.ts:141-155 | in every run a send records the balance of the history before it if and only if what was lost by then is worth nothing; and exactly then the commitment of a send without metadata is found again |
| `LostOutputs.FastBalanceExactly` | src/sdk/txManagers/TransactionManager.ts:96-135 | in every run, legacy sends included, the fast balance is the balance of the whole history less what was lost up to the newest send with metadata, for every token and every before; so they agree if and only if that is worth nothing |
| `LostOutputs.NothingLostExactly` | src/sdk/txManagers/TransactionManager.ts:152-153 | nothing is lost if and only if at every send of the token all unspent outputs fitted on the page |
| `LostOutputs.BalancesAgree` | src/sdk/txManagers/TransactionManager.ts:72-135 | then both balances agree, the unspent outputs hold them, and every send records them |
| `LostOutputs.LostForever` | src/sdk/txManagers/TransactionManager.ts:152-178 | an output that was lost is never among the active transactions again |
| `Overfull.PageDecides` | src/sdk/paramManagers/CommitmentManager.ts:73-77 | on every reachable chain: a topup is built if and only if the commitments on the page are found again and are at most SEND_ARITY, with a merge exactly at SEND_ARITY; with more on the page it is an error; the balance it states is what is on the page |
| `Overfull.PageIsOverfull` | src/sdk/txManagers/TransactionManager.ts:141-178 | the page holds more than SEND_ARITY if and only if more are unspent and the fourth and fifth newest share a nonce; it shows all of them or at least SEND_ARITY of the newest |
| `Overfull.PageRebuiltExactly` | src/sdk/paramManagers/CommitmentManager.ts:141-155 | the commitments on the page are all found again if and only if no send without metadata on it was built after something of worth was lost |
| `Overfull.StaysOverfull` | src/sdk/paramManagers/CommitmentManager.ts:73-77 | a page of more than SEND_ARITY stays as it is, and every topup of the token fails, until a send of the token |
| `Overfull.MergeLeavesBehind` | src/sdk/transactions/txBuilding/TransactionBuilding.ts:282-437 | a merge of the page leaves one output unspent; the fast balance after it is short of the balance of the history by what did not fit on the page and what was lost before |
| `Overfull.LosingRun` | src/sdk/txManagers/TransactionManager.ts:152-153 | on every reachable chain with a token in order and three outputs unspent, the oldest under a nonce of its own: after two different topups at once the next topup merges the newest four, the fast balance is short by the oldest, and this is never found again |
| `Overfull.LosingExample` | src/sdk/txManagers/TransactionManager.ts:152-153 | with numbers: topups of 1 under three nonces, of 1 and 2 at once, and the merge for a fee of 1 leave 5 in the history and a fast balance of 4 |
| `Overfull.OneTopupEachIsOk` | src/sdk/transactions/txBuilding/TransactionBuilding.ts:75-77 | as long as no nonce holds two topups of the token it stays in order |
| `Topups.GetIncompleteCommitmentsForTxs` | src/sdk/paramManagers/CommitmentManager.ts:37-60 | topups enter the set at once, sends after them; start indices in the order of the transactions |
| `Topups.GetCommitmentForPartialSend` | src/sdk/paramManagers/CommitmentManager.ts:141-155 | from the metadata if its hash matches, else from the full history, else an error |
| `Topups.NormalizeStartIndices` | src/sdk/paramManagers/CommitmentManager.ts:198-214 | returns the start indices normalized |
| `Topups.NormalizedIs` | src/sdk/paramManagers/CommitmentManager.ts:198-214 | an undefined start index becomes the last defined one before it, or 0 |
| `Topups.StartIndicesAlignedExactly` | src/sdk/paramManagers/CommitmentManager.ts:43-59 | the commitments and the start indices returned side by side fit together if and only if every topup listed behind the send shares its start index |
| `Topups.MisalignmentIsReachable` | src/sdk/paramManagers/CommitmentManager.ts:43-59 | a topup built beside a send with another start index leads, on a reachable chain, to misaligned lists |
| `Topups.TwoTopupsOverflow` | src/sdk/transactions/txBuilding/TransactionBuilding.ts:75-77 | on every reachable chain with a token in order and three outputs unspent, two different topups built at once are each right on their own and lead to a reachable chain with five unspent |
| `Topups.TopUpStep` | src/public/elusiv.ts:156-185 | on every reachable chain with the token in order, once the commitments are activated: it merges exactly when SEND_ARITY outputs are unspent, leaves 2 or one more unspent, keeps tokens in order and leaves other tokens' outputs alone, leads to a reachable chain, and states the ledger balance after it |
| `OnChain.SeenIsReachable` | src/sdk/txManagers/TransactionCacher.ts:12-13 | whatever the SDK builds and puts on chain, equal topups under one nonce included, what it sees of it through its cache is a reachable chain |
| `OnChain.ReachableIsOnChain` | src/sdk/txManagers/TransactionCacher.ts:12-13 | every reachable chain can be on chain, and the SDK sees it whole |
| `OnChain.FastBalanceOnChain` | src/sdk/txManagers/TransactionManager.ts:96-135 | so on whatever is on chain the fast balance is the balance of the history the SDK sees less what was lost up to the newest send with metadata |
| `OnChain.ActiveOnChain` | src/sdk/txManagers/TransactionManager.ts:152-178 | and the active transactions are the unspent outputs it sees that fit on the page; unspent and lost outputs hold the balance |
| `OnChain.GetPrivateBalance` | src/sdk/txManagers/TransactionManager.ts:72-74 | through the cache, beside other runs and in batches of any size but 0: the ledger balance of what the SDK sees of the chain, as far as the run sees it, less what was lost up to the newest send with metadata |
| `OnChain.ShownOrDropped` | src/sdk/txManagers/TransactionCacher.ts:12-13 | each transaction of a nonce is either shown or dropped, those with an equal one before them being dropped; none is if and only if no two are equal |
| `OnChain.BalanceShown` | src/sdk/txManagers/TransactionCacher.ts:12-13 | the balance on chain is the balance shown plus the balance of the dropped transactions, for every token at every nonce |
| `OnChain.NothingDropped` | src/sdk/txManagers/TransactionCacher.ts:12-13 | nothing is dropped if and only if no nonce holds two equal transactions, and then the balance shown is that on chain |
| `OnChain.EqualTopupsCountOnce` | src/sdk/txManagers/TransactionCacher.ts:12-13 | the same topup built twice from one chain gets on chain: both amounts are paid in, and the balance shown has one of them |
| `AnyStarts.LookupIsSound` | src/sdk/paramManagers/TreeManager.ts:79-88 | on any tree and for any start indices: a lookup may fail, but what it finds holds the hash sought, behind a start that lies in the same chunk account |
| `AnyStarts.HandingAroundIsHarmless` | src/sdk/accountReaders/StorageAccountReader.ts:48-97 | on any tree: handing start indices around among commitments that start in one chunk account changes nothing, neither what is found nor the error |
| `CrossedStarts.CrossedStartsExactly` | src/sdk/paramManagers/CommitmentManager.ts:90-95 | with the start indices handed around, all commitments are found on every kept-up tree that holds each of them at or behind its own start only if each was handed a start index of its own chunk account; if and only if, when the scan can skip nothing |
| `SkippedInTree.FoundOnEveryExactly` | src/sdk/paramManagers/CommitmentManager.ts:90-95 | they are found on every such tree if and only if each was handed a start index of its own chunk account and in no account the scan can skip anything; for any number of commitments |
| `CrossedStarts.ATreeHolds` | src/sdk/paramManagers/TreeManager.ts:79-88 | there are such trees, for any hashes and start indices with room behind them, with any of the commitments at leaves of one's choice |
| `FullTree.AFullTree` | src/sdk/paramManagers/TreeManager.ts:134-146 | for any leaves there is a tree with these leaves in which every inner node is stored as the hash of its children |
| `Activation.IsTransactionConfirmed` | src/sdk/paramManagers/CommitmentManager.ts:83-88 | whether the commitment of a transaction is in the tree from its start index on, or the error |
| `Activation.ActivateCommitments` | src/sdk/paramManagers/CommitmentManager.ts:90-115 | the commitments, each with its leaf and a right opening, or the error: lists of different lengths, or the lookup's |
| `Activation.GetActiveCommitments` | src/sdk/paramManagers/CommitmentManager.ts:62-71 | nothing for a token without active transactions; an error while the newest is not confirmed; else the commitments of the active transactions of the chain as far as the run sees it, each with a leaf that holds it and an opening that hashes it up to the root |
| `Activation.ActivationExactly` | src/sdk/paramManagers/CommitmentManager.ts:62-71 | on every reachable chain: the active commitments are returned on every tree that holds them if and only if every topup that shares the nonce of the newest send starts in the chunk account in which the send starts, and in no account the scan can skip anything |
| `Activation.GetMostRecentNonce` | src/sdk/transactions/txBuilding/RemoteParamFetching.ts:137-146 | the nonce of the newest transaction of the chain as far as the run sees it, -1 if there is none, an error while it is not confirmed |
| `Activation.ConfirmedExactly` | src/sdk/paramManagers/CommitmentManager.ts:83-88 | on a tree without holes from its start on, a transaction is confirmed if and only if some leaf from there on holds its commitment; a start that is no leaf is an error |
| `Activation.RecentNonceExactly` | src/sdk/transactions/txBuilding/RemoteParamFetching.ts:137-146 | so the nonce of the newest transaction is given if and only if such a leaf holds it; while none does it is refused as not confirmed, and every topup of every token fails |
| `Activation.RecentNonceOtherwise` | src/sdk/transactions/txBuilding/RemoteParamFetching.ts:137-146 | without a transaction it is -1, and the error of looking the newest one up is passed on |
| `Activation.ActivationWaits` | src/sdk/paramManagers/CommitmentManager.ts:62-71 | while no leaf holds the newest active transaction of the token, its activation is refused as not confirmed |
| `Activation.ActivationOtherwise` | src/sdk/paramManagers/CommitmentManager.ts:62-71 | without active transactions nothing is activated; otherwise the first thing that goes wrong is reported: the lookup of the newest, that it is not there, or a commitment that is not found again; what is activated are all commitments, one for each |
| `Activation.BuildTopUpTx` | src/public/elusiv.ts:134-186 | merge first when needed, or the error that a manual merge is needed; from what the two runs see that the source starts at once on one cache, each overtaken or not |
| `Activation.StaleNonceIsTaken` | src/sdk/transactions/txBuilding/RemoteParamFetching.ts:71-78 | a run that is behind builds on a nonce that is already taken |
| `Activation.BehindIsThePast` | src/sdk/transactions/txBuilding/RemoteParamFetching.ts:71-78 | runs that both see the chain up to some nonce build exactly what they would have built when the chain was that long |
| `Activation.TopUpOnTreeExactly` | src/public/elusiv.ts:134-186 | on a tree that holds the active commitments and the newest one it succeeds if and only if the commitments are found again, are activated and are at most SEND_ARITY; then it builds what the page calls for, and for a token in order does what TopUpStep says |
| `Activation.TopUpSucceeds` | src/public/elusiv.ts:134-186 | so it succeeds on every such tree when no late topup starts in another chunk account than its send |
| `Activation.CrossingStopsTopUps` | src/sdk/paramManagers/CommitmentManager.ts:43-59 | a topup and a send built at once with start indices in different chunk accounts leave a reachable chain and a tree that holds both commitments, on which no topup of the token can be built any more |
| `TopupEstimate.EstimateTopupFeesBatch` | src/public/elusiv.ts:391-422 | field by field, each fee is the topup's own, with the send's added exactly where the count of the token has come to SEND_ARITY; it fails if and only if at such a place the tokens or the rates of the two clash, with the error of the first |
| `TopupEstimate.EstimateExactly` | src/public/Fee.ts:91-110 | one estimate: when it fails and how, what each part and the rate come to |
| `TopupEstimate.BatchTotal` | src/public/elusiv.ts:391-422 | over the batch each part adds up to those of all topups and of the sends where a merge is counted |
| `TopupEstimate.MergesAsEstimated` | src/public/elusiv.ts:391-422 | on top of every reachable chain without unspent outputs of the requested tokens: sending the topups one after the other, tokens interleaved, on trees kept up to date, succeeds and merges exactly where the estimate says |
| `TopupEstimate.MergesInAll` | src/public/elusiv.ts:408-419 | for each token alone, k topups need floor((k - 2) / 3) merges |
| `ServingTrees.TreesCanServe` | src/public/elusiv.ts:391-422 | for any topups on the empty chain that start at one leaf there are trees on which they are sent, so the two results above speak of something |
| `IndexConverter.LocalGlobalBijection` | src/sdk/utils/IndexConverter.ts:16-22 | a local index converts if and only if it is a node, and converting back gives it; floor(log2(g + 1)) is its level |
| `IndexConverter.GlobalLocalBijection` | src/sdk/utils/IndexConverter.ts:42-46 | the same from the other side, for every global index |
| `IndexConverter.GlobalAccBijection` | src/sdk/utils/IndexConverter.ts:24-55 | every node has exactly one place in the accounts, and the guard on the account number never fires |
| `IndexConverter.AccGlobalBijection` | src/sdk/utils/IndexConverter.ts:48-55 | a place converts to a node exactly if its account exists, and a node of the tree so reached converts back to it |
| `IndexConverter.LeafPosition` | src/sdk/utils/IndexConverter.ts:62-65 | leaf i is node 2^20 - 1 + i, and there are 2^20 leaves |
| `Decimal.KeyInjective` | src/sdk/utils/IndexConverter.ts:72-74 | two numbers joined by a separator give different keys for different pairs |
| `Decimal.AscendingExactly` | src/sdk/accountReaders/StorageAccountReader.ts:103 | sort without a comparator gives ascending order if and only if the numbers compare like their decimal strings |
| `Decimal.SameLengthAscends` | src/sdk/accountReaders/StorageAccountReader.ts:103 | so it does when all have equally many digits |
| `Decimal.TenThousandFirst` | src/sdk/accountReaders/StorageAccountReader.ts:103 | and 10000 comes before 9999 |
| `Decimal.SortsAlike` | src/sdk/accountReaders/StorageAccountReader.ts:103 | in whatever order the numbers are given they come out in the same order |
| `ChunkScan.FindCommitmentIndicesInChunk` | src/sdk/accountReaders/StorageAccountReader.ts:101-147 | the scanning loop with its jumps returns what the scan function says, errors included |
| `ChunkScan.LinearScanSeeks` | src/sdk/accountReaders/StorageAccountReader.ts:110-123 | a scan of every place finds each commitment at its first place, and fails exactly when it comes to an empty place with something still to find |
| `ChunkScan.GapIsEmpty` | src/sdk/accountReaders/StorageAccountReader.ts:105-108 | the counting argument: when nothing can be skipped nothing sought lies between a find and the start jumped to |
| `ChunkScan.JumpIsSafe` | src/sdk/accountReaders/StorageAccountReader.ts:135-141 | a jump leads to where looking at every place leads |
| `ChunkScan.SafeScanIsLinear` | src/sdk/accountReaders/StorageAccountReader.ts:101-147 | when nothing can be skipped the jumping scan is the linear scan |
| `SkippingScan.ScanWorksExactly` | src/sdk/accountReaders/StorageAccountReader.ts:101-147 | for any start indices, repeated or not, however many: the jumping scan equals the linear scan on every chunk it may be used on if and only if nothing can be skipped, which is a condition on the start indices alone |
| `SkippingScan.TenStartsExactly` | src/sdk/accountReaders/StorageAccountReader.ts:103-108 | for up to ten start indices nothing can be skipped if and only if the default sort puts them in ascending order |
| `SkippingScan.DifferentStartsExactly` | src/sdk/accountReaders/StorageAccountReader.ts:103-108 | and for different start indices, however many |
| `SkippingScan.ElevenStarts` | src/sdk/accountReaders/StorageAccountReader.ts:103-108 | with eleven it can be otherwise: nine times 1, 2 and 10 do not sort ascending, and yet the scan works |
| `SkippingScan.StartsOutOfOrder` | src/sdk/accountReaders/StorageAccountReader.ts:103 | on the starts 9999 and 10000 it does not work |
| `ChunkScan.FindIsSound` | src/sdk/accountReaders/StorageAccountReader.ts:101-147 | whatever the start indices, what the scan finds is a place of the hash sought, behind one of the starts |
| `StorageSearch.FindCommitmentIndicesAcrossChunks` | src/sdk/accountReaders/StorageAccountReader.ts:70-97 | the chunk loop returns what the search function says, errors included |
| `StorageSearch.GroupAccIndices` | src/sdk/accountReaders/StorageAccountReader.ts:239-253 | each account's group, in order, and the accounts in order of first appearance |
| `StorageSearch.SeekInPiece` | src/sdk/accountReaders/StorageAccountReader.ts:78-94 | seeking in the whole tree from inside a chunk: in the chunk first, then behind it unless the chunk has an empty place |
| `StorageSearch.AcrossFromIs` | src/sdk/accountReaders/StorageAccountReader.ts:70-97 | searching chunk by chunk is one linear search over all chunks put together |
| `TreeSearch.FindCommitmentIndicesFromStartIndex` | src/sdk/accountReaders/StorageAccountReader.ts:48-68 | grouping, searching and merging return what the specification says |
| `TreeSearch.GroupedSearchIsLinear` | src/sdk/accountReaders/StorageAccountReader.ts:48-97 | for any number of commitments: each is found at its first place at or after its own start, and the search fails exactly when one is not there |
| `TreeSearch.LookupIsLinear` | src/sdk/paramManagers/TreeManager.ts:79-88 | the same in terms of nodes |
| `TreeSearch.AloneIsSearchable` | src/sdk/accountReaders/StorageAccountReader.ts:73-76 | for a single commitment nothing of this is needed but that the tree has no holes |
| `TreeSearch.HasCommitmentExactly` | src/sdk/paramManagers/TreeManager.ts:60-77 | it throws for a start that is no leaf; else true exactly when the hash lies at or behind the start with no empty place before it, on any tree |
| `TreeSearch.HasCommitmentOnFilledTree` | src/sdk/paramManagers/TreeManager.ts:60-77 | on a tree filled without holes it is true exactly for the nonzero hashes of the leaves from the start on |
| `GeneralSet.GeneralSet.Add` | src/sdk/utils/GeneralSet.ts:13-15 | a new id goes to the end, a known id keeps its place and gets the new item |
| `GeneralSet.GeneralSet.AddArr` | src/sdk/utils/GeneralSet.ts:17-19 | adds one after the other |
| `GeneralSet.GeneralSet.ToArray` | src/sdk/utils/GeneralSet.ts:29-31 | the items in insertion order |
| `GeneralSet.SetOfAll` | src/sdk/utils/GeneralSet.ts:13-31 | with ids that tell items apart the set holds exactly the items added, each once |
| `Openings.KeysTellNodesApart` | src/sdk/paramManagers/TreeManager.ts:94-95 | both string keys are injective on nodes |
| `Openings.OpeningNodes` | src/sdk/paramManagers/TreeManager.ts:120-132 | the opening of a node has one node of the tree on each level |
| `Openings.OpeningLeadsToRoot` | test/paramManagersTests/TreeManager.test.ts:139-156 | for a tree of any height and any two-input hash: hashing a node up its opening gives the root |
| `Openings.DefaultsFit` | src/sdk/paramManagers/TreeManager.ts:134-146 | replacing unset nodes by the default of their level makes every inner node the hash of its children |
| `Openings.GetCommitmentsAtLocalIndices` | src/sdk/accountReaders/StorageAccountReader.ts:151-188 | reads exactly the values that single reads give; fails exactly for a node outside the tree or an account that is not active |
| `Openings.GetOpenings` | src/sdk/paramManagers/TreeManager.ts:90-114 | the deduplicated batch gives for every leaf what single reads give, and no key is ever missing |
| `Openings.OpenedLeadsToRoot` | src/sdk/paramManagers/TreeManager.ts:90-114 | the opening returned for a node hashes it up to the root returned |
| `Openings.GetCommitmentsInfo` | src/sdk/paramManagers/TreeManager.ts:42-58 | whatever the start indices, everything it returns is right: the leaf holds the commitment, and the opening hashes it up to the root; and which error it throws when |
| `Openings.InfoExactly` | src/sdk/paramManagers/TreeManager.ts:42-58 | with all accounts active and the commitments sought from before where they lie, it succeeds if and only if every start is a leaf and every commitment is at its start or behind it |
| `SigBatches.TxRanges` | src/sdk/txManagers/IdentifierTxFetcher.ts:84-98 | the ranges cut the flat signature list into exactly each nonce's own signatures |
| `SigBatches.SigsToElusivTxs` | src/sdk/txManagers/IdentifierTxFetcher.ts:69-133 | one flat fetch gives what fetching nonce by nonce gives |
| `SigBatches.GetTxsFromNonces` | src/sdk/txManagers/IdentifierTxFetcher.ts:44-61 | signatures are requested for exactly the nonces that are not cached, in order; these get the transactions made of their own responses, dropped exactly when there are no signatures or a response is missing |
| `SigBatches.FetchedSigsExactly` | src/sdk/txManagers/IdentifierTxFetcher.ts:63-66 | of a nonce that is not cached exactly the successful transactions of its identifier are fetched, each in its place and as often as it is listed, and no failed one; of a cached nonce none |
| `SigBatches.MissingLeftOut` | src/sdk/txManagers/IdentifierTxFetcher.ts:99-133 | an answer that is missing leaves out its whole nonce and nothing else, without an error |
| `SigBatches.FailsExactly` | src/sdk/txManagers/IdentifierTxFetcher.ts:99-133 | the fetch fails if and only if some nonce has all its responses and the converter does not accept them |
| `SigBatches.FromOwnResponses` | src/sdk/txManagers/IdentifierTxFetcher.ts:69-133 | a transaction is in the result exactly if it comes from some nonce's own responses |
| `Pipeline.FailedLeftOut` | src/sdk/txManagers/IdentifierTxFetcher.ts:63-66 | whatever failed transactions the node lists between the successful ones, those of the run are what is asked for |
| `Pipeline.NonceGivesSlot` | src/sdk/txManagers/IdentifierTxFetcher.ts:69-133 | fetching the signatures and responses of a nonce, pairing and parsing them gives what the run of the program put under the nonce |
| `Pipeline.RangeGivesFetched` | src/sdk/txManagers/AbstractTxManager.ts:172-181 | for a range of nonces the whole way from signatures to transactions gives exactly what the transaction manager is modelled to receive |
| `Pipeline.FetchTxsInRange` | src/sdk/txManagers/AbstractTxManager.ts:172-181 | the same for the method, with exactly the uncached nonces requested |

## Left out

Properties stated with a condition that the source does not check:

- TreeSearch.LookupIsLinear: needs what the comments of the scan call given, that no commitment lies before its start among those of its account and that the tree has no holes behind a start, and that nothing can be skipped; `AnyStarts.LookupIsSound` needs none of this, and `SkippedInTree.FoundOnEveryExactly` shows that the last is needed.
- TreeSearch.GroupedSearchIsLinear: the same, before start indices are converted.
- CrossedStarts.CrossedStartsExactly: there is room in the tree behind the start indices, for the trees that defeat the lookup; `SkippedInTree.FoundOnEveryExactly` and `Activation.ActivationExactly` need it too.
- FeeCalculator.FeePaysForItsOwnTransactions: needs the total above the subvention; `FeeIdentityExactly` shows that the identity fails otherwise.
- Topups.TopUpStep: of a token in order; `Overfull.PageDecides` says what is built on any reachable chain, without the count of outputs after it.
- TopupEstimate.MergesAsEstimated: the trees hold what is unspent and the scan can skip nothing at every step, as `Activation.ActivationExactly` needs.
- ServingTrees.TreesCanServe: on the empty chain and with one start index for all; other start indices need a tree in which nothing can be skipped.
- TransactionManager.TransactionManager.FetchTxsIntoCache: needs a batch size of at least 1, since with 0 the loop of the source does not advance.
- TransactionManager.TransactionManager.GetTxsInNonceRange: a count of 0 is allowed only on an empty list, since the source would read the element before the first; its callers never do that.

Not modelled:

- Completions of other runs while the gaps of a page are filled and between the pages of one call: when the cache is whole up to its newest nonce, as stepping forward leaves it, nothing is fetched there.
- Which interferences can occur together: the two runs of `Activation.BuildTopUpTx` may each be overtaken in any way.
- The proof library, which may reject a send with more than SEND_ARITY inputs.
- RPC nodes, wardens, timers, retries, and what changes on chain or in the tree during one call.
- Poseidon, Montgomery form, key derivation, encryption, parsing and proofs: functions without properties, but for the injective hash of a commitment.
- `transactionStatus`, which `fetchTxs` and `getActiveTxs` write into cached transactions: no modelled code reads it.
- Histories with gaps, and a nonce that gains a transaction after it was cached: paging stops at the gap and the cache does not fetch again.
- `getTxs` without a count, which nothing modelled calls.
- Transactions without a signature: everything parsed from the chain has one, and `getActiveTxs` tells topups apart by it.
- `SendTx.fee` of a transaction that was just built also holds rent and extra fee; the ledger uses the fee parsed from the chain.
- The minimum amount of a send, memo length, recipients and rents: the amount of a request is the amount with rent and extra fee already added.
- Public inputs of 2^256 and more, which the serialization rejects; token prices and floating-point conversion; the store fee: the estimate takes the two fees of a topup as given.
- Negative start indices, which `leafIndexToLocalIndex` lets through.
- `Math.log2` in floating point: the level of a node is the exact floor of the logarithm.
- Byte layout: a chunk is a sequence of hashes, a chunk account is active or not.
- `GeneralSet.delete`, `readAtIndex`, statistics, token tables and the viewing key.
