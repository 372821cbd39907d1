/**
 Finding commitments in the on-chain Merkle tree, src/sdk/accountReaders/StorageAccountReader.ts and
 `getCommitmentIndices` and `hasCommitment` of src/sdk/paramManagers/TreeManager.ts. The nodes of the tree
 are numbered as in a heap and stored in 25 chunk accounts; the search groups the commitments by the
 account of their start index and goes from chunk to chunk. It is compared with a linear search over all
 chunks put together.
 */
module StorageSearch {
  import opened Common
  import opened Decimal
  import opened IndexConverter
  import opened ChunkScan

  /** The chunk accounts in order; `None` is a chunk account that is not active yet. */
  type Tree = seq<Option<seq<Hash>>>

  ghost predicate WellSized(tree: Tree) {
    && |tree| == STORAGE_MT_CHUNK_COUNT
    && forall a :: 0 <= a < |tree| && tree[a].Some? ==> |tree[a].value| == STORAGE_MT_VALUES_PER_ACCOUNT
  }

  /** A commitment to find. Two entries with equal hashes are different array objects: `id` tells them apart. */
  datatype Sought = Sought(id: nat, hash: Hash, at: AccIndex)

  type Indices = map<Sought, nat>

  function GetChunk(tree: Tree, acc: nat): Result<seq<Hash>> {
    if acc >= STORAGE_MT_CHUNK_COUNT || acc >= |tree| then Err(InvalidRead)
    else match tree[acc] case None => Err(InvalidRead) case Some(chunk) => Ok(chunk)
  }

  function MinAcc(comms: seq<Sought>): nat {
    if comms == [] then STORAGE_MT_CHUNK_COUNT
    else
      var m, a := MinAcc(comms[..|comms| - 1]), comms[|comms| - 1].at.indexOfAccount;
      if a < m then a else m
  }

  /** The commitments without a place in `res`, in order. */
  function LeftToFind(comms: seq<Sought>, res: Indices): seq<Sought> {
    if comms == [] then []
    else
      var rest, last := LeftToFind(comms[..|comms| - 1], res), comms[|comms| - 1];
      if last in res then rest else rest + [last]
  }

  function Hashes(comms: seq<Sought>): seq<Hash> { seq(|comms|, i requires 0 <= i < |comms| => comms[i].hash) }

  /** The place of the tree where chunk `acc` begins. */
  function Base(acc: nat): nat {
    if acc == 0 then 0 else Base(acc - 1) + STORAGE_MT_VALUES_PER_ACCOUNT
  }

  lemma {:induction false} BaseIs(acc: nat)
    ensures Base(acc) == acc * STORAGE_MT_VALUES_PER_ACCOUNT
  {
    if acc > 0 { BaseIs(acc - 1); }
  }

  /** Where the search starts in chunk `acc`. */
  function Starts(comms: seq<Sought>, acc: nat): seq<nat> {
    seq(|comms|, i requires 0 <= i < |comms| =>
      if comms[i].at.indexOfAccount == acc then comms[i].at.indexInAccount else 0)
  }

  /** `res` with the places found in the chunk that starts at place `base` of the tree. */
  function Record(res: Indices, left: seq<Sought>, found: Found, base: nat): Indices
    requires |left| == |found|
  {
    if left == [] then res
    else
      var n := |left| - 1;
      var before := Record(res, left[..n], found[..n], base);
      if found[n].Some? then before[left[n] := base + found[n].value] else before
  }

  /** The search from chunk `acc` on. */
  function AcrossFrom(tree: Tree, comms: seq<Sought>, acc: nat, res: Indices): Result<Indices>
    decreases STORAGE_MT_CHUNK_COUNT - acc
  {
    if |res| == |comms| || acc >= STORAGE_MT_CHUNK_COUNT then Ok(res)
    else match GetChunk(tree, acc)
      case Err(e) => Err(e)
      case Ok(chunk) =>
        var left := LeftToFind(comms, res);
        match FindInChunk(chunk, Hashes(left), Starts(left, acc))
        case Err(e) => Err(e)
        case Ok(found) =>
          AcrossFrom(tree, comms, acc + 1, Record(res, left, found, Base(acc)))
  }

  function Across(tree: Tree, comms: seq<Sought>): Result<Indices> {
    if comms == [] then Ok(map[]) else AcrossFrom(tree, comms, MinAcc(comms), map[])
  }

  // ---------------------------------------------------------------- chunks and the whole tree

  /** The values of a chunk account; one that is not active is empty. */
  function Values(chunk: Option<seq<Hash>>): seq<Hash> {
    match chunk case None => seq(STORAGE_MT_VALUES_PER_ACCOUNT, _ => 0) case Some(values) => values
  }

  /** The first `n` chunks put together. */
  function FlatTo(tree: Tree, n: nat): (flat: seq<Hash>)
    requires WellSized(tree) && n <= |tree|
    ensures |flat| == Base(n)
  {
    if n == 0 then [] else FlatTo(tree, n - 1) + Values(tree[n - 1])
  }

  /** The whole tree as one sequence. */
  function Flat(tree: Tree): seq<Hash>
    requires WellSized(tree)
  {
    FlatTo(tree, |tree|)
  }

  /** `chunk` lies in `flat` from place `base` on. */
  ghost predicate Piece(flat: seq<Hash>, base: nat, chunk: seq<Hash>) {
    base + |chunk| <= |flat| && forall i :: 0 <= i < |chunk| ==> flat[base + i] == chunk[i]
  }

  lemma {:induction false} FlatPieces(tree: Tree, acc: nat, n: nat)
    requires WellSized(tree) && acc < n <= |tree|
    ensures Piece(FlatTo(tree, n), Base(acc), Values(tree[acc]))
    decreases n
  {
    if acc < n - 1 { FlatPieces(tree, acc, n - 1); }
  }

  /** `flat` consists of the values of all chunks in order. */
  ghost predicate Covers(tree: Tree, flat: seq<Hash>) {
    |flat| == Base(|tree|) && forall acc :: 0 <= acc < |tree| ==> Piece(flat, Base(acc), Values(tree[acc]))
  }

  lemma FlatCovers(tree: Tree)
    requires WellSized(tree)
    ensures Covers(tree, Flat(tree))
  {
    forall acc | 0 <= acc < |tree| ensures Piece(Flat(tree), Base(acc), Values(tree[acc])) {
      FlatPieces(tree, acc, |tree|);
    }
  }

  /** Seeking in the whole from inside a piece: in the piece first, then, unless it has an empty place, behind it. */
  lemma {:induction false} SeekInPiece(flat: seq<Hash>, base: nat, chunk: seq<Hash>, c: Hash, f: nat)
    requires Piece(flat, base, chunk) && f <= |chunk|
    ensures Seek(flat, c, base + f) == match Seek(chunk, c, f)
                                       case Some(i) => Some(base + i)
                                       case None => if HasEmpty(chunk, f) then None else Seek(flat, c, base + |chunk|)
    decreases |chunk| - f
  {
    if f < |chunk| {
      assert flat[base + f] == chunk[f];
      if chunk[f] != 0 {
        SeekInPiece(flat, base, chunk, c, f + 1);
        assert HasEmpty(chunk, f) <==> HasEmpty(chunk, f + 1);
      }
    }
  }

  lemma EmptyInPiece(flat: seq<Hash>, base: nat, chunk: seq<Hash>, f: nat)
    requires Piece(flat, base, chunk) && f <= |chunk|
    ensures HasEmpty(flat, base + f) <==> HasEmpty(chunk, f) || HasEmpty(flat, base + |chunk|)
  {
    if HasEmpty(chunk, f) {
      var i :| f <= i < |chunk| && chunk[i] == 0;
      assert flat[base + i] == 0;
    }
    if HasEmpty(flat, base + f) && !HasEmpty(flat, base + |chunk|) {
      var i :| base + f <= i < |flat| && flat[i] == 0;
      assert chunk[i - base] == flat[base + (i - base)];
    }
  }

  // ---------------------------------------------------------------- scans that never jump

  /** While all start indices are behind it, the scan looks at every place. */
  lemma {:induction false} NoJumps(chunk: seq<Hash>, comms: seq<Hash>, starts: seq<nat>, k: nat, i: nat, res: Found)
    requires |comms| == |res| && forall m :: 0 <= m < |starts| ==> starts[m] <= i
    ensures Scan(chunk, comms, starts, k, i, res) == LinearScan(chunk, comms, i, res)
    decreases |chunk| - i
  {
    if i < |chunk| && chunk[i] != 0 {
      var res' := Mark(comms, res, chunk[i], i);
      if !AllFound(res') {
        NoJumps(chunk, comms, starts, if res' != res then k + 1 else k, i + 1, res');
      }
    }
  }

  /** In particular when all start indices are equal, as in every chunk after the first, or for one commitment. */
  lemma EqualStartsScanLinearly(chunk: seq<Hash>, comms: seq<Hash>, starts: seq<nat>, f: nat)
    requires |comms| == |starts| > 0 && forall m :: 0 <= m < |starts| ==> starts[m] == f
    ensures FindInChunk(chunk, comms, starts) == LinearScan(chunk, comms, f, NoneFound(|comms|))
  {
    SortDecimalKeeps(starts);
    var sorted := SortDecimal(starts);
    forall m | 0 <= m < |sorted| ensures sorted[m] == f {
      assert sorted[m] in sorted;
    }
    NoJumps(chunk, comms, sorted, 0, f, NoneFound(|comms|));
  }

  // ---------------------------------------------------------------- what the search over the chunks finds

  ghost predicate NoDup(comms: seq<Sought>) { forall i, j :: 0 <= i < j < |comms| ==> comms[i] != comms[j] }

  ghost predicate Complete(comms: seq<Sought>, m: Indices) { forall c :: c in comms ==> c in m }

  ghost predicate Within(comms: seq<Sought>, m: Indices) { forall c :: c in m ==> c in comms }

  /** What is known of `c` once it was sought in `flat` from `from` on, unless it has a place in `res`. */
  function ReachedAt(flat: seq<Hash>, c: Sought, from: nat, res: Indices): Option<nat> {
    if c in res then Some(res[c]) else Seek(flat, c.hash, from)
  }

  ghost function Reached(flat: seq<Hash>, comms: seq<Sought>, from: nat, res: Indices): Indices {
    map c | c in comms && ReachedAt(flat, c, from, res).Some? :: ReachedAt(flat, c, from, res).value
  }

  /** The search fails exactly when something is missing and the tree has an empty place ahead. */
  ghost predicate Outcome(r: Result<Indices>, flat: seq<Hash>, comms: seq<Sought>, from: nat, res: Indices) {
    var goal := Reached(flat, comms, from, res);
    && (r.Ok? <==> Complete(comms, goal) || !HasEmpty(flat, from))
    && (r.Ok? ==> r.value == goal)
  }

  lemma {:induction false} LeftToFindIs(comms: seq<Sought>, res: Indices)
    ensures forall c :: c in LeftToFind(comms, res) <==> c in comms && c !in res
    ensures LeftToFind(comms, res) == [] <==> Complete(comms, res)
  {
    if comms != [] {
      var init, last := comms[..|comms| - 1], comms[|comms| - 1];
      LeftToFindIs(init, res);
      assert comms == init + [last];
      assert last in comms;
      forall c ensures c in LeftToFind(comms, res) <==> c in comms && c !in res {}
      if Complete(comms, res) {
        assert forall c :: c in init ==> c in comms;
      }
    }
  }

  /** The size test of the loop: as many places as commitments means all are found. */
  lemma {:induction false} SizeTells(comms: seq<Sought>, res: Indices)
    requires NoDup(comms) && Within(comms, res)
    ensures |res| == |comms| <==> Complete(comms, res)
  {
    var all := set c | c in comms;
    NoDupSize(comms);
    assert res.Keys <= all;
    assert |res| == |res.Keys|;
    if Complete(comms, res) {
      assert res.Keys == all;
    } else {
      var c :| c in comms && c !in res;
      SubsetSize(res.Keys, all - {c});
    }
  }

  lemma {:induction false} NoDupSize(comms: seq<Sought>)
    requires NoDup(comms)
    ensures |set c | c in comms| == |comms|
  {
    if comms == [] {
      assert (set c | c in comms) == {};
    } else {
      var init, last := comms[..|comms| - 1], comms[|comms| - 1];
      NoDupSize(init);
      assert last !in init;
      assert comms == init + [last];
      assert (set c | c in comms) == (set c | c in init) + {last};
    }
  }

  /** What a linear scan of one chunk for `left` finds. */
  function SeekAll(chunk: seq<Hash>, left: seq<Sought>, f: nat): Found {
    seq(|left|, i requires 0 <= i < |left| => Seek(chunk, left[i].hash, f))
  }

  lemma {:induction false} RecordIs(res: Indices, left: seq<Sought>, chunk: seq<Hash>, f: nat, base: nat)
    requires forall c :: c in left ==> c !in res
    ensures var r := Record(res, left, SeekAll(chunk, left, f), base);
            && (forall c :: c in r <==> c in res || (c in left && Seek(chunk, c.hash, f).Some?))
            && (forall c :: c in res ==> r[c] == res[c])
            && (forall c :: c in r && c !in res ==> r[c] == base + Seek(chunk, c.hash, f).value)
  {
    if left != [] {
      var n := |left| - 1;
      assert SeekAll(chunk, left, f)[..n] == SeekAll(chunk, left[..n], f);
      assert forall c :: c in left[..n] ==> c in left;
      RecordIs(res, left[..n], chunk, f, base);
      assert left == left[..n] + [left[n]];
      assert left[n] in left;
    }
  }

  /** A chunk scan finds each missing commitment at its first place in the chunk, or fails. */
  lemma ChunkResult(chunk: seq<Hash>, left: seq<Sought>, f: nat)
    requires left != []
    ensures var goal := SeekAll(chunk, left, f);
            LinearScan(chunk, Hashes(left), f, NoneFound(|left|))
            == if AllFound(goal) || !HasEmpty(chunk, f) then Ok(goal) else Err(CouldNotFetch)
  {
    assert NoneFound(|left|)[0] == None;
    LinearScanSeeks(chunk, Hashes(left), f, NoneFound(|left|));
    assert SeekRest(chunk, Hashes(left), f, NoneFound(|left|)) == SeekAll(chunk, left, f);
  }

  /** What the scan of a chunk adds to `res`. */
  ghost predicate Adds(comms: seq<Sought>, chunk: seq<Hash>, base: nat, f: nat, res: Indices, res': Indices) {
    && (forall c :: c in res' <==> c in res || (c in comms && c !in res && Seek(chunk, c.hash, f).Some?))
    && (forall c :: c in res ==> res'[c] == res[c])
    && (forall c :: c in res' && c !in res ==> res'[c] == base + Seek(chunk, c.hash, f).value)
  }

  lemma OneBehindTheChunk(flat: seq<Hash>, base: nat, chunk: seq<Hash>, comms: seq<Sought>, f: nat, res: Indices,
        res': Indices, c: Sought)
    requires Piece(flat, base, chunk) && f <= |chunk| && c in comms && Adds(comms, chunk, base, f, res, res')
    requires c in res' || !HasEmpty(chunk, f)
    ensures ReachedAt(flat, c, base + f, res) == ReachedAt(flat, c, base + |chunk|, res')
  {
    SeekInPiece(flat, base, chunk, c.hash, f);
  }

  /** Going on behind a chunk with what it gave is as good as seeking from inside the chunk. */
  lemma BehindTheChunk(flat: seq<Hash>, base: nat, chunk: seq<Hash>, comms: seq<Sought>, f: nat, res: Indices,
        res': Indices)
    requires Piece(flat, base, chunk) && f <= |chunk| && Within(comms, res) && Adds(comms, chunk, base, f, res, res')
    requires Complete(comms, res') || !HasEmpty(chunk, f)
    ensures Reached(flat, comms, base + f, res) == Reached(flat, comms, base + |chunk|, res')
    ensures Within(comms, res')
    ensures Complete(comms, res') || (HasEmpty(flat, base + f) <==> HasEmpty(flat, base + |chunk|))
  {
    forall c | c in comms
      ensures ReachedAt(flat, c, base + f, res) == ReachedAt(flat, c, base + |chunk|, res')
    {
      OneBehindTheChunk(flat, base, chunk, comms, f, res, res', c);
    }
    EmptyInPiece(flat, base, chunk, f);
  }

  /** When the chunk scan fails, so does the linear search over the whole. */
  lemma StuckInTheChunk(flat: seq<Hash>, base: nat, chunk: seq<Hash>, comms: seq<Sought>, f: nat, res: Indices,
        c: Sought)
    requires Piece(flat, base, chunk) && f <= |chunk|
    requires c in comms && c !in res && Seek(chunk, c.hash, f).None? && HasEmpty(chunk, f)
    ensures Outcome(Err(CouldNotFetch), flat, comms, base + f, res)
  {
    SeekInPiece(flat, base, chunk, c.hash, f);
    EmptyInPiece(flat, base, chunk, f);
    assert c !in Reached(flat, comms, base + f, res);
  }

  /** The jumping scan of chunk `acc`, for what is missing from `res`, is a linear scan from place `f`. */
  ghost predicate LinearHere(tree: Tree, comms: seq<Sought>, acc: nat, f: nat, res: Indices) {
    var left := LeftToFind(comms, res);
    acc < |tree| && tree[acc].Some? && left != [] ==>
      FindInChunk(tree[acc].value, Hashes(left), Starts(left, acc))
          == LinearScan(tree[acc].value, Hashes(left), f, NoneFound(|left|))
  }

  lemma NothingAhead(flat: seq<Hash>, comms: seq<Sought>, from: nat, res: Indices)
    requires Within(comms, res) && (from >= |flat| || flat[from] == 0 || Complete(comms, res))
    ensures Reached(flat, comms, from, res) == res
  {
    assert forall c :: c in comms && c !in res ==> Seek(flat, c.hash, from) == None;
  }

  lemma CarryOver(r: Result<Indices>, flat: seq<Hash>, comms: seq<Sought>, from: nat, next: nat, res: Indices,
        res': Indices)
    requires Reached(flat, comms, from, res) == Reached(flat, comms, next, res')
    requires Complete(comms, res') || (HasEmpty(flat, from) <==> HasEmpty(flat, next))
    requires Outcome(r, flat, comms, next, res')
    ensures Outcome(r, flat, comms, from, res)
  {
    if Complete(comms, res') {
      assert Complete(comms, Reached(flat, comms, next, res'));
    }
  }

  /** The scan of the chunk gets on: it finds everything left, or comes to no empty place. */
  predicate ChunkGoesOn(chunk: seq<Hash>, left: seq<Sought>, f: nat) {
    AllFound(SeekAll(chunk, left, f)) || !HasEmpty(chunk, f)
  }

  lemma ChunkFound(flat: seq<Hash>, base: nat, chunk: seq<Hash>, comms: seq<Sought>, f: nat, res: Indices)
    requires Piece(flat, base, chunk) && f <= |chunk| && Within(comms, res)
    requires ChunkGoesOn(chunk, LeftToFind(comms, res), f)
    ensures var left := LeftToFind(comms, res);
            var res' := Record(res, left, SeekAll(chunk, left, f), base);
            && Reached(flat, comms, base + f, res) == Reached(flat, comms, base + |chunk|, res') && Within(comms, res')
            && (Complete(comms, res') || (HasEmpty(flat, base + f) <==> HasEmpty(flat, base + |chunk|)))
  {
    var left := LeftToFind(comms, res);
    LeftToFindIs(comms, res);
    var goal := SeekAll(chunk, left, f);
    var res' := Record(res, left, goal, base);
    RecordIs(res, left, chunk, f, base);
    if AllFound(goal) { AllFoundCompletes(chunk, comms, left, f, res, res'); }
    BehindTheChunk(flat, base, chunk, comms, f, res, res');
  }

  lemma AllFoundCompletes(chunk: seq<Hash>, comms: seq<Sought>, left: seq<Sought>, f: nat, res: Indices, res': Indices)
    requires AllFound(SeekAll(chunk, left, f))
    requires forall c :: c in left <==> c in comms && c !in res
    requires forall c :: c in res' <==> c in res || (c in left && Seek(chunk, c.hash, f).Some?)
    ensures Complete(comms, res')
  {
    forall c | c in comms && c !in res ensures c in res' {
      var i :| 0 <= i < |left| && left[i] == c;
      assert SeekAll(chunk, left, f)[i].Some?;
    }
  }

  ghost predicate StartUpTo(comms: seq<Sought>, acc: nat) { forall c :: c in comms ==> c.at.indexOfAccount <= acc }

  /** In every chunk behind the start the scan begins at place 0. */
  lemma NextIsLinear(tree: Tree, comms: seq<Sought>, acc: nat, res: Indices)
    requires acc > 0 && StartUpTo(comms, acc - 1)
    ensures LinearHere(tree, comms, acc, 0, res) && StartUpTo(comms, acc)
  {
    var left := LeftToFind(comms, res);
    if acc < |tree| && tree[acc].Some? && left != [] {
      LeftToFindIs(comms, res);
      forall m | 0 <= m < |left| ensures Starts(left, acc)[m] == 0 {
        assert left[m] in left;
      }
      EqualStartsScanLinearly(tree[acc].value, Hashes(left), Starts(left, acc), 0);
    }
  }

  /** One round of the search, in a chunk that is active. */
  lemma OneRound(tree: Tree, comms: seq<Sought>, acc: nat, f: nat, res: Indices)
    requires acc < STORAGE_MT_CHUNK_COUNT <= |tree| && tree[acc].Some?
    requires LinearHere(tree, comms, acc, f, res) && NoDup(comms) && Within(comms, res) && !Complete(comms, res)
    ensures AcrossFrom(tree, comms, acc, res)
            == if GoesOn(tree, comms, acc, f, res)
               then AcrossFrom(tree, comms, acc + 1, AfterRound(tree, comms, acc, f, res))
               else Err(CouldNotFetch)
  {
    SizeTells(comms, res);
    LeftToFindIs(comms, res);
    ChunkResult(tree[acc].value, LeftToFind(comms, res), f);
  }

  lemma StuckRound(flat: seq<Hash>, base: nat, chunk: seq<Hash>, comms: seq<Sought>, f: nat, res: Indices)
    requires Piece(flat, base, chunk) && f <= |chunk| && !ChunkGoesOn(chunk, LeftToFind(comms, res), f)
    ensures Outcome(Err(CouldNotFetch), flat, comms, base + f, res)
  {
    var left := LeftToFind(comms, res);
    LeftToFindIs(comms, res);
    var goal := SeekAll(chunk, left, f);
    var i :| 0 <= i < |goal| && goal[i].None?;
    assert left[i] in left;
    StuckInTheChunk(flat, base, chunk, comms, f, res, left[i]);
  }

  /** Given the outcome of going on behind the chunk, the outcome of a round. */
  lemma RoundOutcome(flat: seq<Hash>, base: nat, chunk: seq<Hash>, comms: seq<Sought>, f: nat, res: Indices,
        res': Indices, r: Result<Indices>)
    requires Piece(flat, base, chunk) && f <= |chunk| && Within(comms, res)
    requires ChunkGoesOn(chunk, LeftToFind(comms, res), f)
    requires res' == Record(res, LeftToFind(comms, res), SeekAll(chunk, LeftToFind(comms, res), f), base)
    requires Outcome(r, flat, comms, base + |chunk|, res')
    ensures Outcome(r, flat, comms, base + f, res)
  {
    ChunkFound(flat, base, chunk, comms, f, res);
    CarryOver(r, flat, comms, base + f, base + |chunk|, res, res');
  }

  lemma {:induction false} BaseGrows(a: nat, b: nat)
    requires a <= b
    ensures Base(a) <= Base(b)
  {
    if a < b { BaseGrows(a, b - 1); }
  }

  lemma EndOutcome(flat: seq<Hash>, comms: seq<Sought>, from: nat, res: Indices)
    requires Within(comms, res) && (Complete(comms, res) || from >= |flat|)
    ensures Outcome(Ok(res), flat, comms, from, res)
  {
    NothingAhead(flat, comms, from, res);
  }

  lemma InactiveOutcome(flat: seq<Hash>, comms: seq<Sought>, from: nat, res: Indices)
    requires Within(comms, res) && !Complete(comms, res) && from < |flat| && flat[from] == 0
    ensures Outcome(Err(InvalidRead), flat, comms, from, res)
  {
    NothingAhead(flat, comms, from, res);
    assert HasEmpty(flat, from);
  }

  lemma EndValue(tree: Tree, comms: seq<Sought>, acc: nat, res: Indices)
    requires NoDup(comms) && Within(comms, res)
    requires Complete(comms, res) || acc >= STORAGE_MT_CHUNK_COUNT || (acc < |tree| && tree[acc].None?)
    ensures AcrossFrom(tree, comms, acc, res)
            == if Complete(comms, res) || acc >= STORAGE_MT_CHUNK_COUNT then Ok(res) else Err(InvalidRead)
  {
    SizeTells(comms, res);
  }

  lemma EndPlace(tree: Tree, flat: seq<Hash>, acc: nat, f: nat)
    requires WellSized(tree) && Covers(tree, flat) && f < STORAGE_MT_VALUES_PER_ACCOUNT
    ensures acc >= STORAGE_MT_CHUNK_COUNT ==> Base(acc) + f >= |flat|
    ensures acc < |tree| && tree[acc].None? ==> Base(acc) + f < |flat| && flat[Base(acc) + f] == 0
  {
    if acc >= STORAGE_MT_CHUNK_COUNT {
      BaseGrows(STORAGE_MT_CHUNK_COUNT, acc);
    } else if tree[acc].None? {
      assert flat[Base(acc) + f] == Values(tree[acc])[f];
    }
  }

  /** The search ends when everything is found, behind the last chunk, or at a chunk that is not active. */
  lemma SearchEnds(tree: Tree, flat: seq<Hash>, comms: seq<Sought>, acc: nat, f: nat, res: Indices)
    requires WellSized(tree) && Covers(tree, flat) && NoDup(comms) && Within(comms, res)
    requires f < STORAGE_MT_VALUES_PER_ACCOUNT
    requires Complete(comms, res) || acc >= STORAGE_MT_CHUNK_COUNT || (acc < |tree| && tree[acc].None?)
    ensures Outcome(AcrossFrom(tree, comms, acc, res), flat, comms, Base(acc) + f, res)
  {
    hide *;
    EndValue(tree, comms, acc, res);
    EndPlace(tree, flat, acc, f);
    if Complete(comms, res) || acc >= STORAGE_MT_CHUNK_COUNT {
      EndOutcome(flat, comms, Base(acc) + f, res);
    } else {
      InactiveOutcome(flat, comms, Base(acc) + f, res);
    }
  }

  ghost predicate GoesOn(tree: Tree, comms: seq<Sought>, acc: nat, f: nat, res: Indices)
    requires acc < |tree| && tree[acc].Some?
  {
    ChunkGoesOn(tree[acc].value, LeftToFind(comms, res), f)
  }

  /** What is known after the round of chunk `acc`. */
  function AfterRound(tree: Tree, comms: seq<Sought>, acc: nat, f: nat, res: Indices): Indices
    requires acc < |tree| && tree[acc].Some?
  {
    var left := LeftToFind(comms, res);
    Record(res, left, SeekAll(tree[acc].value, left, f), Base(acc))
  }

  lemma RoundStaysWithin(tree: Tree, comms: seq<Sought>, acc: nat, f: nat, res: Indices)
    requires acc < |tree| && tree[acc].Some? && Within(comms, res)
    ensures Within(comms, AfterRound(tree, comms, acc, f, res))
  {
    LeftToFindIs(comms, res);
    RecordIs(res, LeftToFind(comms, res), tree[acc].value, f, Base(acc));
  }

  lemma RoundStep(tree: Tree, flat: seq<Hash>, comms: seq<Sought>, acc: nat, f: nat, res: Indices, r: Result<Indices>)
    requires acc < |tree| && tree[acc].Some? && f < |tree[acc].value| == STORAGE_MT_VALUES_PER_ACCOUNT
    requires Piece(flat, Base(acc), tree[acc].value) && Within(comms, res)
    requires if GoesOn(tree, comms, acc, f, res)
            then Outcome(r, flat, comms, Base(acc + 1), AfterRound(tree, comms, acc, f, res))
             else r == Err(CouldNotFetch)
    ensures Outcome(r, flat, comms, Base(acc) + f, res)
  {
    hide Outcome, ChunkGoesOn, Piece, Within, Record, LeftToFind, SeekAll;
    if GoesOn(tree, comms, acc, f, res) {
      RoundOutcome(flat, Base(acc), tree[acc].value, comms, f, res, AfterRound(tree, comms, acc, f, res), r);
    } else {
      StuckRound(flat, Base(acc), tree[acc].value, comms, f, res);
    }
  }

  /** What the next round may count on. */
  lemma RoundReady(tree: Tree, comms: seq<Sought>, acc: nat, f: nat, res: Indices)
    requires acc < |tree| && tree[acc].Some? && Within(comms, res) && StartUpTo(comms, acc)
    ensures var res' := AfterRound(tree, comms, acc, f, res);
            Within(comms, res') && LinearHere(tree, comms, acc + 1, 0, res') && StartUpTo(comms, acc + 1)
  {
    RoundStaysWithin(tree, comms, acc, f, res);
    NextIsLinear(tree, comms, acc + 1, AfterRound(tree, comms, acc, f, res));
  }

  /** A round leads to the outcome of a linear search if the rest of the search does. */
  lemma ActiveRound(tree: Tree, flat: seq<Hash>, comms: seq<Sought>, acc: nat, f: nat, res: Indices)
    requires WellSized(tree) && Covers(tree, flat) && NoDup(comms) && Within(comms, res) && !Complete(comms, res)
    requires acc < STORAGE_MT_CHUNK_COUNT && tree[acc].Some? && f < STORAGE_MT_VALUES_PER_ACCOUNT
    requires LinearHere(tree, comms, acc, f, res)
    requires GoesOn(tree, comms, acc, f, res) ==>
               var res' := AfterRound(tree, comms, acc, f, res);
               Outcome(AcrossFrom(tree, comms, acc + 1, res'), flat, comms, Base(acc + 1), res')
    ensures Outcome(AcrossFrom(tree, comms, acc, res), flat, comms, Base(acc) + f, res)
  {
    OneRound(tree, comms, acc, f, res);
    RoundStep(tree, flat, comms, acc, f, res, AcrossFrom(tree, comms, acc, res));
  }

  /** If the scan of the first chunk is linear, the search over the chunks is the linear search over the whole. */
  lemma {:induction false} AcrossFromIs(tree: Tree, flat: seq<Hash>, comms: seq<Sought>, acc: nat, f: nat, res: Indices)
    requires WellSized(tree) && Covers(tree, flat) && NoDup(comms) && Within(comms, res)
    requires acc <= STORAGE_MT_CHUNK_COUNT && f < STORAGE_MT_VALUES_PER_ACCOUNT
    requires acc < STORAGE_MT_CHUNK_COUNT ==> LinearHere(tree, comms, acc, f, res)
    requires StartUpTo(comms, acc) && |tree| == STORAGE_MT_CHUNK_COUNT
    ensures Outcome(AcrossFrom(tree, comms, acc, res), flat, comms, Base(acc) + f, res)
    decreases STORAGE_MT_CHUNK_COUNT - acc
  {
    hide *;
    if Complete(comms, res) || acc >= STORAGE_MT_CHUNK_COUNT || tree[acc].None? {
      SearchEnds(tree, flat, comms, acc, f, res);
    } else {
      if GoesOn(tree, comms, acc, f, res) {
        RoundReady(tree, comms, acc, f, res);
        AcrossFromIs(tree, flat, comms, acc + 1, 0, AfterRound(tree, comms, acc, f, res));
      }
      ActiveRound(tree, flat, comms, acc, f, res);
    }
  }

  // ---------------------------------------------------------------- the loops of the source

  /** `findCommitmentIndicesAcrossChunks` */
  method FindCommitmentIndicesAcrossChunks(tree: Tree, comms: seq<Sought>) returns (r: Result<Indices>)
    ensures r == Across(tree, comms)
  {
    if |comms| == 0 {
      return Ok(map[]);
    }
    var minAcc := STORAGE_MT_CHUNK_COUNT;
    for i := 0 to |comms|
      invariant minAcc == MinAcc(comms[..i])
    {
      assert comms[..i + 1][..i] == comms[..i];
      minAcc := if comms[i].at.indexOfAccount < minAcc then comms[i].at.indexOfAccount else minAcc;
    }
    assert comms[..|comms|] == comms;
    var res: Indices := map[];
    var accIndex := minAcc;
    while |res| != |comms| && accIndex < STORAGE_MT_CHUNK_COUNT
      invariant AcrossFrom(tree, comms, accIndex, res) == Across(tree, comms)
      decreases STORAGE_MT_CHUNK_COUNT - accIndex
    {
      var chunk := GetChunk(tree, accIndex);
      if chunk.Err? {
        return Err(chunk.error);
      }
      var leftToFindComms := StillMissing(comms, res);
      var foundIndices := FindCommitmentIndicesInChunk(chunk.value, Hashes(leftToFindComms), Starts(leftToFindComms,
          accIndex));
      if foundIndices.Err? {
        return Err(foundIndices.error);
      }
      res := InsertFound(res, leftToFindComms, foundIndices.value, accIndex);
      accIndex := accIndex + 1;
    }
    return Ok(res);
  }

  /** The `filter` of the search's loop. */
  method StillMissing(comms: seq<Sought>, res: Indices) returns (left: seq<Sought>)
    ensures left == LeftToFind(comms, res)
  {
    left := [];
    for i := 0 to |comms|
      invariant left == LeftToFind(comms[..i], res)
    {
      assert comms[..i + 1][..i] == comms[..i];
      if comms[i] !in res { left := left + [comms[i]]; }
    }
    assert comms[..|comms|] == comms;
  }

  /** The loop that inserts what was found in a chunk. */
  method InsertFound(before: Indices, left: seq<Sought>, found: Found, accIndex: nat) returns (res: Indices)
    requires |left| == |found| && accIndex < STORAGE_MT_CHUNK_COUNT
    ensures res == Record(before, left, found, Base(accIndex))
  {
    res := before;
    BaseIs(accIndex);
    for i := 0 to |found|
      invariant res == Record(before, left[..i], found[..i], Base(accIndex))
    {
      assert left[..i + 1][..i] == left[..i] && found[..i + 1][..i] == found[..i];
      if found[i].Some? {
        res := res[left[i] := AccToGlobal(AccIndex(accIndex, found[i].value)).value];
      }
    }
    assert left[..|left|] == left && found[..|found|] == found;
  }

  /** The commitments whose start lies in account `a`, in order. */
  function InAccount(comms: seq<Sought>, a: nat): seq<Sought> {
    if comms == [] then []
    else
      var rest, last := InAccount(comms[..|comms| - 1], a), comms[|comms| - 1];
      if last.at.indexOfAccount == a then rest + [last] else rest
  }

  /** The accounts in which starts lie, in the order of their first appearance. */
  function Accounts(comms: seq<Sought>): seq<nat> {
    if comms == [] then []
    else
      var rest, a := Accounts(comms[..|comms| - 1]), comms[|comms| - 1].at.indexOfAccount;
      if a in rest then rest else rest + [a]
  }

  /** `groupAccIndices`: the groups, and their keys in insertion order. */
  method GroupAccIndices(comms: seq<Sought>) returns (groups: map<nat, seq<Sought>>, order: seq<nat>)
    ensures order == Accounts(comms)
    ensures forall a :: a in groups <==> a in order
    ensures forall a :: a in groups ==> groups[a] == InAccount(comms, a) != []
  {
    groups, order := map[], [];
    for i := 0 to |comms|
      invariant order == Accounts(comms[..i])
      invariant forall a :: a in groups <==> a in order
      invariant forall a :: a in groups ==> groups[a] == InAccount(comms[..i], a) != []
      invariant forall a :: a !in groups ==> InAccount(comms[..i], a) == []
    {
      assert comms[..i + 1][..i] == comms[..i];
      var a := comms[i].at.indexOfAccount;
      if a !in groups {
        groups := groups[a := []];
        order := order + [a];
      }
      groups := groups[a := groups[a] + [comms[i]]];
    }
    assert comms[..|comms|] == comms;
  }
}
