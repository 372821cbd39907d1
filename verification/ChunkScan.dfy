/**
 Searching one chunk of the tree for several commitments at once, `findCommitmentIndicesInChunk` of
 src/sdk/accountReaders/StorageAccountReader.ts. The scan starts at the first of the sorted start
 indices and, whenever it finds a commitment, jumps ahead to the next start index.
 */
module ChunkScan {
  import opened Common
  import opened Decimal

  /** A commitment hash. Zero is an empty place of the tree. */
  type Hash = nat

  type Found = seq<Option<nat>>

  function NoneFound(n: nat): Found { seq(n, _ => None) }

  /** All commitments still sought that have this hash were found at `i`. */
  function Mark(comms: seq<Hash>, res: Found, hash: Hash, i: nat): Found
    requires |comms| == |res|
  {
    seq(|res|, j requires 0 <= j < |res| && |comms| == |res| =>
      if res[j] == None && comms[j] == hash then Some(i) else res[j])
  }

  predicate AllFound(res: Found) { forall j | 0 <= j < |res| :: res[j].Some? }

  /** Where the scan goes on after it found something at `i`; `k` of the starts are used up. */
  function JumpTo(starts: seq<nat>, k: nat, i: nat): nat {
    if k < |starts| && starts[k] > i + 1 then starts[k] else i + 1
  }

  /** The scan from place `i` on. */
  function Scan(chunk: seq<Hash>, comms: seq<Hash>, starts: seq<nat>, k: nat, i: nat, res: Found): (r: Result<Found>)
    requires |comms| == |res|
    ensures r.Ok? ==> |r.value| == |comms|
    decreases |chunk| - i
  {
    if i >= |chunk| then Ok(res)
    else if chunk[i] == 0 then Err(CouldNotFetch)
    else
      var res' := Mark(comms, res, chunk[i], i);
      var k' := if res' != res then k + 1 else k;
      if AllFound(res') then Ok(res')
      else Scan(chunk, comms, starts, k', if res' != res then JumpTo(starts, k', i) else i + 1, res')
  }

  /** The same scan that looks at every place. */
  function LinearScan(chunk: seq<Hash>, comms: seq<Hash>, i: nat, res: Found): Result<Found>
    requires |comms| == |res|
    decreases |chunk| - i
  {
    if i >= |chunk| then Ok(res)
    else if chunk[i] == 0 then Err(CouldNotFetch)
    else
      var res' := Mark(comms, res, chunk[i], i);
      if AllFound(res') then Ok(res') else LinearScan(chunk, comms, i + 1, res')
  }

  /** `findCommitmentIndicesInChunk` as a function; without commitments there is nothing to do. */
  function FindInChunk(chunk: seq<Hash>, comms: seq<Hash>, startIndices: seq<nat>): (r: Result<Found>)
    requires |comms| == |startIndices|
    ensures r.Ok? ==> |r.value| == |comms|
  {
    var sorted := SortDecimal(startIndices);
    if sorted == [] then Ok([]) else Scan(chunk, comms, sorted, 0, sorted[0], NoneFound(|comms|))
  }

  /** `findCommitmentIndicesInChunk` */
  method FindCommitmentIndicesInChunk(chunk: seq<Hash>, commHashes: seq<Hash>,
        startIndices: seq<nat>) returns (r: Result<Found>)
    requires |commHashes| == |startIndices|
    ensures r == FindInChunk(chunk, commHashes, startIndices)
  {
    var sortedStartIndices := SortDecimal(startIndices);
    SortDecimalKeeps(startIndices);
    var res := NoneFound(|commHashes|);
    var startIndexIndex := 0;
    if |sortedStartIndices| == 0 {
      return Ok([]);
    }
    var i := sortedStartIndices[startIndexIndex];
    while i < |chunk|
      invariant |res| == |commHashes|
      invariant Scan(chunk, commHashes, sortedStartIndices, startIndexIndex, i, res)
              == FindInChunk(chunk, commHashes, startIndices)
      decreases |chunk| - i
    {
      var fetchedCommitment := chunk[i];
      if fetchedCommitment == 0 {
        return Err(CouldNotFetch);
      }
      var marked := MarkAll(commHashes, res, fetchedCommitment, i);
      var found := marked != res;
      res := marked;
      var next := i;
      if found {
        startIndexIndex := startIndexIndex + 1;
        if startIndexIndex < |sortedStartIndices| {
          var nextStart: int := sortedStartIndices[startIndexIndex];
          next := if nextStart - 1 > i then nextStart - 1 else i;
        }
      }
      if AllFound(res) {
        return Ok(res);
      }
      i := next + 1;
    }
    return Ok(res);
  }

  /** The loop over the commitments in the scan's body. */
  method MarkAll(commHashes: seq<Hash>, res: Found, fetchedCommitment: Hash, i: nat) returns (marked: Found)
    requires |commHashes| == |res|
    ensures marked == Mark(commHashes, res, fetchedCommitment, i)
  {
    marked := res;
    for j := 0 to |commHashes|
      invariant |marked| == |res|
      invariant forall m :: 0 <= m < j ==> marked[m] == Mark(commHashes, res, fetchedCommitment, i)[m]
      invariant forall m :: j <= m < |res| ==> marked[m] == res[m]
    {
      if marked[j] == None && commHashes[j] == fetchedCommitment {
        marked := marked[j := Some(i)];
      }
    }
  }

  // ---------------------------------------------------------------- what a linear scan finds

  /** The first place of `c` from `from` on that is not behind an empty place. */
  function Seek(s: seq<Hash>, c: Hash, from: nat): (r: Option<nat>)
    ensures r.Some? ==> from <= r.value < |s| && s[r.value] == c && c != 0
    decreases |s| - from
  {
    if from >= |s| || s[from] == 0 then None
    else if s[from] == c then Some(from)
    else Seek(s, c, from + 1)
  }

  predicate HasEmpty(s: seq<Hash>, from: nat) { exists i | from <= i < |s| :: s[i] == 0 }

  /** What is found when the commitments not in `res` are sought from `i` on. */
  function SeekRest(s: seq<Hash>, comms: seq<Hash>, i: nat, res: Found): Found
    requires |comms| == |res|
  {
    seq(|res|, j requires 0 <= j < |res| && |comms| == |res| => if res[j].Some? then res[j] else Seek(s, comms[j], i))
  }

  /**
   A linear scan finds each commitment at its first place, and fails exactly when it comes to an empty
   place with something still to find.
   */
  lemma {:induction false} LinearScanSeeks(chunk: seq<Hash>, comms: seq<Hash>, i: nat, res: Found)
    requires |comms| == |res| && !AllFound(res)
    ensures var goal := SeekRest(chunk, comms, i, res);
            LinearScan(chunk, comms, i, res)
            == if AllFound(goal) || !HasEmpty(chunk, i) then Ok(goal) else Err(CouldNotFetch)
    decreases |chunk| - i
  {
    var goal := SeekRest(chunk, comms, i, res);
    if i >= |chunk| {
      assert goal == res;
    } else if chunk[i] == 0 {
      assert goal == res;
    } else {
      var res' := Mark(comms, res, chunk[i], i);
      assert SeekRest(chunk, comms, i + 1, res') == goal;
      if AllFound(res') {
        assert goal == res';
      } else {
        LinearScanSeeks(chunk, comms, i + 1, res');
      }
      assert HasEmpty(chunk, i) <==> HasEmpty(chunk, i + 1);
    }
  }

  // ---------------------------------------------------------------- what any scan finds is right

  /** `v` is a place of `c`, from `from` on. */
  predicate PlaceOf(chunk: seq<Hash>, c: Hash, from: nat, v: nat) { from <= v < |chunk| && chunk[v] == c != 0 }

  lemma {:induction false} ScanIsSound(chunk: seq<Hash>, comms: seq<Hash>, starts: seq<nat>, k: nat, i: nat, res: Found)
    requires |comms| == |res|
    ensures var r := Scan(chunk, comms, starts, k, i, res);
            r.Ok? ==> |r.value| == |res| && forall j :: 0 <= j < |res| ==>
              r.value[j] == res[j] || (r.value[j].Some? && PlaceOf(chunk, comms[j], i, r.value[j].value))
    decreases |chunk| - i
  {
    if i < |chunk| && chunk[i] != 0 {
      var res' := Mark(comms, res, chunk[i], i);
      var k' := if res' != res then k + 1 else k;
      if !AllFound(res') {
        ScanIsSound(chunk, comms, starts, k', if res' != res then JumpTo(starts, k', i) else i + 1, res');
      }
    }
  }

  /** Whatever the start indices, what the scan finds is a place of the hash sought, behind one of the starts. */
  lemma FindIsSound(chunk: seq<Hash>, comms: seq<Hash>, startIndices: seq<nat>)
    requires |comms| == |startIndices|
    ensures var r := FindInChunk(chunk, comms, startIndices);
            r.Ok? ==> |r.value| == |comms| && forall j :: 0 <= j < |comms| && r.value[j].Some? ==>
              exists m :: 0 <= m < |startIndices| && PlaceOf(chunk, comms[j], startIndices[m], r.value[j].value)
  {
    SortDecimalKeeps(startIndices);
    var sorted := SortDecimal(startIndices);
    if sorted != [] {
      assert sorted[0] in startIndices;
      var m :| 0 <= m < |startIndices| && startIndices[m] == sorted[0];
      ScanIsSound(chunk, comms, sorted, 0, sorted[0], NoneFound(|comms|));
      var r := FindInChunk(chunk, comms, startIndices);
      if r.Ok? {
        forall j | 0 <= j < |comms| && r.value[j].Some?
          ensures PlaceOf(chunk, comms[j], startIndices[m], r.value[j].value)
        {
          assert NoneFound(|comms|)[j] == None;
        }
      }
    }
  }

  // ---------------------------------------------------------------- jumping ahead misses nothing

  /** Once a place is empty, so are all after it. */
  ghost predicate Populated(chunk: seq<Hash>, from: nat) {
    forall i, j :: from <= i < j < |chunk| && chunk[i] == 0 ==> chunk[j] == 0
  }

  /** From `low` on, no commitment occurs before its own start index. */
  ghost predicate NotBeforeStart(chunk: seq<Hash>, comms: seq<Hash>, startIndices: seq<nat>, low: nat)
    requires |comms| == |startIndices|
  {
    forall j, p :: 0 <= j < |comms| && low <= p < |chunk| && p < startIndices[j] ==> chunk[p] != comms[j]
  }

  function FoundSet(res: Found): set<nat> { set j | 0 <= j < |res| && res[j].Some? }

  function BelowSet(s: seq<nat>, v: nat): set<nat> { set j | 0 <= j < |s| && s[j] < v }

  lemma {:induction false} BelowSetCount(s: seq<nat>, v: nat)
    ensures |BelowSet(s, v)| == CountBelow(s, v)
  {
    if s == [] {
      assert BelowSet(s, v) == {};
    } else {
      var last, init := s[|s| - 1], s[..|s| - 1];
      BelowSetCount(init, v);
      CountBelowSnoc(init, last, v);
      assert init + [last] == s;
      assert BelowSet(s, v) == BelowSet(init, v) + if last < v then {|s| - 1} else {};
    }
  }

  lemma {:induction false} CountBelowSnoc(s: seq<nat>, x: nat, v: nat)
    ensures CountBelow(s + [x], v) == CountBelow(s, v) + if x < v then 1 else 0
  {
    if s != [] {
      CountBelowSnoc(s[1..], x, v);
      assert (s + [x])[0] == s[0] && (s + [x])[1..] == s[1..] + [x];
    }
  }

  /** In ascending order at most `k` entries are below entry number `k`. */
  lemma {:induction false} AscendingCount(s: seq<nat>, k: nat)
    requires Ascending(s) && k < |s|
    ensures CountBelow(s, s[k]) <= k
  {
    if k > 0 {
      assert Ascending(s[1..]) && s[1..][k - 1] == s[k];
      AscendingCount(s[1..], k - 1);
    } else {
      NoneBelow(s, s[0]);
    }
  }

  lemma {:induction false} NoneBelow(s: seq<nat>, v: nat)
    requires forall i :: 0 <= i < |s| ==> v <= s[i]
    ensures CountBelow(s, v) == 0
  {
    if s != [] { NoneBelow(s[1..], v); }
  }

  /** `m` places before sorted start number `k` there is room for start number `k - m` and for `k + 1 - m` starts. */
  ghost predicate RoomBefore(startIndices: seq<nat>, k: nat, m: nat)
    requires m <= k < |SortDecimal(startIndices)|
  {
    var sorted := SortDecimal(startIndices);
    && m <= sorted[k] && CountBelow(startIndices, sorted[k] - m) >= k + 1 - m
    && (m > 0 ==> sorted[k - m] < sorted[k] - m)
  }

  /**
   `k + 1` commitments can lie one after the other right before sorted start number `k`, each at or behind its own
   start, so that the scan finds the first `k` of them one by one and then jumps over the last.
   */
  ghost predicate Skips(startIndices: seq<nat>, k: nat)
    requires k < |SortDecimal(startIndices)|
  {
    forall m :: 0 <= m <= k ==> RoomBefore(startIndices, k, m)
  }

  ghost predicate NoSkips(startIndices: seq<nat>) {
    forall k :: 0 <= k < |SortDecimal(startIndices)| ==> !Skips(startIndices, k)
  }

  /** In ascending order nothing can be skipped: at most `k` starts are below start number `k`. */
  lemma AscendingIsSafe(startIndices: seq<nat>)
    requires Ascending(SortDecimal(startIndices))
    ensures NoSkips(startIndices)
  {
    var sorted := SortDecimal(startIndices);
    forall k | 0 <= k < |sorted| ensures !Skips(startIndices, k) {
      AscendingCount(sorted, k);
      SortDecimalCount(startIndices, sorted[k]);
      assert !RoomBefore(startIndices, k, 0);
    }
  }

  lemma {:induction false} CountGrows(s: seq<nat>, v: nat, w: nat)
    requires v <= w
    ensures CountBelow(s, v) <= CountBelow(s, w) <= |s|
  {
    if s != [] { CountGrows(s[1..], v, w); }
  }

  /** What holds whenever the scan is at place `i` with `k` starts used up: at least `k` commitments are found. */
  ghost predicate ScanInv(chunk: seq<Hash>, comms: seq<Hash>, startIndices: seq<nat>, low: nat, k: nat, i: nat,
        res: Found) {
    && |comms| == |startIndices| == |res|
    && low <= i && k <= |FoundSet(res)|
    && NotBeforeStart(chunk, comms, startIndices, low)
    && forall j :: 0 <= j < |res| && res[j].Some? ==>
        low <= res[j].value < i && res[j].value < |chunk| && chunk[res[j].value] == comms[j]
  }

  /** Where the scan made its finds: each at or behind the start it had jumped to, and enough starts before it. */
  ghost predicate Trail(startIndices: seq<nat>, finds: seq<nat>, i: nat) {
    && |finds| <= |SortDecimal(startIndices)|
    && (forall j :: 0 <= j < |finds| ==>
          SortDecimal(startIndices)[j] <= finds[j] < i && CountBelow(startIndices, finds[j] + 1) >= j + 1)
    && forall j, l :: 0 <= j < l < |finds| ==> finds[j] < finds[l]
  }

  lemma {:induction false} TrailBound(startIndices: seq<nat>, finds: seq<nat>, i: nat, x: nat)
    requires Trail(startIndices, finds, i) && x < |finds|
    ensures finds[x] + (|finds| - x) <= i
    decreases |finds| - x
  {
    if x + 1 < |finds| { TrailBound(startIndices, finds, i, x + 1); }
  }

  /**
   Between a find and the next start index no commitment still sought can lie: it and those found would have had room
   right before that start.
   */
  lemma GapIsEmpty(chunk: seq<Hash>, comms: seq<Hash>, startIndices: seq<nat>, low: nat, i: nat, res: Found,
        finds: seq<nat>, j: nat, p: nat)
    requires ScanInv(chunk, comms, startIndices, low, |finds|, i, res) && Trail(startIndices, finds, i)
    requires NoSkips(startIndices) && |finds| < |SortDecimal(startIndices)|
    requires j < |res| && res[j] == None && i <= p < |chunk| && p < SortDecimal(startIndices)[|finds|]
    ensures chunk[p] != comms[j]
  {
    if chunk[p] == comms[j] {
      var k := |finds|;
      forall m | 0 <= m <= k ensures RoomBefore(startIndices, k, m) {
        if m == 0 {
          OneTooMany(chunk, comms, startIndices, low, k, i, res, j, p);
        } else {
          RoomOfTrail(startIndices, finds, i, k - m);
        }
      }
      assert Skips(startIndices, k);
    }
  }

  lemma OneTooMany(chunk: seq<Hash>, comms: seq<Hash>, startIndices: seq<nat>, low: nat, k: nat, i: nat, res: Found,
        j: nat, p: nat)
    requires ScanInv(chunk, comms, startIndices, low, k, i, res) && k < |SortDecimal(startIndices)|
    requires j < |res| && res[j] == None && i <= p < |chunk| && p < SortDecimal(startIndices)[k]
    requires chunk[p] == comms[j]
    ensures CountBelow(startIndices, SortDecimal(startIndices)[k]) >= k + 1
  {
    var v := SortDecimal(startIndices)[k];
    var found, below := FoundSet(res), BelowSet(startIndices, v);
    assert found + {j} <= below;
    SubsetSize(found + {j}, below);
    BelowSetCount(startIndices, v);
  }

  lemma RoomOfTrail(startIndices: seq<nat>, finds: seq<nat>, i: nat, x: nat)
    requires Trail(startIndices, finds, i) && x < |finds| < |SortDecimal(startIndices)|
    requires i < SortDecimal(startIndices)[|finds|]
    ensures RoomBefore(startIndices, |finds|, |finds| - x)
  {
    var k, v := |finds|, SortDecimal(startIndices)[|finds|];
    TrailBound(startIndices, finds, i, x);
    CountGrows(startIndices, finds[x] + 1, v - (k - x));
  }

  /** One more place: at least one more commitment is found, or nothing changes. */
  lemma MarkStep(chunk: seq<Hash>, comms: seq<Hash>, startIndices: seq<nat>, low: nat, k: nat, i: nat, res: Found)
    requires ScanInv(chunk, comms, startIndices, low, k, i, res) && i < |chunk|
    ensures var res' := Mark(comms, res, chunk[i], i);
            ScanInv(chunk, comms, startIndices, low, if res' != res then k + 1 else k, i + 1, res')
  {
    var res' := Mark(comms, res, chunk[i], i);
    if res' != res {
      var j :| 0 <= j < |res| && res'[j] != res[j];
      assert FoundSet(res) + {j} <= FoundSet(res');
      SubsetSize(FoundSet(res) + {j}, FoundSet(res'));
    }
  }

  /** Looking at places where nothing sought lies changes nothing. */
  lemma {:induction false} SkipGap(chunk: seq<Hash>, comms: seq<Hash>, from: nat, end: nat, res: Found)
    requires |comms| == |res| && from <= end && !AllFound(res)
    requires forall p :: from <= p < end && p < |chunk| ==> chunk[p] != 0
    requires forall j, p :: 0 <= j < |res| && res[j] == None && from <= p < end && p < |chunk| ==> chunk[p] != comms[j]
    ensures LinearScan(chunk, comms, from, res) == LinearScan(chunk, comms, end, res)
    decreases end - from
  {
    if from < end && from < |chunk| {
      assert Mark(comms, res, chunk[from], from) == res;
      SkipGap(chunk, comms, from + 1, end, res);
    }
  }

  lemma {:induction false} EmptyAhead(chunk: seq<Hash>, comms: seq<Hash>, from: nat, p: nat, res: Found)
    requires |comms| == |res| && !AllFound(res) && from <= p < |chunk| && chunk[p] == 0
    requires forall j, q :: 0 <= j < |res| && res[j] == None && from <= q < p ==> chunk[q] != comms[j]
    ensures LinearScan(chunk, comms, from, res) == Err(CouldNotFetch)
    decreases p - from
  {
    if chunk[from] != 0 {
      assert Mark(comms, res, chunk[from], from) == res;
      EmptyAhead(chunk, comms, from + 1, p, res);
    }
  }

  /** A find makes the trail longer. */
  lemma TrailStep(chunk: seq<Hash>, comms: seq<Hash>, startIndices: seq<nat>, low: nat, finds: seq<nat>, i: nat,
        res: Found)
    requires ScanInv(chunk, comms, startIndices, low, |finds| + 1, i + 1, res) && Trail(startIndices, finds, i)
    requires |finds| < |SortDecimal(startIndices)| ==> SortDecimal(startIndices)[|finds|] <= i
    ensures Trail(startIndices, finds + [i], i + 1)
  {
    hide ScanInv, CountBelow, Trail, SortDecimal;
    FoundAreBelow(chunk, comms, startIndices, low, |finds| + 1, i + 1, res);
    CountGrows(startIndices, i + 1, i + 1);
    TrailSnoc(startIndices, finds, i);
  }

  lemma TrailSnoc(startIndices: seq<nat>, finds: seq<nat>, i: nat)
    requires Trail(startIndices, finds, i) && |finds| < |SortDecimal(startIndices)|
    requires SortDecimal(startIndices)[|finds|] <= i && CountBelow(startIndices, i + 1) >= |finds| + 1
    ensures Trail(startIndices, finds + [i], i + 1)
  {
    hide CountBelow, SortDecimal;
    var more := finds + [i];
    assert more[|finds|] == i && forall j :: 0 <= j < |finds| ==> more[j] == finds[j];
  }

  /** The starts of what was found lie before the place of the scan. */
  lemma FoundAreBelow(chunk: seq<Hash>, comms: seq<Hash>, startIndices: seq<nat>, low: nat, k: nat, i: nat, res: Found)
    requires ScanInv(chunk, comms, startIndices, low, k, i, res)
    ensures CountBelow(startIndices, i) >= k
  {
    assert FoundSet(res) <= BelowSet(startIndices, i);
    SubsetSize(FoundSet(res), BelowSet(startIndices, i));
    BelowSetCount(startIndices, i);
  }

  /** A jump from `i` to start number `|finds|` leads to where looking at every place leads. */
  lemma JumpIsSafe(chunk: seq<Hash>, comms: seq<Hash>, startIndices: seq<nat>, low: nat, i: nat, res: Found,
        finds: seq<nat>)
    requires ScanInv(chunk, comms, startIndices, low, |finds|, i, res) && Trail(startIndices, finds, i)
    requires !AllFound(res) && NoSkips(startIndices) && Populated(chunk, low)
    requires forall j :: 0 <= j < |startIndices| ==> startIndices[j] < |chunk|
    ensures LinearScan(chunk, comms, i, res)
            == LinearScan(chunk, comms, if i > 0 then JumpTo(SortDecimal(startIndices), |finds|, i - 1) else i, res)
  {
    var sorted, k := SortDecimal(startIndices), |finds|;
    SortDecimalKeeps(startIndices);
    if i > 0 && k < |sorted| && sorted[k] > i {
      var end := sorted[k];
      assert end in startIndices;
      forall j, p | 0 <= j < |res| && res[j] == None && i <= p < end && p < |chunk|
        ensures chunk[p] != comms[j]
      {
        GapIsEmpty(chunk, comms, startIndices, low, i, res, finds, j, p);
      }
      if exists p :: i <= p < end && chunk[p] == 0 {
        var p :| i <= p < end && chunk[p] == 0;
        EmptyAhead(chunk, comms, i, p, res);
        assert chunk[end] == 0;
      } else {
        SkipGap(chunk, comms, i, end, res);
      }
    }
  }

  /** When nothing can be skipped the jumping scan is the linear scan. */
  lemma {:induction false} ScanIsLinear(chunk: seq<Hash>, comms: seq<Hash>, startIndices: seq<nat>, low: nat, i: nat,
        res: Found, finds: seq<nat>)
    requires ScanInv(chunk, comms, startIndices, low, |finds|, i, res) && Trail(startIndices, finds, i)
    requires |finds| < |SortDecimal(startIndices)| ==> SortDecimal(startIndices)[|finds|] <= i
    requires NoSkips(startIndices) && Populated(chunk, low) && |comms| == |res|
    requires forall j :: 0 <= j < |startIndices| ==> startIndices[j] < |chunk|
    ensures Scan(chunk, comms, SortDecimal(startIndices), |finds|, i, res) == LinearScan(chunk, comms, i, res)
    decreases |chunk| - i
  {
    hide NoSkips, Populated, ScanInv, Trail;
    if i < |chunk| && chunk[i] != 0 {
      var res' := Mark(comms, res, chunk[i], i);
      MarkStep(chunk, comms, startIndices, low, |finds|, i, res);
      if !AllFound(res') {
        if res' != res {
          TrailStep(chunk, comms, startIndices, low, finds, i, res');
          var more, end := finds + [i], JumpTo(SortDecimal(startIndices), |finds| + 1, i);
          JumpIsSafe(chunk, comms, startIndices, low, i + 1, res', more);
          FurtherOn(chunk, comms, startIndices, low, i + 1, end, res', more);
          ScanIsLinear(chunk, comms, startIndices, low, end, res', more);
        } else {
          FurtherOn(chunk, comms, startIndices, low, i, i + 1, res, finds);
          ScanIsLinear(chunk, comms, startIndices, low, i + 1, res, finds);
        }
      }
    }
  }

  lemma FurtherOn(chunk: seq<Hash>, comms: seq<Hash>, startIndices: seq<nat>, low: nat, i: nat, end: nat, res: Found,
        finds: seq<nat>)
    requires ScanInv(chunk, comms, startIndices, low, |finds|, i, res) && Trail(startIndices, finds, i) && i <= end
    ensures ScanInv(chunk, comms, startIndices, low, |finds|, end, res) && Trail(startIndices, finds, end)
  {
  }

  /**
   What a caller must see to: the starts lie in the chunk, no commitment lies before its start, the tree has no holes.
   */
  ghost predicate Searchable(chunk: seq<Hash>, comms: seq<Hash>, startIndices: seq<nat>, low: nat) {
    && |comms| == |startIndices| > 0
    && (forall j :: 0 <= j < |startIndices| ==> low <= startIndices[j] < |chunk|)
    && low in startIndices
    && Populated(chunk, low) && NotBeforeStart(chunk, comms, startIndices, low)
  }

  /** When nothing can be skipped, jumping ahead finds what looking at every place from the least start finds. */
  lemma SafeScanIsLinear(chunk: seq<Hash>, comms: seq<Hash>, startIndices: seq<nat>, low: nat)
    requires Searchable(chunk, comms, startIndices, low) && NoSkips(startIndices)
    ensures FindInChunk(chunk, comms, startIndices) == LinearScan(chunk, comms, low, NoneFound(|comms|))
  {
    SortDecimalKeeps(startIndices);
    var sorted := SortDecimal(startIndices);
    assert sorted[0] == low by {
      assert sorted[0] in startIndices;
      if low < sorted[0] { BeginsBehind(startIndices, low); }
    }
    assert FoundSet(NoneFound(|comms|)) == {};
    ScanIsLinear(chunk, comms, startIndices, low, low, NoneFound(|comms|), []);
  }

  lemma BeginsBehind(startIndices: seq<nat>, low: nat)
    requires low in startIndices && |SortDecimal(startIndices)| > 0 && low < SortDecimal(startIndices)[0]
    ensures Skips(startIndices, 0)
  {
    var v := SortDecimal(startIndices)[0];
    var j :| 0 <= j < |startIndices| && startIndices[j] == low;
    assert {j} <= BelowSet(startIndices, v);
    SubsetSize({j}, BelowSet(startIndices, v));
    BelowSetCount(startIndices, v);
    assert RoomBefore(startIndices, 0, 0);
  }

  // ---------------------------------------------------------------- and when something can

  ghost predicate AllDifferent(s: seq<nat>) { forall i, j :: 0 <= i < j < |s| ==> s[i] != s[j] }

  /** A chunk without empty places in which every place holds another hash. */
  function Plain(n: nat): seq<Hash> { seq(n, i => i + 1) }

  lemma {:induction false} ScanOnlyLooksAhead(chunk: seq<Hash>, comms: seq<Hash>, starts: seq<nat>, k: nat, i: nat,
        res: Found, j: nat)
    requires |comms| == |res| && j < |res| && res[j] == None
    ensures var r := Scan(chunk, comms, starts, k, i, res);
            r.Ok? ==> |r.value| == |res| && (r.value[j].Some? ==> r.value[j].value >= i)
    decreases |chunk| - i
  {
    if i < |chunk| && chunk[i] != 0 {
      var res' := Mark(comms, res, chunk[i], i);
      var k' := if res' != res then k + 1 else k;
      var next := if res' != res then JumpTo(starts, k', i) else i + 1;
      if !AllFound(res') {
        if res'[j] == None {
          ScanOnlyLooksAhead(chunk, comms, starts, k', next, res', j);
        } else {
          ScanKeeps(chunk, comms, starts, k', next, res', j);
        }
      }
    }
  }

  lemma {:induction false} ScanKeeps(chunk: seq<Hash>, comms: seq<Hash>, starts: seq<nat>, k: nat, i: nat,
        res: Found, j: nat)
    requires |comms| == |res| && j < |res| && res[j].Some?
    ensures var r := Scan(chunk, comms, starts, k, i, res);
            r.Ok? ==> |r.value| == |res| && r.value[j] == res[j]
    decreases |chunk| - i
  {
    if i < |chunk| && chunk[i] != 0 {
      var res' := Mark(comms, res, chunk[i], i);
      var k' := if res' != res then k + 1 else k;
      if !AllFound(res') {
        ScanKeeps(chunk, comms, starts, k', if res' != res then JumpTo(starts, k', i) else i + 1, res', j);
      }
    }
  }

  /** On every searchable chunk of `n` places the jumping scan finds what the linear scan finds. */
  ghost predicate ScanWorks(startIndices: seq<nat>, n: nat) {
    forall chunk, comms, low | |chunk| == n && Searchable(chunk, comms, startIndices, low) ::
      FindInChunk(chunk, comms, startIndices) == LinearScan(chunk, comms, low, NoneFound(|comms|))
  }

  lemma {:induction false} Least(s: seq<nat>) returns (low: nat)
    requires s != []
    ensures low in s && forall i :: 0 <= i < |s| ==> low <= s[i]
  {
    low := s[0];
    if |s| > 1 {
      var l := Least(s[1..]);
      assert l in s;
      low := if l < s[0] then l else s[0];
      assert forall i :: 1 <= i < |s| ==> s[i] == s[1..][i - 1];
    }
  }

  lemma {:induction false} SeekInPlain(n: nat, p: nat, from: nat)
    requires from <= p < n
    ensures Seek(Plain(n), p + 1, from) == Some(p)
    decreases p - from
  {
    if from < p { SeekInPlain(n, p, from + 1); }
  }
}
