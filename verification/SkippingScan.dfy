/**
 When the jumping scan of `findCommitmentIndicesInChunk` (src/sdk/accountReaders/StorageAccountReader.ts:96-140) misses
 something. For any start indices, repeated or not, however many: it works on every chunk it may be used on if and only
 if nothing can be skipped, `ChunkScan.NoSkips`, a condition on the start indices alone. For up to ten of them, and for
 different ones, this says that the default sort puts them in ascending order.
 */
module SkippingScan {
  import opened Common
  import opened Decimal
  import opened ChunkScan

  // ---------------------------------------------------------------- a chunk on which the scan skips one

  /** Different commitments, each with its start at or before its place; these are `lo`, `lo + 1` and so on. */
  ghost predicate Pickable(starts: seq<nat>, picks: seq<nat>, lo: nat) {
    AllDifferent(picks) && forall j :: 0 <= j < |picks| ==> picks[j] < |starts| && starts[picks[j]] <= lo + j
  }

  /** The chunk holds the picked commitments at these places, and from `from` up to them no others that are sought. */
  ghost predicate Follows(chunk: seq<Hash>, comms: seq<Hash>, picks: seq<nat>, lo: nat, from: nat) {
    && (forall j :: 0 <= j < |picks| ==> picks[j] < |comms| && lo + j < |chunk| && chunk[lo + j] == comms[picks[j]])
    && forall i, x :: from <= i < lo + |picks| && i < |chunk| && 0 <= x < |comms| && chunk[i] == comms[x] ==>
         i >= lo && x == picks[i - lo]
  }

  function Elements(s: seq<nat>): set<nat> { set x | x in s }

  lemma {:induction false} ElementsSize(s: seq<nat>)
    ensures |Elements(s)| <= |s|
  {
    if s == [] {
      assert Elements(s) == {};
    } else {
      ElementsSize(s[1..]);
      assert Elements(s) == Elements(s[1..]) + {s[0]};
    }
  }

  /** Enough starts below `v` leave one that was not picked. */
  lemma AnotherPick(starts: seq<nat>, picks: seq<nat>, v: nat) returns (x: nat)
    requires CountBelow(starts, v) > |picks|
    ensures x < |starts| && x !in picks && starts[x] < v
  {
    var used := Elements(picks);
    var below := BelowSet(starts, v);
    ElementsSize(picks);
    BelowSetCount(starts, v);
    if below <= used {
      SubsetSize(below, used);
      assert false;
    }
    x :| x in below && x !in used;
  }

  /** Where something can be skipped the commitments for it can be picked. */
  lemma {:induction false} Pick(starts: seq<nat>, k: nat, m: nat) returns (picks: seq<nat>)
    requires m <= k < |SortDecimal(starts)| && Skips(starts, k)
    ensures k < SortDecimal(starts)[k] && |picks| == k + 1 - m
    ensures Pickable(starts, picks, SortDecimal(starts)[k] - 1 - k)
    decreases k - m
  {
    var d := SortDecimal(starts)[k];
    assert RoomBefore(starts, k, m);
    if m == k {
      var x := AnotherPick(starts, [], d - m);
      picks := [x];
    } else {
      var before := Pick(starts, k, m + 1);
      var x := AnotherPick(starts, before, d - m);
      picks := before + [x];
    }
  }

  /** Places with nothing to find are walked over, unless one is empty. */
  lemma {:induction false} Walk(chunk: seq<Hash>, comms: seq<Hash>, t: seq<nat>, k: nat, i: nat, to: nat, res: Found)
    requires |comms| == |res| && i <= to < |chunk| && !AllFound(res)
    requires forall p, x :: i <= p < to && 0 <= x < |comms| ==> chunk[p] != comms[x]
    ensures Scan(chunk, comms, t, k, i, res).Ok? ==>
              Scan(chunk, comms, t, k, i, res) == Scan(chunk, comms, t, k, to, res)
    decreases |chunk| - i
  {
    if i < to && chunk[i] != 0 {
      assert Mark(comms, res, chunk[i], i) == res;
      Walk(chunk, comms, t, k, i + 1, to, res);
    }
  }

  /** What has been found once the scan used up `k` starts: none of the later picks. */
  ghost predicate NotYet(res: Found, picks: seq<nat>, k: nat) {
    forall j :: k <= j < |picks| ==> picks[j] < |res| && res[picks[j]] == None
  }

  /** Number `j` of the picks is found at its place, and the scan goes on at the next place, or jumps. */
  lemma {:induction false} Hop(chunk: seq<Hash>, comms: seq<Hash>, t: seq<nat>, picks: seq<nat>, lo: nat, from: nat,
        j: nat, res: Found)
    returns (res': Found)
    requires Follows(chunk, comms, picks, lo, from) && AllDifferent(picks) && from <= lo && |res| == |comms|
    requires j + 1 < |picks| && NotYet(res, picks, j)
    ensures |res'| == |comms| && NotYet(res', picks, j + 1)
    ensures var r := Scan(chunk, comms, t, j, lo + j, res);
            r.Ok? ==> r == Scan(chunk, comms, t, j + 1, JumpTo(t, j + 1, lo + j), res')
  {
    res' := Mark(comms, res, chunk[lo + j], lo + j);
    assert forall x :: 0 <= x < |comms| && comms[x] == chunk[lo + j] ==> x == picks[lo + j - lo];
    assert res'[picks[j]] == Some(lo + j);
    assert res'[picks[j + 1]] == None;
  }

  /** After `j` finds the scan goes on at the place of the next pick, or, after the last but one, beyond the last. */
  lemma NextPlace(starts: seq<nat>, k: nat, j: nat)
    requires 0 < j <= k < |SortDecimal(starts)| && Skips(starts, k) && k < SortDecimal(starts)[k]
    ensures var t, d := SortDecimal(starts), SortDecimal(starts)[k];
            JumpTo(t, j, d - 1 - k + j - 1) == if j < k then d - 1 - k + j else d
  {
    assert RoomBefore(starts, k, k - j);
  }

  lemma FirstPlace(starts: seq<nat>, k: nat)
    requires 0 < k < |SortDecimal(starts)| && Skips(starts, k) && k < SortDecimal(starts)[k]
    ensures SortDecimal(starts)[0] <= SortDecimal(starts)[k] - 1 - k
  {
    assert RoomBefore(starts, k, k);
  }

  /** The chunk follows picks for skipping at start number `k`. */
  ghost predicate Defeats(chunk: seq<Hash>, comms: seq<Hash>, starts: seq<nat>, picks: seq<nat>, k: nat) {
    && k < |SortDecimal(starts)| && |comms| == |starts| && Skips(starts, k)
    && var d := SortDecimal(starts)[k];
    && k < d && |picks| == k + 1 && Pickable(starts, picks, d - 1 - k)
    && Follows(chunk, comms, picks, d - 1 - k, SortDecimal(starts)[0])
  }

  /** Where the scan is after `j` finds. */
  function PlaceAfter(starts: seq<nat>, k: nat, j: nat): nat
    requires j <= k < |SortDecimal(starts)| && k < SortDecimal(starts)[k]
  {
    if j < k then SortDecimal(starts)[k] - 1 - k + j else SortDecimal(starts)[k]
  }

  lemma {:induction false} HopOn(chunk: seq<Hash>, comms: seq<Hash>, starts: seq<nat>, picks: seq<nat>, k: nat, j: nat,
        res: Found)
    returns (res': Found)
    requires Defeats(chunk, comms, starts, picks, k) && j < k && |res| == |comms| && NotYet(res, picks, j)
    ensures |res'| == |comms| && NotYet(res', picks, j + 1)
    ensures var t, r := SortDecimal(starts), Scan(chunk, comms, SortDecimal(starts), j, PlaceAfter(starts, k, j), res);
            r.Ok? ==> r == Scan(chunk, comms, t, j + 1, PlaceAfter(starts, k, j + 1), res')
  {
    hide Skips, Scan, Follows, NotYet;
    var lo := SortDecimal(starts)[k] - 1 - k;
    NextPlace(starts, k, j + 1);
    FirstPlace(starts, k);
    res' := Hop(chunk, comms, SortDecimal(starts), picks, lo, SortDecimal(starts)[0], j, res);
  }

  lemma {:induction false} WalkToFirst(chunk: seq<Hash>, comms: seq<Hash>, starts: seq<nat>, picks: seq<nat>, k: nat)
    requires Defeats(chunk, comms, starts, picks, k) && 0 < k
    ensures NotYet(NoneFound(|comms|), picks, 0)
    ensures var r := FindInChunk(chunk, comms, starts);
            r.Ok? ==> r == Scan(chunk, comms, SortDecimal(starts), 0, PlaceAfter(starts, k, 0), NoneFound(|comms|))
  {
    hide Skips;
    var t, lo, none := SortDecimal(starts), SortDecimal(starts)[k] - 1 - k, NoneFound(|comms|);
    FirstPlace(starts, k);
    assert none[picks[0]] == None;
    Walk(chunk, comms, t, 0, t[0], lo, none);
  }

  /** The scan on such a chunk up to find number `j`. */
  lemma {:induction false} Hops(chunk: seq<Hash>, comms: seq<Hash>, starts: seq<nat>, picks: seq<nat>, k: nat, j: nat)
    returns (res: Found)
    requires Defeats(chunk, comms, starts, picks, k) && 0 < j <= k
    ensures |res| == |comms| && NotYet(res, picks, j)
    ensures var r := FindInChunk(chunk, comms, starts);
            r.Ok? ==> r == Scan(chunk, comms, SortDecimal(starts), j, PlaceAfter(starts, k, j), res)
    decreases j
  {
    hide Skips, Follows, Pickable, Scan, FindInChunk, NotYet;
    if j == 1 {
      WalkToFirst(chunk, comms, starts, picks, k);
      res := HopOn(chunk, comms, starts, picks, k, 0, NoneFound(|comms|));
    } else {
      var before := Hops(chunk, comms, starts, picks, k, j - 1);
      res := HopOn(chunk, comms, starts, picks, k, j - 1, before);
    }
  }

  ghost predicate Misses(r: Result<Found>, y: nat, place: nat) { r.Ok? ==> y < |r.value| && r.value[y] != Some(place) }

  /** On such a chunk the scan misses the last pick at its place. */
  lemma {:induction false} LastIsMissed(chunk: seq<Hash>, comms: seq<Hash>, starts: seq<nat>, picks: seq<nat>, k: nat)
    requires Defeats(chunk, comms, starts, picks, k)
    ensures Misses(FindInChunk(chunk, comms, starts), picks[k], SortDecimal(starts)[k] - 1)
  {
    hide Skips, Follows;
    var t, res := SortDecimal(starts), NoneFound(|comms|);
    if k > 0 { res := Hops(chunk, comms, starts, picks, k, k); }
    assert res[picks[k]] == None;
    ScanOnlyLooksAhead(chunk, comms, t, k, t[k], res, picks[k]);
  }

  lemma PicksInside(starts: seq<nat>, picks: seq<nat>, lo: nat)
    requires Pickable(starts, picks, lo)
    ensures forall j :: 0 <= j < |picks| ==> picks[j] < |starts|
  {
  }

  // ---------------------------------------------------------------- a plain chunk on which it does

  /** The place of `x` in the list, or its length. */
  function IndexIn(s: seq<nat>, x: nat): (j: nat)
    ensures j <= |s| && (j < |s| ==> s[j] == x) && (x in s ==> j < |s|)
  {
    if s == [] || s[0] == x then 0 else 1 + IndexIn(s[1..], x)
  }

  /** Hashes of which the picked ones lie in a plain chunk of `n` places from `lo` on, and the others do not. */
  function Sparse(count: nat, picks: seq<nat>, lo: nat, n: nat): seq<Hash> {
    seq(count, x requires 0 <= x < count => if x in picks then lo + IndexIn(picks, x) + 1 else n + 1 + x)
  }

  lemma SparseFollows(starts: seq<nat>, picks: seq<nat>, lo: nat, n: nat, from: nat)
    requires Pickable(starts, picks, lo) && lo + |picks| <= n
    ensures Follows(Plain(n), Sparse(|starts|, picks, lo, n), picks, lo, from)
  {
    forall j | 0 <= j < |picks| ensures IndexIn(picks, picks[j]) == j {}
  }

  lemma SparseIsSearchable(starts: seq<nat>, picks: seq<nat>, lo: nat, n: nat, low: nat)
    requires Pickable(starts, picks, lo) && lo + |picks| <= n
    requires low in starts && forall j :: 0 <= j < |starts| ==> low <= starts[j] < n
    ensures Searchable(Plain(n), Sparse(|starts|, picks, lo, n), starts, low)
  {
    forall j | 0 <= j < |picks| ensures IndexIn(picks, picks[j]) == j {}
  }

  lemma {:induction false} LinearFinds(starts: seq<nat>, picks: seq<nat>, lo: nat, n: nat, k: nat, low: nat)
    requires Pickable(starts, picks, lo) && k < |picks| && lo + |picks| <= n && low <= starts[picks[k]]
    ensures var r := LinearScan(Plain(n), Sparse(|starts|, picks, lo, n), low, NoneFound(|starts|));
            r.Ok? && |r.value| == |starts| && r.value[picks[k]] == Some(lo + k)
  {
    var comms, none := Sparse(|starts|, picks, lo, n), NoneFound(|starts|);
    assert IndexIn(picks, picks[k]) == k;
    assert none[picks[k]] == None;
    LinearScanSeeks(Plain(n), comms, low, none);
    SeekInPlain(n, lo + k, low);
    assert SeekRest(Plain(n), comms, low, none)[picks[k]] == Some(lo + k);
  }

  ghost predicate InChunk(starts: seq<nat>, n: nat) {
    starts != [] && forall j :: 0 <= j < |starts| ==> starts[j] < n
  }

  /** Where something can be skipped the scan does not work. */
  lemma {:induction false} SkippedIsNotWorking(starts: seq<nat>, n: nat, k: nat)
    requires InChunk(starts, n) && k < |SortDecimal(starts)| && Skips(starts, k)
    ensures !ScanWorks(starts, n)
  {
    hide FindInChunk, LinearScan, Searchable, Skips, Pickable, Follows, ScanWorks, Sparse, Misses;
    SortDecimalKeeps(starts);
    var d := SortDecimal(starts)[k];
    assert d in starts;
    var picks := Pick(starts, k, 0);
    var lo := d - 1 - k;
    PicksInside(starts, picks, lo);
    var chunk, comms := Plain(n), Sparse(|starts|, picks, lo, n);
    var low := Least(starts);
    SparseIsSearchable(starts, picks, lo, n, low);
    SparseFollows(starts, picks, lo, n, SortDecimal(starts)[0]);
    LastIsMissed(chunk, comms, starts, picks, k);
    LinearFinds(starts, picks, lo, n, k, low);
    NotTheSame(chunk, comms, starts, n, low, picks[k], d - 1);
  }

  lemma NotTheSame(chunk: seq<Hash>, comms: seq<Hash>, starts: seq<nat>, n: nat, low: nat, y: nat, place: nat)
    requires |chunk| == n && Searchable(chunk, comms, starts, low)
    requires Misses(FindInChunk(chunk, comms, starts), y, place)
    requires var r := LinearScan(chunk, comms, low, NoneFound(|comms|));
             r.Ok? && y < |r.value| && r.value[y] == Some(place)
    ensures !ScanWorks(starts, n)
  {
    hide FindInChunk, LinearScan;
    assert FindInChunk(chunk, comms, starts) != LinearScan(chunk, comms, low, NoneFound(|comms|));
  }

  /**
   For any start indices: the jumping scan finds everything a linear scan finds, on every chunk it may be used on, if
   and only if nothing can be skipped.
   */
  lemma {:induction false} ScanWorksExactly(starts: seq<nat>, n: nat)
    requires InChunk(starts, n)
    ensures ScanWorks(starts, n) <==> NoSkips(starts)
  {
    if NoSkips(starts) {
      forall chunk, comms, low | |chunk| == n && Searchable(chunk, comms, starts, low)
        ensures FindInChunk(chunk, comms, starts) == LinearScan(chunk, comms, low, NoneFound(|comms|))
      {
        SafeScanIsLinear(chunk, comms, starts, low);
      }
    } else {
      var k :| 0 <= k < |SortDecimal(starts)| && Skips(starts, k);
      SkippedIsNotWorking(starts, n, k);
    }
  }

  // ---------------------------------------------------------------- and the default sort

  function UpTo(n: nat): (r: set<nat>)
    ensures |r| == n && forall k: nat :: k in r <==> k < n
  {
    if n == 0 then {} else UpTo(n - 1) + {n - 1}
  }

  lemma CountAtLeast(starts: seq<nat>, v: nat, indices: set<nat>)
    requires forall i :: i in indices ==> i < |starts| && SortDecimal(starts)[i] < v
    ensures CountBelow(starts, v) >= |indices|
  {
    SubsetSize(indices, BelowSet(SortDecimal(starts), v));
    BelowSetCount(SortDecimal(starts), v);
    SortDecimalCount(starts, v);
  }

  /** The first of the sorted start indices that is above a later one. */
  lemma FirstDescent(t: seq<nat>) returns (k: nat, j: nat)
    requires !Ascending(t)
    ensures k < j < |t| && t[j] < t[k] && forall i, l :: 0 <= i < k && i < l < |t| ==> t[i] <= t[l]
  {
    k := 0;
    while k < |t| && forall l :: k < l < |t| ==> t[k] <= t[l]
      invariant k <= |t| && forall i, l :: 0 <= i < k && i < l < |t| ==> t[i] <= t[l]
    {
      k := k + 1;
    }
    j :| k < j < |t| && t[j] < t[k];
  }

  /** With enough room before it something can be skipped there. */
  lemma DescentSkips(starts: seq<nat>, k: nat, j: nat)
    requires var t := SortDecimal(starts);
             && k < j < |t| && t[j] < t[k]
             && (forall i, l :: 0 <= i < k && i < l < |t| ==> t[i] <= t[l])
             && forall i :: 0 <= i < k ==> t[i] + (k - i) < t[k]
    ensures Skips(starts, k)
  {
    var t := SortDecimal(starts);
    forall m | 0 <= m <= k ensures RoomBefore(starts, k, m) {
      if m == 0 {
        CountAtLeast(starts, t[k], UpTo(k) + {j});
      } else {
        var i := k - m;
        assert t[i] + m < t[k];
        CountAtLeast(starts, t[k] - m, UpTo(i + 1));
      }
    }
  }

  /** For up to ten start indices nothing can be skipped if and only if the default sort puts them in order. */
  lemma TenStartsExactly(starts: seq<nat>)
    requires |starts| <= 10
    ensures NoSkips(starts) <==> Ascending(SortDecimal(starts))
  {
    var t := SortDecimal(starts);
    if Ascending(t) {
      AscendingIsSafe(starts);
    } else {
      SortDecimalKeeps(starts);
      var k, j := FirstDescent(t);
      forall i | 0 <= i < k ensures t[i] + (k - i) < t[k] {
        OutOfPlace(t[i], t[j], t[k]);
      }
      DescentSkips(starts, k, j);
    }
  }

  lemma DifferentAsContents(s: seq<nat>)
    ensures AllDifferent(s) <==> forall x :: multiset(s)[x] <= 1
  {
    if AllDifferent(s) {
      forall x ensures multiset(s)[x] <= 1 { AtMostOnce(s, x); }
    } else {
      var i, j :| 0 <= i < j < |s| && s[i] == s[j];
      assert s == s[..j] + [s[j]] + s[j + 1..];
      assert s[i] in multiset(s[..j]) by { assert s[..j][i] == s[i]; }
      assert multiset(s) == multiset(s[..j]) + multiset{s[j]} + multiset(s[j + 1..]);
      assert multiset(s)[s[i]] > 1;
    }
  }

  lemma {:induction false} AtMostOnce(s: seq<nat>, x: nat)
    requires AllDifferent(s)
    ensures multiset(s)[x] <= 1 && (x !in s ==> multiset(s)[x] == 0)
  {
    if s != [] {
      var init, last := s[..|s| - 1], s[|s| - 1];
      AtMostOnce(init, x);
      assert s == init + [last] && last !in init;
    }
  }

  lemma {:induction false} StrictlyUp(t: seq<nat>, k: nat, j: nat, i: nat)
    requires AllDifferent(t) && i < k < j < |t| && forall a, l :: 0 <= a < k && a < l < |t| ==> t[a] <= t[l]
    ensures t[i] + (k - i) <= t[j]
    decreases k - i
  {
    assert t[i] <= t[j];
    if i + 1 < k { StrictlyUp(t, k, j, i + 1); }
  }

  /** So it is for different start indices, however many. */
  lemma DifferentStartsExactly(starts: seq<nat>)
    requires AllDifferent(starts)
    ensures NoSkips(starts) <==> Ascending(SortDecimal(starts))
  {
    var t := SortDecimal(starts);
    if Ascending(t) {
      AscendingIsSafe(starts);
    } else {
      DifferentAsContents(starts);
      SortDecimalContents(starts);
      DifferentAsContents(t);
      var k, j := FirstDescent(t);
      forall i | 0 <= i < k ensures t[i] + (k - i) < t[k] {
        StrictlyUp(t, k, j, i);
      }
      DescentSkips(starts, k, j);
    }
  }

  /** A concrete pair of start indices on which the scan goes wrong. */
  lemma StartsOutOfOrder(n: nat)
    requires n > 10000
    ensures !ScanWorks([9999, 10000], n)
  {
    TenThousandFirst();
    TenStartsExactly([9999, 10000]);
    ScanWorksExactly([9999, 10000], n);
  }

  function Ones(n: nat): seq<nat> { if n == 0 then [] else [1] + Ones(n - 1) }

  lemma {:induction false} SortOnes(n: nat)
    ensures |Ones(n)| == n && SortDecimal(Ones(n) + [2, 10]) == Ones(n) + [10, 2]
  {
    assert Dec(1) == "1" && Dec(2) == "2" && Dec(10) == "10";
    assert LexLe(Dec(1), Dec(10)) && LexLe(Dec(1), Dec(1)) && !LexLe(Dec(2), Dec(10));
    if n == 0 {
      assert Ones(0) + [2, 10] == [2, 10] && [2, 10][1..] == [10] && [10][1..] == [];
      assert SortDecimal([10]) == [10];
      assert InsertDecimal(2, [10]) == [10] + InsertDecimal(2, []);
    } else {
      SortOnes(n - 1);
      assert (Ones(n) + [2, 10])[1..] == Ones(n - 1) + [2, 10];
      assert DecLe(1, (Ones(n - 1) + [10, 2])[0]);
      assert [1] + (Ones(n - 1) + [10, 2]) == Ones(n) + [10, 2];
    }
  }

  /** With eleven it can be otherwise: nine times 1, 2 and 10 are not sorted ascending, and yet the scan works. */
  lemma ElevenStarts(n: nat)
    requires n > 10
    ensures var starts := Ones(9) + [2, 10];
            !Ascending(SortDecimal(starts)) && ScanWorks(starts, n)
  {
    var starts, t := Ones(9) + [2, 10], Ones(9) + [10, 2];
    SortOnes(9);
    OnesAre(9);
    assert t[9] == 10 && t[10] == 2;
    forall k | 0 <= k < |t| ensures !Skips(starts, k) {
      BelowOnes(9, t[k]);
      assert k == 9 ==> !RoomBefore(starts, k, 9);
      assert k != 9 ==> !RoomBefore(starts, k, 0);
    }
    ScanWorksExactly(starts, n);
  }

  lemma {:induction false} OnesAre(n: nat)
    ensures |Ones(n)| == n && forall i :: 0 <= i < n ==> Ones(n)[i] == 1
  {
    if n > 0 { OnesAre(n - 1); }
  }

  lemma {:induction false} BelowOnes(n: nat, v: nat)
    ensures CountBelow(Ones(n) + [2, 10], v)
            == (if v > 1 then n else 0) + (if v > 2 then 1 else 0) + if v > 10 then 1 else 0
  {
    if n == 0 {
      assert Ones(0) + [2, 10] == [2, 10] && [2, 10][1..] == [10] && [10][1..] == [];
      assert CountBelow([10], v) == if 10 < v then 1 else 0;
      assert CountBelow([2, 10], v) == (if 2 < v then 1 else 0) + CountBelow([10], v);
    } else {
      BelowOnes(n - 1, v);
      assert (Ones(n) + [2, 10])[1..] == Ones(n - 1) + [2, 10];
    }
  }
}
