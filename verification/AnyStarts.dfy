/**
 Looking commitments up with any start indices whatsoever. What is found is right even where the start indices are
 not: `getActiveCommitments` of src/sdk/paramManagers/CommitmentManager.ts:62-71 may hand a commitment the start
 index of another one. As long as both lie in one chunk account the lookup is the same, because the scan of
 src/sdk/accountReaders/StorageAccountReader.ts:103 only sees the start indices sorted.
 */
module AnyStarts {
  import opened Common
  import opened Decimal
  import opened IndexConverter
  import opened ChunkScan
  import opened StorageSearch
  import opened TreeSearch

  // ---------------------------------------------------------------- what is found is right

  /** Place `g` holds the hash of `c` and lies behind the start of some commitment that starts in the same account. */
  ghost predicate Right(flat: seq<Hash>, comms: seq<Sought>, c: Sought, g: nat) {
    && g < |flat| && flat[g] == c.hash != 0
    && exists d :: d in comms && d.at.indexOfAccount == c.at.indexOfAccount && Global(d) <= g
  }

  ghost predicate AllRight(flat: seq<Hash>, comms: seq<Sought>, m: Indices) {
    forall c :: c in m ==> Right(flat, comms, c, m[c])
  }

  lemma {:induction false} RecordOrigin(res: Indices, left: seq<Sought>, found: Found, base: nat)
    requires |left| == |found|
    ensures var r := Record(res, left, found, base);
            forall c :: c in r ==>
              || (c in res && r[c] == res[c])
              || exists k :: 0 <= k < |left| && left[k] == c && found[k].Some? && r[c] == base + found[k].value
  {
    if left != [] {
      var n := |left| - 1;
      RecordOrigin(res, left[..n], found[..n], base);
      var before, r := Record(res, left[..n], found[..n], base), Record(res, left, found, base);
      forall c | c in r
        ensures (c in res && r[c] == res[c])
             || exists k :: 0 <= k < |left| && left[k] == c && found[k].Some? && r[c] == base + found[k].value
      {
        if found[n].Some? && c == left[n] {
          assert r[c] == base + found[n].value;
        } else if !(c in res && r[c] == res[c]) {
          var k :| 0 <= k < n && left[..n][k] == c && found[..n][k].Some? && before[c] == base + found[..n][k].value;
          assert left[k] == c;
        }
      }
    }
  }

  /** What one chunk adds is right. */
  lemma ChunkRight(flat: seq<Hash>, chunk: seq<Hash>, g: seq<Sought>, left: seq<Sought>, a: nat, acc: nat, k: nat,
        v: nat)
    requires OneAccount(g, a) && InTree(g) && a <= acc && Piece(flat, Base(acc), chunk)
    requires (forall c :: c in left ==> c in g) && k < |left|
    requires exists m :: 0 <= m < |left| && PlaceOf(chunk, left[k].hash, Starts(left, acc)[m], v)
    ensures Right(flat, g, left[k], Base(acc) + v)
  {
    var m :| 0 <= m < |left| && PlaceOf(chunk, left[k].hash, Starts(left, acc)[m], v);
    assert flat[Base(acc) + v] == chunk[v];
    assert left[m] in g && left[k] in g;
    if acc > a { BaseGrows(a + 1, acc); }
    assert Global(left[m]) <= Base(acc) + v;
  }

  lemma {:induction false} RoundRight(tree: Tree, flat: seq<Hash>, g: seq<Sought>, a: nat, acc: nat, res: Indices,
        left: seq<Sought>, found: Found)
    requires WellSized(tree) && Covers(tree, flat) && OneAccount(g, a) && InTree(g) && a <= acc
    requires AllRight(flat, g, res) && acc < |tree| && tree[acc].Some? && left == LeftToFind(g, res)
    requires FindInChunk(tree[acc].value, Hashes(left), Starts(left, acc)) == Ok(found)
    ensures |found| == |left| && AllRight(flat, g, Record(res, left, found, Base(acc)))
  {
    hide Right, WellSized, OneAccount, InTree, Base, FindInChunk, Record;
    assert Piece(flat, Base(acc), Values(tree[acc]));
    LeftToFindIs(g, res);
    FoundHere(tree[acc].value, left, acc, found);
    forall k | 0 <= k < |left| && found[k].Some? ensures Right(flat, g, left[k], Base(acc) + found[k].value) {
      ChunkRight(flat, tree[acc].value, g, left, a, acc, k, found[k].value);
    }
    RecordOrigin(res, left, found, Base(acc));
  }

  lemma {:induction false} FoundHere(chunk: seq<Hash>, left: seq<Sought>, acc: nat, found: Found)
    requires FindInChunk(chunk, Hashes(left), Starts(left, acc)) == Ok(found)
    ensures |found| == |left|
    ensures forall k :: 0 <= k < |left| && found[k].Some? ==>
              exists m :: 0 <= m < |left| && PlaceOf(chunk, left[k].hash, Starts(left, acc)[m], found[k].value)
  {
    FindIsSound(chunk, Hashes(left), Starts(left, acc));
    forall k | 0 <= k < |left| && found[k].Some?
      ensures exists m :: 0 <= m < |left| && PlaceOf(chunk, left[k].hash, Starts(left, acc)[m], found[k].value)
    {
      assert Hashes(left)[k] == left[k].hash;
    }
  }

  lemma {:induction false} AcrossIsSound(tree: Tree, flat: seq<Hash>, g: seq<Sought>, a: nat, acc: nat, res: Indices)
    requires WellSized(tree) && Covers(tree, flat) && OneAccount(g, a) && InTree(g) && a <= acc
    requires AllRight(flat, g, res)
    ensures var r := AcrossFrom(tree, g, acc, res); r.Ok? ==> AllRight(flat, g, r.value)
    decreases STORAGE_MT_CHUNK_COUNT - acc
  {
    hide AllRight, OneAccount, InTree, Covers, FindInChunk, LeftToFind, Record;
    if |res| != |g| && acc < STORAGE_MT_CHUNK_COUNT && GetChunk(tree, acc).Ok? {
      var left := LeftToFind(g, res);
      var found := FindInChunk(tree[acc].value, Hashes(left), Starts(left, acc));
      if found.Ok? {
        RoundRight(tree, flat, g, a, acc, res, left, found.value);
        AcrossIsSound(tree, flat, g, a, acc + 1, Record(res, left, found.value, Base(acc)));
      }
    }
  }

  lemma GroupIsSound(tree: Tree, flat: seq<Hash>, comms: seq<Sought>, a: nat)
    requires WellSized(tree) && Covers(tree, flat) && InTree(comms) && a < STORAGE_MT_CHUNK_COUNT
    ensures var r := GroupSearch(tree, comms)(a); r.Ok? ==> AllRight(flat, comms, r.value)
  {
    var g := InAccount(comms, a);
    InAccountIs(comms, a);
    MinAccOfGroup(g, a);
    if g != [] {
      AcrossIsSound(tree, flat, g, a, a, map[]);
    }
    assert forall c, p :: Right(flat, g, c, p) ==> Right(flat, comms, c, p);
  }

  lemma {:induction false} MergeIsSound(tree: Tree, flat: seq<Hash>, comms: seq<Sought>, order: seq<nat>,
        merged: Indices)
    requires WellSized(tree) && Covers(tree, flat) && InTree(comms)
    requires (forall a :: a in order ==> a < STORAGE_MT_CHUNK_COUNT) && AllRight(flat, comms, merged)
    ensures var r := MergeMaps(GroupSearch(tree, comms), order, merged); r.Ok? ==> AllRight(flat, comms, r.value)
    decreases |order|
  {
    hide GroupSearch, WellSized, Covers, InTree, Right;
    if order != [] {
      assert forall a :: a in order[1..] ==> a in order;
      assert order[0] in order;
      GroupIsSound(tree, flat, comms, order[0]);
      var m := GroupSearch(tree, comms)(order[0]);
      if m.Ok? {
        MergeIsSound(tree, flat, comms, order[1..], merged + m.value);
      }
    }
  }

  /** The node found holds the hash sought, and lies behind the start of a query that starts in the same account. */
  ghost predicate FoundRight(flat: seq<Hash>, qs: seq<Query>, i: nat, node: LocalIndex)
    requires i < |qs|
  {
    && LocalToGlobal(node).Ok? && LocalToGlobal(node).value < |flat|
    && flat[LocalToGlobal(node).value] == qs[i].hash != 0
    && exists j :: 0 <= j < |qs| && SameAccount(qs[j].start, qs[i].start)
        && LocalToGlobal(qs[j].start).value <= LocalToGlobal(node).value
  }

  /** Both are nodes of the tree, stored in the same chunk account. */
  predicate SameAccount(m: LocalIndex, n: LocalIndex) {
    && LocalToGlobal(m).Ok? && LocalToGlobal(n).Ok? && LocalToAcc(m).Ok? && LocalToAcc(n).Ok?
    && LocalToAcc(m).value.indexOfAccount == LocalToAcc(n).value.indexOfAccount
  }

  lemma {:induction false} LocalsAreFound(comms: seq<Sought>, m: Indices)
    ensures var r := ToLocals(m, comms);
            r.Ok? ==> forall i :: 0 <= i < |comms| ==> comms[i] in m && LocalToGlobal(r.value[i]) == Ok(m[comms[i]])
  {
    if comms != [] && ToLocals(m, comms).Ok? {
      LocalsAreFound(comms[1..], m);
      GlobalLocalBijection(m[comms[0]]);
    }
  }

  lemma {:induction false} EntryRight(flat: seq<Hash>, qs: seq<Query>, comms: seq<Sought>, i: nat, node: LocalIndex)
    requires ToSought(qs) == Ok(comms) && i < |qs| && LocalToGlobal(node).Ok?
    requires Right(flat, comms, comms[i], LocalToGlobal(node).value)
    ensures FoundRight(flat, qs, i, node)
  {
    ToSoughtIs(qs);
    var d :| d in comms && d.at.indexOfAccount == comms[i].at.indexOfAccount && Global(d) <= LocalToGlobal(node).value;
    var j :| 0 <= j < |comms| && comms[j] == d;
    NodeHasPlace(qs[i].start);
    NodeHasPlace(qs[j].start);
    assert comms[i] == Entry(qs, i) && comms[j] == Entry(qs, j);
  }

  /**
   On any tree and with any start indices: whatever a lookup finds holds the hash sought and lies behind the start of
   a commitment that was sought in the same chunk account. It may fail, but it is never wrong.
   */
  lemma {:induction false} LookupIsSound(tree: Tree, flat: seq<Hash>, qs: seq<Query>)
    requires WellSized(tree) && Covers(tree, flat)
    ensures var r := GetCommitmentIndices(tree, qs);
            r.Ok? ==> forall i :: 0 <= i < |qs| ==> FoundRight(flat, qs, i, r.value[i])
  {
    var r := GetCommitmentIndices(tree, qs);
    if r.Ok? {
      var comms := ToSought(qs).value;
      SoughtConditions(qs);
      AccountsAre(comms);
      MergeIsSound(tree, flat, comms, Accounts(comms), map[]);
      LocalsAreFound(comms, FindFromStart(tree, qs).value);
      forall i | 0 <= i < |qs| ensures FoundRight(flat, qs, i, r.value[i]) {
        EntryRight(flat, qs, comms, i, r.value[i]);
      }
    }
  }

  // ---------------------------------------------------------------- start indices handed around

  /** `c` sought from another place of its account. */
  function Shift(own: seq<nat>, c: Sought): Sought {
    if c.id < |own| then c.(at := c.at.(indexInAccount := own[c.id])) else c
  }

  function Shifted(own: seq<nat>, comms: seq<Sought>): seq<Sought> {
    seq(|comms|, i requires 0 <= i < |comms| => Shift(own, comms[i]))
  }

  ghost predicate IdsDiffer(comms: seq<Sought>) { forall c, d :: c in comms && d in comms && c.id == d.id ==> c == d }

  /** Both searches know the same place of each commitment, or none. */
  ghost predicate SameKnown(own: seq<nat>, comms: seq<Sought>, m: Indices, n: Indices) {
    forall c :: c in comms ==> (c in m <==> Shift(own, c) in n) && (c in m ==> m[c] == n[Shift(own, c)])
  }

  ghost predicate SameOutcome(own: seq<nat>, comms: seq<Sought>, r: Result<Indices>, s: Result<Indices>) {
    && (r.Err? ==> s == Err(r.error))
    && (r.Ok? ==> s.Ok? && SameKnown(own, comms, r.value, s.value))
    && (r.Ok? && s.Ok? ==> Within(comms, r.value) && Within(Shifted(own, comms), s.value))
  }

  lemma ShiftedSnoc(own: seq<nat>, comms: seq<Sought>, c: Sought)
    ensures Shifted(own, comms + [c]) == Shifted(own, comms) + [Shift(own, c)]
  {
  }

  lemma ShiftedInit(own: seq<nat>, comms: seq<Sought>)
    requires comms != []
    ensures var n := |comms| - 1;
            Shifted(own, comms)[..n] == Shifted(own, comms[..n]) && Shifted(own, comms)[n] == Shift(own, comms[n])
  {
  }

  lemma {:induction false} LeftShifted(own: seq<nat>, comms: seq<Sought>, m: Indices, n: Indices)
    requires SameKnown(own, comms, m, n)
    ensures LeftToFind(Shifted(own, comms), n) == Shifted(own, LeftToFind(comms, m))
  {
    if comms != [] {
      var init, last := comms[..|comms| - 1], comms[|comms| - 1];
      ShiftedInit(own, comms);
      assert last in comms && forall c :: c in init ==> c in comms;
      LeftShifted(own, init, m, n);
      ShiftedSnoc(own, LeftToFind(init, m), last);
    }
  }

  lemma {:induction false} ShiftedLists(own: seq<nat>, comms: seq<Sought>, a: nat)
    ensures InAccount(Shifted(own, comms), a) == Shifted(own, InAccount(comms, a))
    ensures Accounts(Shifted(own, comms)) == Accounts(comms)
    ensures MinAcc(Shifted(own, comms)) == MinAcc(comms)
    ensures Hashes(Shifted(own, comms)) == Hashes(comms)
  {
    if comms != [] {
      var init, last := comms[..|comms| - 1], comms[|comms| - 1];
      ShiftedInit(own, comms);
      ShiftedLists(own, init, a);
      ShiftedSnoc(own, InAccount(init, a), last);
    }
  }

  lemma ShiftedStaysApart(own: seq<nat>, comms: seq<Sought>)
    requires NoDup(comms) && IdsDiffer(comms)
    ensures NoDup(Shifted(own, comms))
  {
    forall i, j | 0 <= i < j < |comms| ensures Shifted(own, comms)[i] != Shifted(own, comms)[j] {
      assert comms[i] in comms && comms[j] in comms;
    }
  }

  /** The scan of a chunk sees the start indices sorted only. */
  lemma {:induction false} ScanSeesSorted(chunk: seq<Hash>, hashes: seq<Hash>, starts: seq<nat>, others: seq<nat>)
    requires |hashes| == |starts| == |others| && multiset(starts) == multiset(others)
    ensures FindInChunk(chunk, hashes, starts) == FindInChunk(chunk, hashes, others)
  {
    SortsAlike(starts, others);
  }

  lemma {:induction false} RecordShifted(own: seq<nat>, comms: seq<Sought>, m: Indices, n: Indices, left: seq<Sought>,
        found: Found, base: nat)
    requires SameKnown(own, comms, m, n) && IdsDiffer(comms) && |left| == |found|
    requires forall c :: c in left ==> c in comms
    ensures SameKnown(own, comms, Record(m, left, found, base), Record(n, Shifted(own, left), found, base))
  {
    if left != [] {
      var k := |left| - 1;
      ShiftedInit(own, left);
      assert left[k] in comms && forall c :: c in left[..k] ==> c in comms;
      RecordShifted(own, comms, m, n, left[..k], found[..k], base);
    }
  }

  lemma {:induction false} RecordWithin(comms: seq<Sought>, m: Indices, left: seq<Sought>, found: Found, base: nat)
    requires Within(comms, m) && |left| == |found| && forall c :: c in left ==> c in comms
    ensures Within(comms, Record(m, left, found, base))
  {
    RecordOrigin(m, left, found, base);
  }

  /**
   What a search may count on: it has not begun, and the starts are the same ones, or it is behind the account of the
   starts.
   */
  ghost predicate SameStarts(own: seq<nat>, g: seq<Sought>, a: nat, acc: nat, m: Indices, n: Indices) {
    acc > a || (m == n == map[] && multiset(Starts(g, acc)) == multiset(Starts(Shifted(own, g), acc)))
  }

  lemma {:induction false} ChunkShifted(own: seq<nat>, chunk: seq<Hash>, g: seq<Sought>, a: nat, acc: nat,
        m: Indices, n: Indices)
    requires OneAccount(g, a) && acc >= a && SameKnown(own, g, m, n) && SameStarts(own, g, a, acc, m, n)
    ensures var left := LeftToFind(g, m);
            && LeftToFind(Shifted(own, g), n) == Shifted(own, left)
            && FindInChunk(chunk, Hashes(left), Starts(left, acc))
               == FindInChunk(chunk, Hashes(Shifted(own, left)), Starts(Shifted(own, left), acc))
  {
    hide FindInChunk, LeftToFind, Shifted, Starts, Hashes, SameKnown, OneAccount;
    var left := LeftToFind(g, m);
    LeftShifted(own, g, m, n);
    ShiftedLists(own, left, a);
    LengthsAgree(own, left, acc);
    if acc > a {
      LeftOfAccount(g, m, a);
      BehindTheirAccount(own, left, a, acc);
    } else {
      AllLeft(g);
    }
    ScanSeesSorted(chunk, Hashes(left), Starts(left, acc), Starts(Shifted(own, left), acc));
  }

  lemma LeftOfAccount(g: seq<Sought>, m: Indices, a: nat)
    requires OneAccount(g, a)
    ensures OneAccount(LeftToFind(g, m), a)
  {
    LeftToFindIs(g, m);
  }

  /** Behind the account of the starts every start is 0. */
  lemma BehindTheirAccount(own: seq<nat>, left: seq<Sought>, a: nat, acc: nat)
    requires OneAccount(left, a) && acc > a
    ensures Starts(left, acc) == Starts(Shifted(own, left), acc)
  {
    assert forall i :: 0 <= i < |left| ==> left[i] in left;
  }

  lemma {:induction false} SameSize(own: seq<nat>, g: seq<Sought>, m: Indices, n: Indices)
    requires NoDup(g) && IdsDiffer(g) && SameKnown(own, g, m, n) && Within(g, m) && Within(Shifted(own, g), n)
    ensures |m| == |g| <==> |n| == |Shifted(own, g)|
  {
    hide Within, NoDup, IdsDiffer;
    ShiftedStaysApart(own, g);
    SizeTells(g, m);
    SizeTells(Shifted(own, g), n);
    assert forall c :: c in g ==> Shift(own, c) in Shifted(own, g) by {
      assert forall i :: 0 <= i < |g| ==> Shifted(own, g)[i] == Shift(own, g[i]);
    }
    assert forall i :: 0 <= i < |g| ==> g[i] in g;
  }

  lemma {:induction false} RoundShifted(own: seq<nat>, g: seq<Sought>, m: Indices, n: Indices, left: seq<Sought>,
        found: Found, base: nat)
    requires SameKnown(own, g, m, n) && IdsDiffer(g) && Within(g, m) && Within(Shifted(own, g), n)
    requires left == LeftToFind(g, m) && |left| == |found|
    ensures SameKnown(own, g, Record(m, left, found, base), Record(n, Shifted(own, left), found, base))
    ensures Within(g, Record(m, left, found, base))
    ensures Within(Shifted(own, g), Record(n, Shifted(own, left), found, base))
  {
    LeftToFindIs(g, m);
    RecordShifted(own, g, m, n, left, found, base);
    RecordWithin(g, m, left, found, base);
    forall c | c in Shifted(own, left) ensures c in Shifted(own, g) {
      var i :| 0 <= i < |left| && Shift(own, left[i]) == c;
      var j :| 0 <= j < |g| && g[j] == left[i];
      assert Shifted(own, g)[j] == c;
    }
    RecordWithin(Shifted(own, g), n, Shifted(own, left), found, base);
  }

  lemma {:induction false} AcrossShifted(own: seq<nat>, tree: Tree, g: seq<Sought>, a: nat, acc: nat, m: Indices,
        n: Indices)
    requires OneAccount(g, a) && acc >= a && NoDup(g) && IdsDiffer(g)
    requires SameKnown(own, g, m, n) && Within(g, m) && Within(Shifted(own, g), n) && SameStarts(own, g, a, acc, m, n)
    ensures SameOutcome(own, g, AcrossFrom(tree, g, acc, m), AcrossFrom(tree, Shifted(own, g), acc, n))
    decreases STORAGE_MT_CHUNK_COUNT - acc
  {
    hide OneAccount, NoDup, IdsDiffer, SameKnown, Within, FindInChunk, LeftToFind, Record, Hashes, Starts, Shifted;
    SameSize(own, g, m, n);
    if |m| != |g| && acc < STORAGE_MT_CHUNK_COUNT && GetChunk(tree, acc).Ok? {
      var left := LeftToFind(g, m);
      ChunkShifted(own, tree[acc].value, g, a, acc, m, n);
      LengthsAgree(own, left, acc);
      var found := FindInChunk(tree[acc].value, Hashes(left), Starts(left, acc));
      if found.Ok? {
        RoundShifted(own, g, m, n, left, found.value, Base(acc));
        AcrossShifted(own, tree, g, a, acc + 1, Record(m, left, found.value, Base(acc)),
                      Record(n, Shifted(own, left), found.value, Base(acc)));
      }
    }
  }

  lemma LengthsAgree(own: seq<nat>, left: seq<Sought>, acc: nat)
    ensures |Hashes(left)| == |Starts(left, acc)| == |left|
    ensures |Hashes(Shifted(own, left))| == |Starts(Shifted(own, left), acc)| == |Shifted(own, left)| == |left|
  {
  }

  /** The starts of every account are the same ones, in whatever order. */
  ghost predicate SameStartsEverywhere(own: seq<nat>, comms: seq<Sought>) {
    forall a: nat :: multiset(Starts(InAccount(comms, a), a)) == multiset(Starts(InAccount(Shifted(own, comms), a), a))
  }

  lemma {:induction false} GroupShifted(own: seq<nat>, tree: Tree, comms: seq<Sought>, a: nat)
    requires NoDup(comms) && IdsDiffer(comms) && SameStartsEverywhere(own, comms) && a < STORAGE_MT_CHUNK_COUNT
    ensures SameOutcome(own, InAccount(comms, a), GroupSearch(tree, comms)(a),
                        GroupSearch(tree, Shifted(own, comms))(a))
  {
    hide AcrossFrom, Starts;
    var g := InAccount(comms, a);
    InAccountIs(comms, a);
    InAccountNoDup(comms, a);
    ShiftedLists(own, comms, a);
    ShiftedLists(own, g, a);
    MinAccOfGroup(g, a);
    if g != [] {
      AcrossShifted(own, tree, g, a, a, map[], map[]);
    }
  }

  lemma MergeKnown(own: seq<nat>, comms: seq<Sought>, g: seq<Sought>, merged: Indices, merged': Indices, m: Indices,
        n: Indices)
    requires SameKnown(own, comms, merged, merged') && SameKnown(own, g, m, n) && IdsDiffer(comms)
    requires Within(g, m) && Within(Shifted(own, g), n) && forall c :: c in g ==> c in comms
    ensures SameKnown(own, comms, merged + m, merged' + n)
  {
    forall c | c in comms && c !in g ensures c !in m && Shift(own, c) !in n {
      assert forall d :: d in g && Shift(own, d) == Shift(own, c) ==> d == c;
    }
  }

  lemma {:induction false} MergeShifted(own: seq<nat>, tree: Tree, comms: seq<Sought>, order: seq<nat>,
        merged: Indices, merged': Indices)
    requires NoDup(comms) && IdsDiffer(comms) && SameStartsEverywhere(own, comms)
    requires (forall a :: a in order ==> a < STORAGE_MT_CHUNK_COUNT) && SameKnown(own, comms, merged, merged')
    ensures var r := MergeMaps(GroupSearch(tree, comms), order, merged);
            var s := MergeMaps(GroupSearch(tree, Shifted(own, comms)), order, merged');
            && (r.Err? ==> s == Err(r.error)) && (r.Ok? ==> s.Ok? && SameKnown(own, comms, r.value, s.value))
    decreases |order|
  {
    hide NoDup, IdsDiffer, SameStartsEverywhere, SameKnown, GroupSearch, Shifted, Within;
    if order != [] {
      var a := order[0];
      assert a in order && forall b :: b in order[1..] ==> b in order;
      GroupShifted(own, tree, comms, a);
      InAccountIs(comms, a);
      var m, n := GroupSearch(tree, comms)(a), GroupSearch(tree, Shifted(own, comms))(a);
      if m.Ok? {
        MergeKnown(own, comms, InAccount(comms, a), merged, merged', m.value, n.value);
        MergeShifted(own, tree, comms, order[1..], merged + m.value, merged' + n.value);
      }
    }
  }

  lemma {:induction false} ToLocalsShifted(own: seq<nat>, comms: seq<Sought>, m: Indices, n: Indices)
    requires SameKnown(own, comms, m, n)
    ensures ToLocals(n, Shifted(own, comms)) == ToLocals(m, comms)
  {
    if comms != [] {
      assert Shifted(own, comms)[1..] == Shifted(own, comms[1..]);
      assert comms[0] in comms && forall c :: c in comms[1..] ==> c in comms;
      ToLocalsShifted(own, comms[1..], m, n);
    }
  }

  /** The searched places of all commitments. */
  function Places(comms: seq<Sought>): seq<AccIndex> { seq(|comms|, i requires 0 <= i < |comms| => comms[i].at) }

  /** A start occurs in its account as often as its place occurs at all. */
  lemma {:induction false} StartsCounted(comms: seq<Sought>, a: nat, x: nat)
    ensures multiset(Starts(InAccount(comms, a), a))[x] == multiset(Places(comms))[AccIndex(a, x)]
  {
    if comms != [] {
      var init, last := comms[..|comms| - 1], comms[|comms| - 1];
      StartsCounted(init, a, x);
      assert Places(comms) == Places(init) + [last.at];
      if last.at.indexOfAccount == a {
        assert Starts(InAccount(init, a) + [last], a) == Starts(InAccount(init, a), a) + [last.at.indexInAccount];
      }
    }
  }

  lemma SamePlacesSameStarts(own: seq<nat>, comms: seq<Sought>)
    requires multiset(Places(comms)) == multiset(Places(Shifted(own, comms)))
    ensures SameStartsEverywhere(own, comms)
  {
    forall a: nat
      ensures multiset(Starts(InAccount(comms, a), a)) == multiset(Starts(InAccount(Shifted(own, comms), a), a))
    {
      forall x: nat
        ensures multiset(Starts(InAccount(comms, a), a))[x] == multiset(Starts(InAccount(Shifted(own, comms), a), a))[x]
      {
        StartsCounted(comms, a, x);
        StartsCounted(Shifted(own, comms), a, x);
      }
    }
  }

  // ---------------------------------------------------------------- in terms of nodes

  function MapTo<A, B>(s: seq<A>, f: A -> B): seq<B> { seq(|s|, i requires 0 <= i < |s| => f(s[i])) }

  lemma MapConcat<A, B>(s: seq<A>, t: seq<A>, f: A -> B)
    ensures MapTo(s + t, f) == MapTo(s, f) + MapTo(t, f)
  {
  }

  /** The same things in another order are mapped to the same things in another order. */
  lemma {:induction false} MapKeepsContents<A, B>(s: seq<A>, t: seq<A>, f: A -> B)
    requires multiset(s) == multiset(t)
    ensures multiset(MapTo(s, f)) == multiset(MapTo(t, f))
  {
    if s == [] {
      assert |multiset(t)| == 0;
    } else {
      assert s[0] in multiset(t);
      var k :| 0 <= k < |t| && t[k] == s[0];
      TakeOut(t, k);
      assert s == [s[0]] + s[1..] && multiset(s) == multiset(s[1..]) + multiset{s[0]};
      SumCancels(multiset(s[1..]), multiset(t[..k] + t[k + 1..]), s[0]);
      MapKeepsContents(s[1..], t[..k] + t[k + 1..], f);
      MapConcat([s[0]], s[1..], f);
      MapConcat(t[..k], t[k + 1..], f);
      MapConcat(t[..k], [t[k]] + t[k + 1..], f);
      MapConcat([t[k]], t[k + 1..], f);
    }
  }

  lemma SumCancels<A>(a: multiset<A>, b: multiset<A>, x: A)
    requires a + multiset{x} == b + multiset{x}
    ensures a == b
  {
    assert a == a + multiset{x} - multiset{x} && b == b + multiset{x} - multiset{x};
  }

  lemma TakeOut<A>(t: seq<A>, k: nat)
    requires k < |t|
    ensures t == t[..k] + ([t[k]] + t[k + 1..])
    ensures multiset(t) == multiset(t[..k] + t[k + 1..]) + multiset{t[k]}
  {
    assert t == t[..k] + ([t[k]] + t[k + 1..]);
  }

  function StartNodes(qs: seq<Query>): seq<LocalIndex> { MapTo(qs, (q: Query) => q.start) }

  /** The same hashes are sought from the same start nodes, handed around among those that start in the same account. */
  ghost predicate HandedAround(qs: seq<Query>, others: seq<Query>) {
    && |qs| == |others| && multiset(StartNodes(qs)) == multiset(StartNodes(others))
    && forall i :: 0 <= i < |qs| ==> qs[i].hash == others[i].hash && SameAccount(qs[i].start, others[i].start)
  }

  function PlaceOfNode(n: LocalIndex): AccIndex {
    match LocalToAcc(n) case Err(_) => AccIndex(0, 0) case Ok(at) => at
  }

  lemma {:induction false} PlacesOfNodes(qs: seq<Query>, comms: seq<Sought>)
    requires ToSought(qs) == Ok(comms)
    ensures Places(comms) == MapTo(StartNodes(qs), PlaceOfNode)
  {
    ToSoughtIs(qs);
    forall i | 0 <= i < |qs| ensures Places(comms)[i] == PlaceOfNode(qs[i].start) {
      assert comms[i] == Entry(qs, i);
    }
  }

  lemma {:induction false} SoughtShifted(qs: seq<Query>, others: seq<Query>) returns (comms: seq<Sought>, own: seq<nat>)
    requires HandedAround(qs, others)
    ensures ToSought(qs) == Ok(comms) && ToSought(others) == Ok(Shifted(own, comms))
    ensures NoDup(comms) && IdsDiffer(comms) && InTree(comms) && SameStartsEverywhere(own, comms)
  {
    ToSoughtIs(qs);
    ToSoughtIs(others);
    forall i | 0 <= i < |qs| ensures IsNode(qs[i].start) && IsNode(others[i].start) {
      LocalGlobalBijection(qs[i].start);
      LocalGlobalBijection(others[i].start);
    }
    comms := ToSought(qs).value;
    own := seq(|others|, i requires 0 <= i < |others| => PlaceOfNode(others[i].start).indexInAccount);
    assert ToSought(others).value == Shifted(own, comms);
    SoughtConditions(qs);
    PlacesOfNodes(qs, comms);
    PlacesOfNodes(others, Shifted(own, comms));
    MapKeepsContents(StartNodes(qs), StartNodes(others), PlaceOfNode);
    SamePlacesSameStarts(own, comms);
  }

  /**
   Whatever the tree holds, handing start indices around within a chunk account changes nothing: the lookup finds the
   same nodes, or fails with the same error.
   */
  lemma {:induction false} HandingAroundIsHarmless(tree: Tree, qs: seq<Query>, others: seq<Query>)
    requires HandedAround(qs, others)
    ensures GetCommitmentIndices(tree, qs) == GetCommitmentIndices(tree, others)
  {
    hide HandedAround, NoDup, IdsDiffer, InTree, SameStartsEverywhere, SameKnown, GroupSearch, ToSought, Accounts;
    var comms, own := SoughtShifted(qs, others);
    AccountsInTree(comms);
    ShiftedLists(own, comms, 0);
    NothingKnown(own, comms);
    MergeShifted(own, tree, comms, Accounts(comms), map[], map[]);
    if FindFromStart(tree, qs).Ok? {
      ToLocalsShifted(own, comms, FindFromStart(tree, qs).value, FindFromStart(tree, others).value);
    }
  }

  lemma NothingKnown(own: seq<nat>, comms: seq<Sought>)
    ensures SameKnown(own, comms, map[], map[])
  {
  }

  lemma {:induction false} AccountsInTree(comms: seq<Sought>)
    requires InTree(comms)
    ensures forall a :: a in Accounts(comms) ==> a < STORAGE_MT_CHUNK_COUNT
  {
    AccountsAre(comms);
  }
}
