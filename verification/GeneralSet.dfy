/**
 The keyed set of src/sdk/utils/GeneralSet.ts: a map from the id of an item to the item that remembers the
 order in which ids were first added.
 */
module GeneralSet {

  /** Adding to an insertion-ordered map: a new id goes to the end, a known id keeps its place. */
  function InsertBy<T>(id: T -> string, s: seq<T>, x: T): seq<T> {
    if s == [] then [x]
    else if id(s[0]) == id(x) then [x] + s[1..]
    else [s[0]] + InsertBy(id, s[1..], x)
  }

  function InsertAllBy<T>(id: T -> string, s: seq<T>, xs: seq<T>): seq<T>
    decreases |xs|
  {
    if xs == [] then s else InsertBy(id, InsertAllBy(id, s, xs[..|xs| - 1]), xs[|xs| - 1])
  }

  ghost predicate DistinctIds<T>(id: T -> string, s: seq<T>) {
    forall i, j :: 0 <= i < j < |s| ==> id(s[i]) != id(s[j])
  }

  /** A JavaScript map: the keys in insertion order, and the value of each. */
  ghost predicate IsMap<T>(order: seq<string>, items: map<string, T>) {
    && (forall i, j :: 0 <= i < j < |order| ==> order[i] != order[j])
    && forall k :: k in items <==> k in order
  }

  /** The values of the map in insertion order. */
  function Items<T>(order: seq<string>, items: map<string, T>): (s: seq<T>)
    requires forall i :: 0 <= i < |order| ==> order[i] in items
    ensures |s| == |order|
  {
    if order == [] then [] else [items[order[0]]] + Items(order[1..], items)
  }

  lemma {:induction false} ItemsAt<T>(order: seq<string>, items: map<string, T>)
    requires forall i :: 0 <= i < |order| ==> order[i] in items
    ensures forall i :: 0 <= i < |order| ==> Items(order, items)[i] == items[order[i]]
  {
    if order != [] { ItemsAt(order[1..], items); }
  }

  lemma SetKnown<T>(order: seq<string>, items: map<string, T>, at: nat, x: T)
    requires IsMap(order, items) && at < |order|
    ensures IsMap(order, items[order[at] := x]) && Items(order, items[order[at] := x]) == Items(order, items)[at := x]
  {
    ItemsAt(order, items);
    ItemsAt(order, items[order[at] := x]);
  }

  lemma SetNew<T>(order: seq<string>, items: map<string, T>, key: string, x: T)
    requires IsMap(order, items) && key !in items
    ensures IsMap(order + [key], items[key := x]) && Items(order + [key], items[key := x]) == Items(order, items) + [x]
  {
    assert forall k :: k in order + [key] <==> k == key || k in order;
    assert forall i :: 0 <= i < |order| ==> order[i] in order;
    ItemsAt(order, items);
    ItemsAt(order + [key], items[key := x]);
  }

  class GeneralSet<T> {
    const getId: T -> string
    /** The ids in insertion order; with `items` this is the JavaScript map. */
    var order: seq<string>
    var items: map<string, T>

    ghost predicate Valid()
      reads this
    {
      IsMap(order, items) && forall k :: k in items ==> getId(items[k]) == k
    }

    ghost function Contents(): seq<T>
      requires Valid()
      reads this
    {
      Items(order, items)
    }

    constructor (getId: T -> string)
      ensures Valid() && Contents() == [] && this.getId == getId
    {
      this.getId := getId;
      order, items := [], map[];
    }

    method Add(item: T)
      requires Valid()
      modifies this
      ensures Valid() && Contents() == InsertBy(getId, old(Contents()), item)
    {
      hide InsertBy;
      var key := getId(item);
      SetItem(getId, order, items, item);
      if key !in items { order := order + [key]; }
      items := items[key := item];
    }

    method AddArr(arr: seq<T>)
      requires Valid()
      modifies this
      ensures Valid() && Contents() == InsertAllBy(getId, old(Contents()), arr)
    {
      for i := 0 to |arr|
        invariant Valid() && Contents() == InsertAllBy(getId, old(Contents()), arr[..i])
      {
        assert arr[..i + 1][..i] == arr[..i];
        Add(arr[i]);
      }
      assert arr[..|arr|] == arr;
    }

    method ToArray() returns (a: seq<T>)
      requires Valid()
      ensures a == Contents()
    {
      a := [];
      ItemsAt(order, items);
      for i := 0 to |order|
        invariant a == Contents()[..i]
      {
        a := a + [items[order[i]]];
      }
    }
  }

  lemma {:induction false} InsertNew<T>(id: T -> string, s: seq<T>, x: T)
    requires forall i :: 0 <= i < |s| ==> id(s[i]) != id(x)
    ensures InsertBy(id, s, x) == s + [x]
  {
    if s != [] { InsertNew(id, s[1..], x); }
  }

  lemma {:induction false} InsertKnown<T>(id: T -> string, s: seq<T>, x: T, at: nat)
    requires DistinctIds(id, s) && at < |s| && id(s[at]) == id(x)
    ensures InsertBy(id, s, x) == s[at := x]
  {
    if at > 0 { InsertKnown(id, s[1..], x, at - 1); }
  }

  /** Setting a key of the map is inserting by id. */
  lemma SetItem<T>(id: T -> string, order: seq<string>, items: map<string, T>, x: T)
    requires IsMap(order, items) && forall k :: k in items ==> id(items[k]) == k
    ensures var key := id(x);
            var order', items' := if key in items then order else order + [key], items[key := x];
            IsMap(order', items') && Items(order', items') == InsertBy(id, Items(order, items), x)
  {
    ItemsAt(order, items);
    if id(x) in items {
      var at :| 0 <= at < |order| && order[at] == id(x);
      SetKnown(order, items, at, x);
      InsertKnown(id, Items(order, items), x, at);
    } else {
      SetNew(order, items, id(x), x);
      InsertNew(id, Items(order, items), x);
    }
  }

  // ---------------------------------------------------------------- what a set of items keeps

  /** Every id ever added is there, and no id twice. */
  lemma {:induction false} InsertIds<T>(id: T -> string, s: seq<T>, x: T)
    requires DistinctIds(id, s)
    ensures DistinctIds(id, InsertBy(id, s, x)) && x in InsertBy(id, s, x)
    ensures forall y :: y in InsertBy(id, s, x) <==> y == x || (y in s && id(y) != id(x))
  {
    if exists at :: 0 <= at < |s| && id(s[at]) == id(x) {
      var at :| 0 <= at < |s| && id(s[at]) == id(x);
      InsertKnown(id, s, x, at);
      assert s[at := x][at] == x;
      forall y | y in s && id(y) != id(x) ensures y in s[at := x] {
        var i :| 0 <= i < |s| && s[i] == y;
        assert s[at := x][i] == y;
      }
    } else {
      InsertNew(id, s, x);
    }
  }

  /** With ids that tell the items apart, the set holds exactly the items added, each once. */
  lemma {:induction false} SetOfAll<T>(id: T -> string, xs: seq<T>)
    requires forall x, y :: x in xs && y in xs && id(x) == id(y) ==> x == y
    ensures DistinctIds(id, InsertAllBy(id, [], xs))
    ensures forall x :: x in InsertAllBy(id, [], xs) <==> x in xs
  {
    if xs != [] {
      var init, last := xs[..|xs| - 1], xs[|xs| - 1];
      assert xs == init + [last];
      SetOfAll(id, init);
      InsertIds(id, InsertAllBy(id, [], init), last);
    }
  }
}
