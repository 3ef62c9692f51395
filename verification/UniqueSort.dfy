/** `uniqueSort`: sort by document order, then drop duplicates, but only if the comparator
    noticed one. */
module UniqueSort {
  import opened Dom
  import opened DocumentOrder

  // ---- the engine's sort, whatever it is ----

  /** A comparison sort for a fixed number of items as a decision tree: it asks for comparisons
      of two positions and in the end lists the positions in sorted order. */
  datatype Sorter = Done(order: seq<nat>) | Ask(i: nat, j: nat, less: Sorter, same: Sorter, more: Sorter)

  predicate Fits(s: Sorter, n: nat) {
    match s
    case Done(order) => |order| == n && forall k :: 0 <= k < |order| ==> order[k] < n
    case Ask(i, j, l, e, m) => i < n && j < n && Fits(l, n) && Fits(e, n) && Fits(m, n)
  }

  function Output(s: Sorter, keys: seq<int>): (r: seq<nat>)
    requires Fits(s, |keys|)
    ensures |r| == |keys| && forall k :: 0 <= k < |r| ==> r[k] < |keys|
  {
    match s
    case Done(order) => order
    case Ask(i, j, l, e, m) =>
      if keys[i] < keys[j] then Output(l, keys) else if keys[i] == keys[j] then Output(e, keys) else Output(m, keys)
  }

  /** Some comparison the sorter asks for, on these keys, finds two equal keys. */
  predicate MeetsEqual(s: Sorter, keys: seq<int>)
    requires Fits(s, |keys|)
  {
    match s
    case Done(_) => false
    case Ask(i, j, l, e, m) =>
      keys[i] == keys[j] || MeetsEqual(if keys[i] < keys[j] then l else m, keys)
  }

  predicate Ascending(order: seq<nat>, keys: seq<int>)
    requires forall k :: 0 <= k < |order| ==> order[k] < |keys|
  {
    forall a, b :: 0 <= a < b < |order| ==> keys[order[a]] <= keys[order[b]]
  }

  ghost predicate IsPermutation(order: seq<nat>, n: nat) {
    && (forall k :: 0 <= k < |order| ==> order[k] < n)
    && (forall a, b :: 0 <= a < b < |order| ==> order[a] != order[b])
    && (forall x: nat :: x < n ==> x in order)
  }

  /** A sort in the usual sense: on all keys it lists every position once, in ascending order. */
  ghost predicate Sorts(s: Sorter, n: nat) {
    Fits(s, n) && forall keys: seq<int> :: |keys| == n ==>
      IsPermutation(Output(s, keys), n) && Ascending(Output(s, keys), keys)
  }

  // ---- such sorts exist for every number of items: insertion sort as a decision tree ----

  function Inserted(order: seq<nat>, i: nat, x: nat): seq<nat>
    requires i <= |order|
  {
    order[..i] + [x] + order[i..]
  }

  /** Sorts items `x`, `x + 1`, ... into an order of the items before them. */
  function InsertionFrom(order: seq<nat>, x: nat, n: nat): Sorter
    requires x <= n
    decreases n - x, 1, 0
  {
    if x == n then Done(order) else Place(order, x, 0, n)
  }

  /** Looks for the place of item `x` from place `i` on. */
  function Place(order: seq<nat>, x: nat, i: nat, n: nat): Sorter
    requires i <= |order| && x < n
    decreases n - x, 0, |order| - i
  {
    var here := InsertionFrom(Inserted(order, i, x), x + 1, n);
    if i == |order| then here else Ask(x, order[i], here, here, Place(order, x, i + 1, n))
  }

  lemma {:induction false} InsertedPermutes(order: seq<nat>, i: nat, x: nat)
    requires IsPermutation(order, x) && i <= |order|
    ensures IsPermutation(Inserted(order, i, x), x + 1)
  {
    var r := Inserted(order, i, x);
    assert r[i] == x;
    forall y: nat | y < x + 1 ensures y in r {
      if y != x {
        assert y in order;
        var k :| 0 <= k < |order| && order[k] == y;
        assert r[if k < i then k else k + 1] == y;
      }
    }
  }

  lemma InsertedAscends(order: seq<nat>, i: nat, x: nat, keys: seq<int>)
    requires x < |keys| && i <= |order| && forall k :: 0 <= k < |order| ==> order[k] < |keys|
    requires Ascending(order, keys)
    requires forall k :: 0 <= k < i ==> keys[order[k]] <= keys[x]
    requires i < |order| ==> keys[x] <= keys[order[i]]
    ensures forall k :: 0 <= k < |order| + 1 ==> Inserted(order, i, x)[k] < |keys|
    ensures Ascending(Inserted(order, i, x), keys)
  {
  }

  lemma {:induction false} InsertionFits(order: seq<nat>, x: nat, n: nat)
    requires x <= n && |order| == x && forall k :: 0 <= k < x ==> order[k] < n
    ensures Fits(InsertionFrom(order, x, n), n)
    decreases n - x, 1, 0
  {
    if x < n { PlaceFits(order, x, 0, n); }
  }

  lemma {:induction false} PlaceFits(order: seq<nat>, x: nat, i: nat, n: nat)
    requires x < n && |order| == x && i <= x && forall k :: 0 <= k < x ==> order[k] < n
    ensures Fits(Place(order, x, i, n), n)
    decreases n - x, 0, |order| - i
  {
    hide InsertionFrom;
    InsertionFits(Inserted(order, i, x), x + 1, n);
    if i < x { PlaceFits(order, x, i + 1, n); }
  }

  lemma {:induction false} InsertionOutput(order: seq<nat>, x: nat, keys: seq<int>)
    requires x <= |keys| && |order| == x && IsPermutation(order, x) && Ascending(order, keys)
    requires Fits(InsertionFrom(order, x, |keys|), |keys|)
    ensures var r := Output(InsertionFrom(order, x, |keys|), keys); IsPermutation(r, |keys|) && Ascending(r, keys)
    decreases |keys| - x, 1, 0
  {
    hide Place, IsPermutation, Ascending;
    if x < |keys| { PlaceOutput(order, x, 0, keys); }
  }

  lemma {:induction false} PlaceOutput(order: seq<nat>, x: nat, i: nat, keys: seq<int>)
    requires x < |keys| && |order| == x && IsPermutation(order, x) && Ascending(order, keys) && i <= x
    requires forall k :: 0 <= k < i ==> keys[order[k]] <= keys[x]
    requires Fits(Place(order, x, i, |keys|), |keys|)
    ensures var r := Output(Place(order, x, i, |keys|), keys); IsPermutation(r, |keys|) && Ascending(r, keys)
    decreases |keys| - x, 0, |order| - i
  {
    if i < x && keys[order[i]] < keys[x] {
      PlaceOutput(order, x, i + 1, keys);
    } else {
      InsertedPermutes(order, i, x);
      InsertedAscends(order, i, x, keys);
      hide InsertionFrom, IsPermutation, Ascending;
      InsertionOutput(Inserted(order, i, x), x + 1, keys);
    }
  }

  /** Insertion sort is a sort in this sense, for any number of items. */
  lemma InsertionSorts(n: nat)
    ensures Sorts(InsertionFrom([], 0, n), n)
  {
    InsertionFits([], 0, n);
    hide InsertionFrom;
    forall keys: seq<int> | |keys| == n
      ensures IsPermutation(Output(InsertionFrom([], 0, n), keys), n)
      ensures Ascending(Output(InsertionFrom([], 0, n), keys), keys)
    {
      InsertionOutput([], 0, keys);
    }
  }

  /** Doubling the keys and raising one of them answers every comparison of unequal keys alike. */
  function Raised(keys: seq<int>, x: nat): (r: seq<int>)
    ensures |r| == |keys| && forall k :: 0 <= k < |r| ==> r[k] == 2 * keys[k] + if k == x then 1 else 0
  {
    seq(|keys|, k requires 0 <= k < |keys| => 2 * keys[k] + if k == x then 1 else 0)
  }

  lemma {:induction false} RaisedSameOutput(s: Sorter, keys: seq<int>, x: nat)
    requires Fits(s, |keys|) && !MeetsEqual(s, keys)
    ensures Output(s, Raised(keys, x)) == Output(s, keys)
    decreases s
  {
    match s
    case Done(_) =>
    case Ask(i, j, l, e, m) =>
      RaisedSameOutput(if keys[i] < keys[j] then l else m, keys, x);
  }

  /** Any sort that only compares must compare two equal items if there are any: otherwise it
      would give the same order after one of them is made larger. */
  lemma DuplicatesMeet(s: Sorter, keys: seq<int>, a: nat, b: nat)
    requires Sorts(s, |keys|) && a < b < |keys| && keys[a] == keys[b]
    ensures MeetsEqual(s, keys)
  {
    if !MeetsEqual(s, keys) {
      var order := Output(s, keys);
      hide Output, MeetsEqual, Fits;
      var x := EarlierOf(order, |keys|, a, b);
      RaisedSameOutput(s, keys, x);
      SortsOn(s, Raised(keys, x));
      RaisedBreaks(order, keys, a, b, x);
      assert false;
    }
  }

  lemma SortsOn(s: Sorter, keys: seq<int>)
    requires Sorts(s, |keys|)
    ensures IsPermutation(Output(s, keys), |keys|) && Ascending(Output(s, keys), keys)
  {
  }

  ghost predicate ComesBefore(order: seq<nat>, x: nat, y: nat) {
    exists i, j :: 0 <= i < j < |order| && order[i] == x && order[j] == y
  }

  lemma EarlierOf(order: seq<nat>, n: nat, a: nat, b: nat) returns (x: nat)
    requires IsPermutation(order, n) && a < n && b < n && a != b
    ensures (x == a && ComesBefore(order, a, b)) || (x == b && ComesBefore(order, b, a))
  {
    assert a in order && b in order;
    var i :| 0 <= i < |order| && order[i] == a;
    var j :| 0 <= j < |order| && order[j] == b;
    x := if i < j then a else b;
  }

  lemma RaisedBreaks(order: seq<nat>, keys: seq<int>, a: nat, b: nat, x: nat)
    requires forall k :: 0 <= k < |order| ==> order[k] < |keys|
    requires a < |keys| && b < |keys| && a != b && keys[a] == keys[b]
    requires (x == a && ComesBefore(order, a, b)) || (x == b && ComesBefore(order, b, a))
    ensures !Ascending(order, Raised(keys, x))
  {
  }

  // ---- uniqueSort ----

  function Positions(t: Tree, nodes: seq<Path>): (r: seq<int>)
    requires forall k :: 0 <= k < |nodes| ==> InTree(t, nodes[k])
    ensures |r| == |nodes| && forall k :: 0 <= k < |nodes| ==> r[k] == Position(t, nodes[k])
  {
    seq(|nodes|, k requires 0 <= k < |nodes| => Position(t, nodes[k]))
  }

  /** Strictly in document order, so also without duplicates. */
  predicate InDocumentOrder(t: Tree, nodes: seq<Path>) {
    && (forall k :: 0 <= k < |nodes| ==> InTree(t, nodes[k]))
    && (forall a, b :: 0 <= a < b < |nodes| ==> Position(t, nodes[a]) < Position(t, nodes[b]))
  }

  predicate WeaklyOrdered(t: Tree, nodes: seq<Path>) {
    && (forall k :: 0 <= k < |nodes| ==> InTree(t, nodes[k]))
    && (forall a, b :: 0 <= a < b < |nodes| ==> Position(t, nodes[a]) <= Position(t, nodes[b]))
  }

  /** `results.sort(sortOrder)`. */
  method Sort(state: SortState, t: Tree, results: seq<Path>, sorter: Sorter) returns (sorted: seq<Path>)
    requires forall k :: 0 <= k < |results| ==> InTree(t, results[k])
    requires Sorts(sorter, |results|)
    modifies state
    ensures WeaklyOrdered(t, sorted)
    ensures forall p :: p in sorted <==> p in results
    ensures state.hasDuplicate || InDocumentOrder(t, sorted)
    ensures old(state.hasDuplicate) ==> state.hasDuplicate
  {
    hide Position, InTree, Sorts, IsPermutation, Ascending;
    ghost var keys := Positions(t, results);
    SortsOn(sorter, keys);
    FitsOf(sorter, |results|);
    var s := sorter;
    while s.Ask?
      invariant Fits(s, |results|) && Output(s, keys) == Output(sorter, keys)
      invariant state.hasDuplicate <== old(state.hasDuplicate)
      invariant MeetsEqual(sorter, keys) ==> state.hasDuplicate || MeetsEqual(s, keys)
      decreases s
    {
      var c := state.SortOrder(t, results[s.i], results[s.j]);
      if c == 0 { PositionInjective(t, results[s.i], results[s.j]); }
      s := if c < 0 then s.less else if c == 0 then s.same else s.more;
    }
    sorted := seq(|results|, k requires 0 <= k < |results| => results[s.order[k]]);
    SameNodes(results, s.order, sorted);
    StaysOrdered(t, results, s.order, sorted);
    if !state.hasDuplicate { AllApart(t, results, sorter, s.order, sorted); }
  }

  lemma FitsOf(s: Sorter, n: nat)
    requires Sorts(s, n)
    ensures Fits(s, n)
  {
  }

  lemma StaysOrdered(t: Tree, results: seq<Path>, order: seq<nat>, sorted: seq<Path>)
    requires forall k :: 0 <= k < |results| ==> InTree(t, results[k])
    requires |order| == |sorted| && forall k :: 0 <= k < |order| ==> order[k] < |results|
    requires Ascending(order, Positions(t, results))
    requires forall k :: 0 <= k < |sorted| ==> sorted[k] == results[order[k]]
    ensures WeaklyOrdered(t, sorted)
  {
    hide Position, InTree;
  }

  lemma SameNodes(results: seq<Path>, order: seq<nat>, sorted: seq<Path>)
    requires |order| == |sorted| == |results| && IsPermutation(order, |results|)
    requires forall k :: 0 <= k < |sorted| ==> sorted[k] == results[order[k]]
    ensures forall p :: p in sorted <==> p in results
  {
    forall p | p in results ensures p in sorted {
      var i: nat :| i < |results| && results[i] == p;
      assert i in order;
      var k :| 0 <= k < |order| && order[k] == i;
      assert sorted[k] == p;
    }
  }

  /** If no comparison met equal nodes, there are none. */
  lemma AllApart(t: Tree, results: seq<Path>, sorter: Sorter, order: seq<nat>, sorted: seq<Path>)
    requires forall k :: 0 <= k < |results| ==> InTree(t, results[k])
    requires Sorts(sorter, |results|) && !MeetsEqual(sorter, Positions(t, results))
    requires order == Output(sorter, Positions(t, results)) && |sorted| == |results|
    requires forall k :: 0 <= k < |sorted| ==> sorted[k] == results[order[k]]
    ensures InDocumentOrder(t, sorted)
  {
    var keys := Positions(t, results);
    forall a, b | 0 <= a < b < |sorted| ensures Position(t, sorted[a]) < Position(t, sorted[b]) {
      assert keys[order[a]] <= keys[order[b]];
      if keys[order[a]] == keys[order[b]] {
        DuplicatesMeet(sorter, keys, if order[a] < order[b] then order[a] else order[b],
                                     if order[a] < order[b] then order[b] else order[a]);
      }
    }
  }

  /** The result is strictly in document order with the same nodes, whether or not the pass that
      removes duplicates runs. */
  method UniqueSort(state: SortState, t: Tree, results: seq<Path>, sorter: Sorter, baseHasDuplicate: bool) returns (r: seq<Path>)
    requires forall k :: 0 <= k < |results| ==> InTree(t, results[k])
    requires Sorts(sorter, |results|)
    modifies state
    ensures InDocumentOrder(t, r)
    ensures forall p :: p in r <==> p in results
  {
    state.hasDuplicate := baseHasDuplicate;
    r := Sort(state, t, results, sorter);
    ghost var sorted := r;
    if state.hasDuplicate {
      var i := 1;
      while i < |r|
        invariant 1 <= i && (r == [] || i <= |r|)
        invariant WeaklyOrdered(t, r) && InDocumentOrder(t, r[..if r == [] then 0 else i])
        invariant forall p :: p in r <==> p in sorted
        decreases |r| - i
      {
        if r[i] == r[i - 1] {
          ghost var before := r;
          r := r[..i] + r[i + 1..];
          SpliceDuplicate(t, before, i, r);
          i := i - 1;
        } else {
          NextApart(t, r, i);
        }
        i := i + 1;
      }
      assert r[..|r|] == r;
    }
  }

  lemma SpliceDuplicate(t: Tree, before: seq<Path>, i: nat, after: seq<Path>)
    requires WeaklyOrdered(t, before) && 1 <= i < |before| && before[i] == before[i - 1]
    requires after == before[..i] + before[i + 1..]
    ensures WeaklyOrdered(t, after) && after[..i] == before[..i]
    ensures forall p :: p in after <==> p in before
  {
    hide InTree, Position;
    forall p | p in before ensures p in after {
      var k :| 0 <= k < |before| && before[k] == p;
      assert p == after[if k < i then k else k - 1];
    }
  }

  lemma NextApart(t: Tree, r: seq<Path>, i: nat)
    requires WeaklyOrdered(t, r) && 1 <= i < |r| && r[i] != r[i - 1] && InDocumentOrder(t, r[..i])
    ensures InDocumentOrder(t, r[..i + 1])
  {
    hide InTree, Position;
    if Position(t, r[i - 1]) == Position(t, r[i]) { PositionInjective(t, r[i - 1], r[i]); }
    assert forall a :: 0 <= a < i ==> r[..i + 1][a] == r[..i][a] == r[a];
    forall a | 0 <= a < i ensures Position(t, r[a]) < Position(t, r[i]) {
      if a < i - 1 { assert Position(t, r[..i][a]) < Position(t, r[..i][i - 1]); }
    }
  }
}
