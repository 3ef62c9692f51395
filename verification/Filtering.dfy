/** A page under selection: the marks that the selector engine writes on DOM nodes, and the
    filter that applies a compound selector. */
module Filtering {
  import opened Wrappers
  import opened Dom

  // ---- what the simple selectors test ----

  /** No element sibling before the node. */
  predicate IsFirst(t: Tree, p: Path)
    requires InTree(t, p)
  {
    if p == [] then true
    else
      LastInTree(t, p);
      CountElements(Siblings(t, p)[..Last(p)]) == 0
  }

  /** No element sibling after the node. */
  predicate IsLast(t: Tree, p: Path)
    requires InTree(t, p)
  {
    if p == [] then true
    else
      LastInTree(t, p);
      CountElements(Siblings(t, p)[Last(p) + 1..]) == 0
  }

  predicate Passes(t: Tree, s: Simple, p: Path)
    requires InTree(t, p)
  {
    match s
    case Tag(name) => At(t, p).name == name
    case Any => IsElement(t, p)
    case Feature(f) => f in At(t, p).features
    case Nth(a, b) => (a == 1 && b == 0) || (p != [] && IsElement(t, p) && NthTest(a, b, ElementIndex(t, p)))
    case FirstChild => IsFirst(t, p)
    case LastChild => IsLast(t, p)
    case OnlyChild => IsFirst(t, p) && IsLast(t, p)
  }

  predicate PassesAll(t: Tree, simples: seq<Simple>, p: Path)
    requires InTree(t, p)
  {
    forall i :: 0 <= i < |simples| ==> Passes(t, simples[i], p)
  }

  predicate AllInTree(t: Tree, items: seq<Path>) {
    forall i :: 0 <= i < |items| ==> InTree(t, items[i])
  }

  /** The items that pass all the simple selectors, in order. */
  function Selected(t: Tree, simples: seq<Simple>, items: seq<Path>): (r: seq<Path>)
    requires AllInTree(t, items)
    ensures AllInTree(t, r)
  {
    if items == [] then []
    else
      var last := items[|items| - 1];
      Selected(t, simples, items[..|items| - 1]) + if PassesAll(t, simples, last) then [last] else []
  }

  function Drop<T>(s: seq<T>, k: nat): seq<T>
    requires k < |s|
  {
    s[..k] + s[k + 1..]
  }

  lemma PassesSplit(t: Tree, simples: seq<Simple>, k: nat, p: Path)
    requires InTree(t, p) && k < |simples|
    ensures PassesAll(t, simples, p) <==> Passes(t, simples[k], p) && PassesAll(t, Drop(simples, k), p)
  {
    hide Passes, InTree;
    var rest := Drop(simples, k);
    if PassesAll(t, rest, p) && Passes(t, simples[k], p) {
      forall i | 0 <= i < |simples| ensures Passes(t, simples[i], p) {
        if i != k { assert simples[i] == rest[if i < k then i else i - 1]; }
      }
    }
    if PassesAll(t, simples, p) {
      forall i | 0 <= i < |rest| ensures Passes(t, rest[i], p) {
        assert rest[i] == simples[if i < k then i else i + 1];
      }
    }
  }

  /** Filtering by one selector and then by the others is filtering by all, whatever comes first. */
  lemma {:induction false} SelectedSplit(t: Tree, simples: seq<Simple>, k: nat, items: seq<Path>)
    requires AllInTree(t, items) && k < |simples|
    ensures Selected(t, Drop(simples, k), Selected(t, [simples[k]], items)) == Selected(t, simples, items)
    decreases |items|
  {
    hide Passes, InTree, PassesAll;
    if items != [] {
      var front, last := items[..|items| - 1], items[|items| - 1];
      SelectedSplit(t, simples, k, front);
      PassesSplit(t, simples, k, last);
      PassesOne(t, simples[k], last);
      var kept := Selected(t, [simples[k]], front);
      assert (kept + [last])[..|kept + [last]| - 1] == kept;
      assert kept + [] == kept;
    }
  }

  lemma PassesOne(t: Tree, s: Simple, p: Path)
    requires InTree(t, p)
    ensures PassesAll(t, [s], p) <==> Passes(t, s, p)
  {
    assert [s][0] == s;
  }

  lemma NoElements(kids: seq<Tree>)
    ensures CountElements(kids[..0]) == 0
  {
  }

  lemma CountNext(kids: seq<Tree>, c: nat)
    requires c < |kids|
    ensures CountElements(kids[..c + 1]) == CountElements(kids[..c]) + if kids[c].kind == ELEMENT then 1 else 0
  {
    assert kids[..c + 1][..c] == kids[..c];
  }

  lemma SelectedOfNone(t: Tree, simples: seq<Simple>)
    ensures AllInTree(t, []) && Selected(t, simples, []) == []
  {
  }

  lemma SelectedNext(t: Tree, s: Simple, items: seq<Path>, i: nat)
    requires AllInTree(t, items) && i < |items|
    ensures AllInTree(t, items[..i]) && AllInTree(t, items[..i + 1])
    ensures Selected(t, [s], items[..i + 1]) == Selected(t, [s], items[..i]) + if Passes(t, s, items[i]) then [items[i]] else []
    ensures Passes(t, s, items[i]) ==> Selected(t, [s], items[..i + 1]) == Selected(t, [s], items[..i]) + [items[i]]
    ensures !Passes(t, s, items[i]) ==> Selected(t, [s], items[..i + 1]) == Selected(t, [s], items[..i])
  {
    hide Passes, InTree;
    assert items[..i + 1][..i] == items[..i];
    PassesOne(t, s, items[i]);
  }

  lemma {:induction false} SelectedByNone(t: Tree, items: seq<Path>)
    requires AllInTree(t, items)
    ensures Selected(t, [], items) == items
    decreases |items|
  {
    if items != [] { SelectedByNone(t, items[..|items| - 1]); }
  }

  /** A slot of the array that the engine works on: a node, or a value left by an earlier step. */
  datatype Slot = Null | False | True | El(p: Path)

  /** The marks on a node: the walk that passed it, the slot that walk was for, and its position
      among its element siblings.  -1 and 0 stand for properties not yet written. */
  class Node {
    var sizcache: int
    var sizset: nat
    var nodeIndex: nat

    constructor ()
      ensures sizcache == -1 && sizset == 0 && nodeIndex == 0
    {
      sizcache, sizset, nodeIndex := -1, 0, 0;
    }
  }

  class Page {
    const tree: Tree
    const nodes: map<Path, Node>
    /** The engine's counter for names of walks and nth tests. */
    var done: int

    ghost predicate Valid()
      reads this, nodes.Values
    {
      && (forall p :: p in nodes <==> InTree(tree, p))
      && (forall p, q :: p in nodes && q in nodes && p != q ==> nodes[p] != nodes[q])
      && (forall p :: p in nodes ==> nodes[p].sizcache < done)
      && (forall p :: p in nodes && (p == [] || At(tree, p).kind != ELEMENT) ==> nodes[p].nodeIndex == 0)
      && done >= 0
    }

    /** Marks changed since the old state carry names given out since then. */
    twostate predicate OnlyFreshMarks()
      reads this, nodes.Values
    {
      && old(done) <= done
      && forall p :: p in nodes ==>
           && nodes[p].sizset == old(nodes[p].sizset)
           && (nodes[p].sizcache == old(nodes[p].sizcache) || old(done) <= nodes[p].sizcache)
    }

    /** The cached positions of a node's children are right. */
    ghost predicate IndexedAt(q: Path)
      requires q in nodes && InTree(tree, q)
      reads nodes.Values
    {
      var kids := At(tree, q).children;
      forall c :: 0 <= c < |kids| && kids[c].kind == ELEMENT && q + [c] in nodes ==>
        nodes[q + [c]].nodeIndex == CountElements(kids[..c + 1])
    }

    /** Below every node marked by this nth test the cached positions are right. */
    ghost predicate Indexed(doneName: int)
      reads nodes.Values
    {
      forall q :: q in nodes && InTree(tree, q) && nodes[q].sizcache == doneName ==> IndexedAt(q)
    }

    method SetIndex(p: Path, index: nat)
      requires Valid() && p in nodes && p != [] && IsElement(tree, p)
      modifies nodes[p]
      ensures Valid() && nodes[p].nodeIndex == index
      ensures forall q :: q in nodes && q != p ==> nodes[q].nodeIndex == old(nodes[q].nodeIndex)
      ensures forall q :: q in nodes ==> nodes[q].sizcache == old(nodes[q].sizcache) && nodes[q].sizset == old(nodes[q].sizset)
    {
      nodes[p].nodeIndex := index;
    }

    lemma NodesAreTree()
      requires Valid()
      ensures forall p :: p in nodes <==> InTree(tree, p)
    {
    }

    method SetName(p: Path, name: int)
      requires Valid() && p in nodes && name < done
      modifies nodes[p]
      ensures Valid() && nodes[p].sizcache == name
      ensures forall q :: q in nodes && q != p ==> nodes[q].sizcache == old(nodes[q].sizcache)
      ensures forall q :: q in nodes ==> nodes[q].nodeIndex == old(nodes[q].nodeIndex) && nodes[q].sizset == old(nodes[q].sizset)
    {
      nodes[p].sizcache := name;
    }

    static lemma ChildrenApart(q: Path, c: nat)
      ensures q + [c] != [] && Front(q + [c]) == q
      ensures forall k: nat :: k != c ==> q + [k] != q + [c]
    {
      forall k: nat | k != c ensures q + [k] != q + [c] { assert Last(q + [k]) == k && Last(q + [c]) == c; }
    }

    /** One round of the counting loop of the nth test. */
    method NumberChild(q: Path, kids: seq<Tree>, c: nat, before: nat) returns (count: nat)
      requires Valid() && q in nodes && InTree(tree, q) && kids == At(tree, q).children && c < |kids|
      requires before == CountElements(kids[..c])
      modifies nodes.Values
      ensures Valid() && count == CountElements(kids[..c + 1])
      ensures kids[c].kind == ELEMENT && q + [c] in nodes ==> nodes[q + [c]].nodeIndex == count
      ensures forall p :: p in nodes && p != q + [c] ==> nodes[p].nodeIndex == old(nodes[p].nodeIndex)
      ensures forall p :: p in nodes ==> nodes[p].sizcache == old(nodes[p].sizcache) && nodes[p].sizset == old(nodes[p].sizset)
    {
      hide InTree, At, CountElements, Valid;
      var node := q + [c];
      ChildInTree(tree, q, c);
      CountNext(kids, c);
      NodesAreTree();
      count := before;
      if IsElement(tree, node) {
        count := count + 1;
        SetIndex(node, count);
      }
    }

    /** The whole loop. */
    method NumberChildren(q: Path, doneName: int)
      requires Valid() && q in nodes && doneName < done
      modifies nodes.Values
      ensures Valid() && IndexedAt(q) && nodes[q].sizcache == doneName
      ensures forall p :: p in nodes && p != q ==> nodes[p].sizcache == old(nodes[p].sizcache)
      ensures forall p :: p in nodes ==> nodes[p].sizset == old(nodes[p].sizset)
      ensures forall p :: p in nodes && (p == [] || Front(p) != q) ==> nodes[p].nodeIndex == old(nodes[p].nodeIndex)
      ensures forall p :: p in nodes && p != q && InTree(tree, p) && old(IndexedAt(p)) ==> IndexedAt(p)
    {
      hide InTree, At, CountElements, Valid;
      NodesAreTree();
      var kids := At(tree, q).children;
      var count, c := 0, 0;
      NoElements(kids);
      while c < |kids|
        invariant 0 <= c <= |kids| && count == CountElements(kids[..c])
        invariant Valid()
        invariant forall p :: p in nodes ==> nodes[p].sizcache == old(nodes[p].sizcache) && nodes[p].sizset == old(nodes[p].sizset)
        invariant forall p :: p in nodes && (p == [] || Front(p) != q) ==> nodes[p].nodeIndex == old(nodes[p].nodeIndex)
        invariant forall k :: 0 <= k < c && kids[k].kind == ELEMENT && q + [k] in nodes ==>
                    nodes[q + [k]].nodeIndex == CountElements(kids[..k + 1])
      {
        ChildrenApart(q, c);
        count := NumberChild(q, kids, c, count);
        c := c + 1;
      }
      SetName(q, doneName);
      OthersStay(q);
    }

    /** Numbering the children of one node leaves those of all others alone. */
    twostate lemma OthersStay(q: Path)
      requires forall p :: p in nodes && (p == [] || Front(p) != q) ==> nodes[p].nodeIndex == old(nodes[p].nodeIndex)
      ensures forall p :: p in nodes && p != q && InTree(tree, p) && old(IndexedAt(p)) ==> IndexedAt(p)
    {
      hide At, CountElements, InTree;
      forall p, k: nat | p in nodes && p != q && p + [k] in nodes
        ensures nodes[p + [k]].nodeIndex == old(nodes[p + [k]].nodeIndex)
      {
        assert Front(p + [k]) == p;
      }
    }

    /** With right positions below the parent, an element's cached position is its index. */
    lemma IndexOfChild(p: Path)
      requires Valid() && p in nodes && p != [] && InTree(tree, Front(p)) && Front(p) in nodes && IndexedAt(Front(p))
      ensures nodes[p].nodeIndex == if IsElement(tree, p) then ElementIndex(tree, p) else 0
    {
      LastInTree(tree, p);
      var q, c := Front(p), Last(p);
      var kids := At(tree, q).children;
      assert q + [c] == p && q + [c] in nodes && kids == Siblings(tree, p);
      if kids[c].kind == ELEMENT {
        assert nodes[q + [c]].nodeIndex == CountElements(kids[..c + 1]);
      }
    }

    lemma NthPasses(p: Path, a: int, b: int)
      requires InTree(tree, p)
      ensures Passes(tree, Nth(a, b), p) <==>
              (a == 1 && b == 0) || (p != [] && IsElement(tree, p) && NthTest(a, b, ElementIndex(tree, p)))
      ensures p != [] && IsElement(tree, p) ==> ElementIndex(tree, p) >= 1
    {
      if p != [] {
        LastInTree(tree, p);
        var kids := Siblings(tree, p);
        assert kids[..Last(p) + 1][..Last(p)] == kids[..Last(p)];
      }
    }

    /** The nth-child test with its cache of positions. */
    method NthChild(elem: Path, a: int, b: int, doneName: int) returns (r: bool)
      requires Valid() && elem in nodes && doneName < done && Indexed(doneName)
      modifies nodes.Values
      ensures Valid() && Indexed(doneName)
      ensures r == Passes(tree, Nth(a, b), elem)
      ensures forall p :: p in nodes ==>
                && nodes[p].sizset == old(nodes[p].sizset)
                && (nodes[p].sizcache == old(nodes[p].sizcache) || nodes[p].sizcache == doneName)
    {
      hide At, CountElements, NthTest, ElementIndex, IsElement, IndexedAt, InTree;
      NthPasses(elem, a, b);
      if a == 1 && b == 0 { return true; }
      if elem != [] {
        LastInTree(tree, elem);
        var parent := Front(elem);
        if nodes[parent].sizcache != doneName || nodes[elem].nodeIndex == 0 {
          NumberChildren(parent, doneName);
        }
        assert IndexedAt(parent);
        IndexOfChild(elem);
      }
      var index := nodes[elem].nodeIndex;
      if index == 0 { return false; }  // undefined, so every comparison below is with NaN
      r := NthTest(a, b, index);
    }

    /** One test on one node. */
    method Check(s: Simple, item: Path, doneName: int) returns (found: bool)
      requires Valid() && item in nodes && doneName < done && Indexed(doneName)
      modifies nodes.Values
      ensures Valid() && Indexed(doneName) && found == Passes(tree, s, item)
      ensures forall p :: p in nodes ==>
                && nodes[p].sizset == old(nodes[p].sizset)
                && (nodes[p].sizcache == old(nodes[p].sizcache) || nodes[p].sizcache == doneName)
    {
      match s
      case Tag(name) => return At(tree, item).name == name;
      case Any => return IsElement(tree, item);
      case Feature(f) => return f in At(tree, item).features;
      case Nth(a, b) => found := NthChild(item, a, b, doneName);
      case _ => found := ChildEnds(tree, item, s);
    }

    /** A fresh name, as the preparation of a child test takes one. */
    method NewName() returns (name: int)
      requires Valid()
      modifies this`done
      ensures Valid() && name == old(done) && done == name + 1 && Indexed(name)
    {
      name := done;
      done := done + 1;
    }

    /** `Sizzle.filter` in copying mode.  Which selector is peeled off next is left open. */
    method Filter(simples: seq<Simple>, items: seq<Path>) returns (curLoop: seq<Path>)
      requires Valid() && forall i :: 0 <= i < |items| ==> items[i] in nodes
      modifies this`done, nodes.Values
      ensures Valid() && OnlyFreshMarks()
      ensures AllInTree(tree, items) && curLoop == Selected(tree, simples, items)
    {
      hide Passes, InTree, PassesAll;
      assert AllInTree(tree, items);
      curLoop := items;
      var expr := simples;
      while expr != [] && items != []
        invariant Valid() && OnlyFreshMarks()
        invariant forall i :: 0 <= i < |curLoop| ==> curLoop[i] in nodes
        invariant AllInTree(tree, curLoop) && Selected(tree, expr, curLoop) == Selected(tree, simples, items)
        invariant items == [] ==> curLoop == []
        decreases |expr|
      {
        var k :| 0 <= k < |expr|;
        SelectedSplit(tree, expr, k, curLoop);
        var result := FilterOnce(expr[k], curLoop);
        expr := Drop(expr, k);
        curLoop := result;
        if |result| == 0 { return []; }
      }
      if expr == [] { SelectedByNone(tree, curLoop); }
    }

    lemma AllKnown(items: seq<Path>)
      requires Valid() && forall i :: 0 <= i < |items| ==> items[i] in nodes
      ensures AllInTree(tree, items)
    {
    }

    /** One pass of the copying filter. */
    method FilterOnce(s: Simple, items: seq<Path>) returns (result: seq<Path>)
      requires Valid() && forall i :: 0 <= i < |items| ==> items[i] in nodes
      modifies this`done, nodes.Values
      ensures Valid() && OnlyFreshMarks()
      ensures forall i :: 0 <= i < |result| ==> result[i] in nodes
      ensures AllInTree(tree, items) && result == Selected(tree, [s], items)
    {
      hide Passes, InTree, PassesAll, Indexed, Selected, Valid;
      AllKnown(items);
      var doneName := NewName();
      result := [];
      assert items[..0] == [];
      SelectedOfNone(tree, [s]);
      for i := 0 to |items|
        invariant Valid() && Indexed(doneName) && doneName < done && OnlyFreshMarks()
        invariant forall k :: 0 <= k < |result| ==> result[k] in nodes
        invariant AllInTree(tree, items[..i]) && result == Selected(tree, [s], items[..i])
      {
        assert InTree(tree, items[i]);
        var found := Check(s, items[i], doneName);
        if found { result := result + [items[i]]; }
        SelectedNext(tree, s, items, i);
      }
      assert items[..|items|] == items;
    }

    // ---- in place ----

    /** Every slot holds a node of this page, or a null or false. */
    ghost predicate SlotsKnown(slots: seq<Slot>) {
      forall i :: 0 <= i < |slots| ==> slots[i] != True && (slots[i].El? ==> slots[i].p in nodes && InTree(tree, slots[i].p))
    }

    /** `Sizzle.filter` in place: the loop ends at the first null, and nodes that fail become false. */
    method FilterInPlace(simples: seq<Simple>, checkSet: array<Slot>)
      requires Valid() && SlotsKnown(checkSet[..])
      modifies this`done, nodes.Values, checkSet
      ensures Valid() && OnlyFreshMarks()
      ensures checkSet[..] == FilteredSlots(tree, simples, old(checkSet[..]))
    {
      hide Passes, InTree, PassesAll, FirstNull, Filtered;
      var expr := simples;
      ghost var before := checkSet[..];
      while expr != []
        invariant Valid() && OnlyFreshMarks() && SlotsKnown(checkSet[..])
        invariant FilteredSlots(tree, expr, checkSet[..]) == FilteredSlots(tree, simples, before)
        decreases |expr|
      {
        var k :| 0 <= k < |expr|;
        ghost var stage := checkSet[..];
        var found, anyFound := FilterInPlaceOnce(expr[k], checkSet);
        FilteredInTwo(tree, expr, k, stage);
        if !found {
          NothingLive(tree, expr, stage);
          NothingLive(tree, [expr[k]], stage);
          return;  // no live slot was left, so the expression is not shortened either
        }
        expr := Drop(expr, k);
        if !anyFound {
          NothingLive(tree, expr, checkSet[..]);
          return;
        }
      }
      FilteredByNone(tree, checkSet[..]);
    }

    /** The in-place test of one slot. */
    method FilterSlot(s: Simple, checkSet: array<Slot>, i: nat, doneName: int) returns (pass: bool)
      requires Valid() && doneName < done && Indexed(doneName)
      requires i < checkSet.Length && checkSet[i].El? && checkSet[i].p in nodes && InTree(tree, checkSet[i].p)
      modifies nodes.Values, checkSet
      ensures Valid() && Indexed(doneName)
      ensures forall p :: p in nodes ==>
                && nodes[p].sizset == old(nodes[p].sizset)
                && (nodes[p].sizcache == old(nodes[p].sizcache) || nodes[p].sizcache == doneName)
      ensures forall j :: 0 <= j < checkSet.Length && j != i ==> checkSet[j] == old(checkSet[j])
      ensures checkSet[i] == Filtered(tree, [s], old(checkSet[i])) && (pass <==> checkSet[i].El?)
    {
      hide Passes, Indexed;
      PassesOne(tree, s, checkSet[i].p);
      pass := Check(s, checkSet[i].p, doneName);
      if !pass { checkSet[i] := False; }
    }

    /** One pass of the in-place filter: whether it tested anything, and whether anything passed. */
    method FilterInPlaceOnce(s: Simple, checkSet: array<Slot>) returns (found: bool, anyFound: bool)
      requires Valid() && SlotsKnown(checkSet[..])
      modifies this`done, nodes.Values, checkSet
      ensures Valid() && OnlyFreshMarks() && SlotsKnown(checkSet[..])
      ensures checkSet[..] == FilteredSlots(tree, [s], old(checkSet[..]))
      ensures !found ==> Dead(old(checkSet[..]))
      ensures found && !anyFound ==> Dead(checkSet[..])
    {
      hide Passes, InTree, PassesAll, FirstNull, Indexed, Filtered, Valid;
      var doneName := NewName();
      ghost var before := checkSet[..];
      found, anyFound := false, false;
      FilteredKinds(tree, [s]);
      var i := 0;
      while i < checkSet.Length && checkSet[i] != Null
        invariant 0 <= i <= FirstNull(before)
        invariant Valid() && Indexed(doneName) && doneName < done && OnlyFreshMarks()
        invariant forall j :: 0 <= j < checkSet.Length ==>
                    checkSet[j] == if j < i then Filtered(tree, [s], before[j]) else before[j]
        invariant !found ==> forall j :: 0 <= j < i ==> !before[j].El?
        invariant !anyFound ==> forall j :: 0 <= j < i ==> !checkSet[j].El?
        decreases checkSet.Length - i
      {
        if checkSet[i].El? {
          found := true;
          var pass := FilterSlot(s, checkSet, i, doneName);
          anyFound := anyFound || pass;
        }
        i := i + 1;
      }
      assert i == FirstNull(before);
      FirstNullKept(tree, [s], before);
    }
  }

  datatype Way = Backward | Forward

  // ---- slots ----

  function FirstNull(slots: seq<Slot>): (n: nat)
    ensures n <= |slots|
    ensures forall i :: 0 <= i < n ==> slots[i] != Null
    ensures n < |slots| ==> slots[n] == Null
  {
    if slots == [] || slots[0] == Null then 0 else 1 + FirstNull(slots[1..])
  }

  lemma {:induction false} FirstNullByPlace(a: seq<Slot>, b: seq<Slot>)
    requires |a| == |b| && forall i :: 0 <= i < |a| ==> (a[i] == Null <==> b[i] == Null)
    ensures FirstNull(a) == FirstNull(b)
  {
    if a != [] && a[0] != Null { FirstNullByPlace(a[1..], b[1..]); }
  }

  /** What in-place filtering leaves of a slot. */
  function Filtered(t: Tree, simples: seq<Simple>, slot: Slot): Slot {
    if slot.El? && InTree(t, slot.p) && !PassesAll(t, simples, slot.p) then False else slot
  }

  lemma FilteredKinds(t: Tree, simples: seq<Simple>)
    ensures forall slot :: Filtered(t, simples, slot) == slot || (slot.El? && Filtered(t, simples, slot) == False)
  {
  }

  /** ... and of the whole array: slots from the first null on are not looked at. */
  function FilteredSlots(t: Tree, simples: seq<Simple>, slots: seq<Slot>): (r: seq<Slot>)
    ensures |r| == |slots|
    ensures forall i :: 0 <= i < |r| ==>
              r[i] == if i < FirstNull(slots) then Filtered(t, simples, slots[i]) else slots[i]
  {
    seq(|slots|, i requires 0 <= i < |slots| =>
      if i < FirstNull(slots) then Filtered(t, simples, slots[i]) else slots[i])
  }

  /** No node in front of the first null. */
  ghost predicate Dead(slots: seq<Slot>) {
    forall i :: 0 <= i < FirstNull(slots) ==> !slots[i].El?
  }

  lemma FirstNullKept(t: Tree, simples: seq<Simple>, slots: seq<Slot>)
    ensures FirstNull(FilteredSlots(t, simples, slots)) == FirstNull(slots)
  {
    hide FirstNull, PassesAll, InTree;
    FirstNullByPlace(FilteredSlots(t, simples, slots), slots);
  }

  lemma FilteredInTwo(t: Tree, simples: seq<Simple>, k: nat, slots: seq<Slot>)
    requires k < |simples|
    ensures FilteredSlots(t, Drop(simples, k), FilteredSlots(t, [simples[k]], slots)) == FilteredSlots(t, simples, slots)
  {
    hide FirstNull, PassesAll, InTree, Drop;
    FirstNullKept(t, [simples[k]], slots);
    forall i | 0 <= i < |slots| && slots[i].El? && InTree(t, slots[i].p)
      ensures PassesAll(t, simples, slots[i].p)
              <==> PassesAll(t, [simples[k]], slots[i].p) && PassesAll(t, Drop(simples, k), slots[i].p)
    {
      PassesSplit(t, simples, k, slots[i].p);
      PassesOne(t, simples[k], slots[i].p);
    }
  }

  lemma NothingLive(t: Tree, simples: seq<Simple>, slots: seq<Slot>)
    requires Dead(slots)
    ensures FilteredSlots(t, simples, slots) == slots
  {
  }

  lemma FilteredByNone(t: Tree, slots: seq<Slot>)
    ensures FilteredSlots(t, [], slots) == slots
  {
  }

  /** The two modes agree: in place, on an array without nulls, exactly the nodes that the copying
      mode would return keep their slots, in order. */
  lemma {:induction false} ModesAgree(t: Tree, simples: seq<Simple>, items: seq<Path>, slots: seq<Slot>)
    requires AllInTree(t, items) && |slots| == |items| && forall i :: 0 <= i < |items| ==> slots[i] == El(items[i])
    ensures Selected(t, simples, items) == Live(FilteredSlots(t, simples, slots))
    decreases |items|
  {
    hide PassesAll, InTree;
    if items != [] {
      var n := |items| - 1;
      var out := FilteredSlots(t, simples, slots);
      ModesAgree(t, simples, items[..n], slots[..n]);
      AllLive(slots);
      AllLive(slots[..n]);
      assert out[..n] == FilteredSlots(t, simples, slots[..n]);
      assert InTree(t, items[n]);
    }
  }

  lemma {:induction false} AllLive(slots: seq<Slot>)
    requires forall i :: 0 <= i < |slots| ==> slots[i] != Null
    ensures FirstNull(slots) == |slots|
  {
    if slots != [] { AllLive(slots[1..]); }
  }

  /** The nodes in the slots, in order. */
  function Live(slots: seq<Slot>): seq<Path> {
    if slots == [] then []
    else Live(slots[..|slots| - 1]) + if slots[|slots| - 1].El? then [slots[|slots| - 1].p] else []
  }

  // ---- element siblings on one side ----

  /** The tests that look for element siblings; the three cases share their loops as in the
      source's `switch`. */
  method ChildEnds(t: Tree, elem: Path, s: Simple) returns (r: bool)
    requires InTree(t, elem) && (s.FirstChild? || s.LastChild? || s.OnlyChild?)
    ensures r == Passes(t, s, elem)
  {
    if s.OnlyChild? || s.FirstChild? {
      var before := SeesElement(t, elem, Backward);
      if before { return false; }
      if s.FirstChild? { return true; }
    }
    var after := SeesElement(t, elem, Forward);
    return !after;
  }

  function Neighbour(t: Tree, p: Path, way: Way): Option<Path>
    requires InTree(t, p)
  {
    if way.Backward? then PreviousSibling(p) else NextSibling(t, p)
  }

  /** `node` is child number `c` of the parent whose children are `kids`; off either end it is missing. */
  ghost predicate IsChild(t: Tree, node: Option<Path>, kids: seq<Tree>, c: int) {
    if node.None? then c == -1 || c == |kids|
    else node.value != [] && InTree(t, node.value) && Siblings(t, node.value) == kids && Last(node.value) == c < |kids|
         && At(t, node.value) == kids[c]
  }

  lemma NeighbourIs(t: Tree, p: Path, way: Way)
    requires p != [] && InTree(t, p)
    ensures IsChild(t, Some(p), Siblings(t, p), Last(p))
    ensures IsChild(t, Neighbour(t, p, way), Siblings(t, p), if way.Backward? then Last(p) - 1 else Last(p) + 1)
  {
    LastInTree(t, p);
    var c: int := if way.Backward? then Last(p) - 1 else Last(p) + 1;
    if 0 <= c < |Siblings(t, p)| { SiblingInTree(t, p, c); }
  }

  /** The sibling loop in one direction. */
  method SeesElement(t: Tree, elem: Path, way: Way) returns (r: bool)
    requires InTree(t, elem)
    ensures r == if way.Backward? then !IsFirst(t, elem) else !IsLast(t, elem)
  {
    if elem == [] { return false; }
    var node := Neighbour(t, elem, way);
    NeighbourIs(t, elem, way);
    ghost var kids, a := Siblings(t, elem), Last(elem);
    BetweenStarts(kids, a);
    hide CountElements, InTree, At, Siblings, NothingBetween, Neighbour;
    ghost var c: int := a;
    c := if way.Backward? then c - 1 else c + 1;
    while node.Some?
      invariant -1 <= c <= |kids| && c != a && (c < a <==> way.Backward?)
      invariant IsChild(t, node, kids, c) && NothingBetween(kids, a, c)
      decreases if way.Backward? then c else |kids| - c
    {
      if IsElement(t, node.value) {
        FoundBetween(kids, a, c);
        return true;
      }
      NothingMore(kids, a, c);
      NeighbourIs(t, node.value, way);
      node := Neighbour(t, node.value, way);
      c := if way.Backward? then c - 1 else c + 1;
    }
    BetweenEnds(kids, a, c);
    return false;
  }

  /** No element strictly between positions `a` and `c`, on whichever side. */
  ghost predicate NothingBetween(kids: seq<Tree>, a: nat, c: int)
    requires a < |kids| && -1 <= c <= |kids| && c != a
  {
    if c < a then CountElements(kids[c + 1..a]) == 0 else CountElements(kids[a + 1..c]) == 0
  }

  lemma BetweenStarts(kids: seq<Tree>, a: nat)
    requires a < |kids|
    ensures NothingBetween(kids, a, a - 1) && NothingBetween(kids, a, a + 1)
  {
    assert kids[a..a] == [] && kids[a + 1..a + 1] == [];
  }

  lemma BetweenEnds(kids: seq<Tree>, a: nat, c: int)
    requires a < |kids| && (c == -1 || c == |kids|) && NothingBetween(kids, a, c)
    ensures c == -1 ==> CountElements(kids[..a]) == 0
    ensures c == |kids| ==> CountElements(kids[a + 1..]) == 0
  {
    assert kids[0..a] == kids[..a] && kids[a + 1..|kids|] == kids[a + 1..];
  }

  lemma {:induction false} CountConcat(a: seq<Tree>, b: seq<Tree>)
    ensures CountElements(a + b) == CountElements(a) + CountElements(b)
    decreases |b|
  {
    if b == [] {
      assert a + b == a;
    } else {
      CountConcat(a, b[..|b| - 1]);
      assert (a + b)[..|a + b| - 1] == a + b[..|b| - 1];
    }
  }

  lemma CountOne(k: Tree)
    ensures CountElements([k]) == if k.kind == ELEMENT then 1 else 0
  {
    assert [k][..0] == [];
  }

  lemma NothingMore(kids: seq<Tree>, a: nat, c: int)
    requires a < |kids| && 0 <= c < |kids| && c != a && NothingBetween(kids, a, c) && kids[c].kind != ELEMENT
    ensures NothingBetween(kids, a, if c < a then c - 1 else c + 1)
  {
    CountOne(kids[c]);
    if c < a {
      assert kids[c..a] == [kids[c]] + kids[c + 1..a];
      CountConcat([kids[c]], kids[c + 1..a]);
    } else {
      assert kids[a + 1..c + 1] == kids[a + 1..c] + [kids[c]];
      CountConcat(kids[a + 1..c], [kids[c]]);
    }
  }

  lemma FoundBetween(kids: seq<Tree>, a: nat, c: int)
    requires a < |kids| && 0 <= c < |kids| && c != a && kids[c].kind == ELEMENT
    ensures c < a ==> CountElements(kids[..a]) > 0
    ensures c > a ==> CountElements(kids[a + 1..]) > 0
  {
    CountOne(kids[c]);
    if c < a {
      assert kids[..a] == kids[..c] + ([kids[c]] + kids[c + 1..a]);
      CountConcat(kids[..c], [kids[c]] + kids[c + 1..a]);
      CountConcat([kids[c]], kids[c + 1..a]);
    } else {
      assert kids[a + 1..] == kids[a + 1..c] + ([kids[c]] + kids[c + 1..]);
      CountConcat(kids[a + 1..c], [kids[c]] + kids[c + 1..]);
      CountConcat([kids[c]], kids[c + 1..]);
    }
  }

  // ---- the child tests, on elements among the siblings ----

  lemma {:induction false} NoneCounted(kids: seq<Tree>)
    ensures CountElements(kids) == 0 <==> forall k :: 0 <= k < |kids| ==> kids[k].kind != ELEMENT
    decreases |kids|
  {
    if kids != [] {
      NoneCounted(kids[..|kids| - 1]);
      assert forall k :: 0 <= k < |kids| - 1 ==> kids[..|kids| - 1][k] == kids[k];
    }
  }

  /** Two different nodes with the same parent. */
  predicate AreSiblings(p: Path, q: Path) {
    p != [] && q != [] && Front(p) == Front(q) && p != q
  }

  lemma SiblingIs(t: Tree, p: Path, q: Path)
    requires InTree(t, p) && InTree(t, q) && AreSiblings(p, q)
    ensures Last(q) < |Siblings(t, p)| && Last(q) != Last(p) && (IsElement(t, q) <==> Siblings(t, p)[Last(q)].kind == ELEMENT)
  {
    LastInTree(t, q);
    assert p == Front(p) + [Last(p)] && q == Front(q) + [Last(q)];
  }

  lemma SiblingAt(t: Tree, p: Path, k: nat) returns (q: Path)
    requires p != [] && InTree(t, p) && k < |Siblings(t, p)| && k != Last(p)
    ensures InTree(t, q) && AreSiblings(p, q) && Last(q) == k && (IsElement(t, q) <==> Siblings(t, p)[k].kind == ELEMENT)
  {
    q := Front(p) + [k];
    SiblingInTree(t, p, k);
    assert Front(q) == Front(p) && Last(q) == k;
  }

  lemma FirstExactly(t: Tree, p: Path)
    requires InTree(t, p)
    ensures IsFirst(t, p) <==> forall q :: InTree(t, q) && AreSiblings(p, q) && Last(q) < Last(p) ==> !IsElement(t, q)
  {
    hide InTree, At;
    if p != [] {
      LastInTree(t, p);
      var kids := Siblings(t, p)[..Last(p)];
      NoneCounted(kids);
      if IsFirst(t, p) {
        forall q | InTree(t, q) && AreSiblings(p, q) && Last(q) < Last(p) ensures !IsElement(t, q) {
          SiblingIs(t, p, q);
          assert kids[Last(q)] == Siblings(t, p)[Last(q)];
        }
      } else {
        var k :| 0 <= k < |kids| && kids[k].kind == ELEMENT;
        var q := SiblingAt(t, p, k);
      }
    }
  }

  lemma LastExactly(t: Tree, p: Path)
    requires InTree(t, p)
    ensures IsLast(t, p) <==> forall q :: InTree(t, q) && AreSiblings(p, q) && Last(q) > Last(p) ==> !IsElement(t, q)
  {
    hide InTree, At;
    if p != [] {
      LastInTree(t, p);
      var kids := Siblings(t, p)[Last(p) + 1..];
      NoneCounted(kids);
      if IsLast(t, p) {
        forall q | InTree(t, q) && AreSiblings(p, q) && Last(q) > Last(p) ensures !IsElement(t, q) {
          SiblingIs(t, p, q);
          assert kids[Last(q) - Last(p) - 1] == Siblings(t, p)[Last(q)];
        }
      } else {
        var k :| 0 <= k < |kids| && kids[k].kind == ELEMENT;
        var q := SiblingAt(t, p, Last(p) + 1 + k);
      }
    }
  }

  lemma OtherPlace(p: Path, q: Path)
    requires AreSiblings(p, q)
    ensures Last(q) < Last(p) || Last(q) > Last(p)
  {
    assert p == Front(p) + [Last(p)] && q == Front(q) + [Last(q)];
  }

  lemma TestsAre(t: Tree, p: Path)
    requires InTree(t, p)
    ensures Passes(t, FirstChild, p) == IsFirst(t, p) && Passes(t, LastChild, p) == IsLast(t, p)
    ensures Passes(t, OnlyChild, p) == (IsFirst(t, p) && IsLast(t, p))
  {
    hide IsFirst, IsLast;
  }

  /** What the three tests mean: no element sibling before the node, after it, or at all. */
  lemma ChildTestsExactly(t: Tree, p: Path)
    requires InTree(t, p)
    ensures Passes(t, FirstChild, p)
            <==> forall q :: InTree(t, q) && AreSiblings(p, q) && Last(q) < Last(p) ==> !IsElement(t, q)
    ensures Passes(t, LastChild, p)
            <==> forall q :: InTree(t, q) && AreSiblings(p, q) && Last(q) > Last(p) ==> !IsElement(t, q)
    ensures Passes(t, OnlyChild, p)
            <==> forall q :: InTree(t, q) && AreSiblings(p, q) ==> !IsElement(t, q)
  {
    hide InTree, IsElement, IsFirst, IsLast, Passes;
    TestsAre(t, p);
    FirstExactly(t, p);
    LastExactly(t, p);
    forall q | AreSiblings(p, q) ensures Last(q) < Last(p) || Last(q) > Last(p) { OtherPlace(p, q); }
    hide AreSiblings, Front, Last;
  }

  predicate IsElementAt(kids: seq<Tree>, k: int) {
    0 <= k < |kids| && kids[k].kind == ELEMENT
  }

  /** The index of an element: the number of elements among its siblings up to itself. */
  lemma {:induction false} IndexCounts(kids: seq<Tree>)
    ensures CountElements(kids) == |set k | 0 <= k < |kids| && IsElementAt(kids, k)|
    decreases |kids|
  {
    var b := set k | 0 <= k < |kids| && IsElementAt(kids, k);
    if kids == [] {
      assert b == {};
    } else {
      var front, n := kids[..|kids| - 1], |kids| - 1;
      IndexCounts(front);
      var a := set k | 0 <= k < n && IsElementAt(front, k);
      assert forall k :: 0 <= k < n ==> (IsElementAt(front, k) <==> IsElementAt(kids, k));
      hide IsElementAt;
      assert b == a + if IsElementAt(kids, n) then {n} else {};
      assert IsElementAt(kids, n) <==> kids[n].kind == ELEMENT by { LastIs(kids); }
    }
  }

  lemma LastIs(kids: seq<Tree>)
    requires kids != []
    ensures IsElementAt(kids, |kids| - 1) <==> kids[|kids| - 1].kind == ELEMENT
  {
  }

  lemma ElementIndexCounts(t: Tree, p: Path)
    requires p != [] && InTree(t, p)
    ensures ElementIndex(t, p) == |set k | 0 <= k <= Last(p) && IsElementAt(Siblings(t, p), k)|
  {
    hide InTree, At, CountElements;
    LastInTree(t, p);
    var kids := Siblings(t, p)[..Last(p) + 1];
    IndexCounts(kids);
    assert forall k :: 0 <= k <= Last(p) ==> (IsElementAt(kids, k) <==> IsElementAt(Siblings(t, p), k));
    hide IsElementAt;
    assert (set k | 0 <= k < |kids| && IsElementAt(kids, k)) == (set k | 0 <= k <= Last(p) && IsElementAt(Siblings(t, p), k));
  }

  /** What the nth test means for an element with a parent: its index is a*n+b for some n >= 0. */
  lemma NthChildExactly(t: Tree, p: Path, a: int, b: int)
    requires p != [] && InTree(t, p) && IsElement(t, p)
    ensures Passes(t, Nth(a, b), p) <==> exists n: nat :: a * n + b == ElementIndex(t, p)
  {
    var index := ElementIndex(t, p);
    NthTestExact(a, b, index);
    hide InTree, At, ElementIndex, NthTest;
    if a == 1 && b == 0 {
      var n: nat := index;
      assert a * n + b == index;
    }
    assert IsNth(a, b, index) <==> exists n: nat :: a * n + b == index;
  }

  /** A node passes one tag test only, that of its own name, and the tests of its own features. */
  lemma OwnNameAndFeatures(t: Tree, p: Path, name: string)
    requires InTree(t, p)
    ensures Passes(t, Tag(name), p) <==> name == At(t, p).name
    ensures (set f | f in At(t, p).features + {name} && Passes(t, Feature(f), p)) == At(t, p).features
    ensures Passes(t, Any, p) <==> At(t, p).kind == ELEMENT
  {
    hide InTree, At;
  }
}
