/** The memoised walks `dirNodeCheck` and `dirCheck`: every slot's node is replaced by the nearest
    matching ancestor or earlier sibling, and nodes on the way are marked so that later walks
    can stop at them. */
module Walking {
  import opened Wrappers
  import opened Dom
  import opened Filtering

  /** What one position of a selector asks for: a plain tag word, another compound selector, or
      the context node itself. */
  datatype Part = TagPart(name: string) | Compound(simples: seq<Simple>) | Context(c: Path)

  /** The test that the walks apply.  A tag word is compared without looking at the node type. */
  predicate Accepts(t: Tree, part: Part, p: Path)
    requires InTree(t, p)
  {
    match part
    case TagPart(name) => At(t, p).name == name
    case Compound(simples) => IsElement(t, p) && PassesAll(t, simples, p)
    case Context(c) => IsElement(t, p) && p == c
  }

  /** What is stored for a node that is found. */
  function Found(part: Part, p: Path): Slot {
    if part.Context? then True else El(p)
  }

  /** The plain search, starting with the node itself. */
  function NearestFrom(t: Tree, dir: Direction, part: Part, p: Path): (s: Slot)
    requires InTree(t, p)
    ensures s != Null
    decreases Distance(dir, p)
  {
    if Accepts(t, part, p) then Found(part, p) else Nearest(t, dir, part, p)
  }

  /** The plain search for the nearest strict ancestor or earlier sibling. */
  function Nearest(t: Tree, dir: Direction, part: Part, p: Path): (s: Slot)
    requires InTree(t, p)
    ensures s != Null
    decreases Distance(dir, p), 0
  {
    if Step(dir, p).None? then False
    else
      StepInTree(t, dir, p);
      NearestFrom(t, dir, part, Step(dir, p).value)
  }

  /** The arguments of one walk over the array.  `doneName` is the name it marks nodes with. */
  datatype Walk = Walk(page: Page, dir: Direction, part: Part, doneName: int, isXML: bool) {

    ghost predicate Ready()
      reads page, page.nodes.Values
    {
      page.Valid() && doneName < page.done
    }

    /** A node marked by this walk leads to its slot, and the slot holds what a plain search from
        the node would find. */
    ghost predicate MarkRight(q: Path, slots: seq<Slot>, n: nat)
      requires q in page.nodes && InTree(page.tree, q)
      reads page.nodes.Values
    {
      page.nodes[q].sizcache == doneName ==>
        && page.nodes[q].sizset < n <= |slots|
        && slots[page.nodes[q].sizset] == NearestFrom(page.tree, dir, part, q)
    }

    ghost predicate MarksRight(slots: seq<Slot>, n: nat)
      reads page.nodes.Values
    {
      forall q :: q in page.nodes && InTree(page.tree, q) ==> MarkRight(q, slots, n)
    }

    /** A node that the walk for slot `i` has passed: it leads to `target` and lies behind. */
    ghost predicate Passed(q: Path, i: nat, target: Slot, left: nat)
      requires q in page.nodes && InTree(page.tree, q)
      reads page.nodes.Values
    {
      && page.nodes[q].sizcache == doneName && page.nodes[q].sizset == i
      && Distance(dir, q) >= left
      && NearestFrom(page.tree, dir, part, q) == target
    }

    /** The marks while slot `i` is being filled. */
    ghost predicate MarksPassing(slots: seq<Slot>, i: nat, target: Slot, left: nat)
      reads page.nodes.Values
    {
      forall q :: q in page.nodes && InTree(page.tree, q) ==>
        MarkRight(q, slots, i) || Passed(q, i, target, left)
    }

    /** Marks changed since the old state carry other names than this walk's. */
    twostate predicate OwnMarksKept()
      reads page.nodes.Values
    {
      forall q :: q in page.nodes && page.nodes[q].sizcache == doneName ==>
        old(page.nodes[q].sizcache) == doneName && page.nodes[q].sizset == old(page.nodes[q].sizset)
    }

    lemma MarksFinish(slots: seq<Slot>, i: nat, target: Slot, left: nat)
      requires i < |slots| && MarksPassing(slots, i, target, left)
      ensures MarksRight(slots[i := target], i + 1)
    {
      hide Distance, InTree;
      forall q | q in page.nodes && InTree(page.tree, q) ensures MarkRight(q, slots[i := target], i + 1) {
        assert MarkRight(q, slots, i) || Passed(q, i, target, left);
      }
    }

    /** Marking the node the walk stands on. */
    method Mark(elem: Path, ghost slots: seq<Slot>, i: nat, ghost target: Slot)
      requires Ready() && elem in page.nodes && InTree(page.tree, elem)
      requires NearestFrom(page.tree, dir, part, elem) == target
      requires MarksPassing(slots, i, target, Distance(dir, elem) + 1)
      modifies page.nodes[elem]
      ensures Ready() && MarksPassing(slots, i, target, Distance(dir, elem))
    {
      if IsElement(page.tree, elem) && !isXML {
        page.nodes[elem].sizcache := doneName;
        page.nodes[elem].sizset := i;
      }
      hide Distance, InTree, IsElement;
      forall q | q in page.nodes && InTree(page.tree, q)
        ensures MarkRight(q, slots, i) || Passed(q, i, target, Distance(dir, elem))
      {
        assert old(MarkRight(q, slots, i)) || old(Passed(q, i, target, Distance(dir, elem) + 1));
      }
    }

    /** The test of a node on the way. */
    method Test(elem: Path) returns (hit: bool)
      requires Ready() && elem in page.nodes && InTree(page.tree, elem)
      modifies page`done, page.nodes.Values
      ensures Ready() && OwnMarksKept() && hit == Accepts(page.tree, part, elem)
    {
      match part
      case TagPart(name) => return At(page.tree, elem).name == name;
      case Context(c) => return IsElement(page.tree, elem) && elem == c;
      case Compound(simples) =>
        if !IsElement(page.tree, elem) { return false; }
        hide PassesAll, InTree, At;
        var kept := page.Filter(simples, [elem]);
        SelectOne(page.tree, simples, elem);
        return |kept| > 0;
    }

    /** The test leaves the marks of this walk as they are. */
    method TestPassing(elem: Path, ghost slots: seq<Slot>, ghost i: nat, ghost target: Slot, ghost left: nat) returns (hit: bool)
      requires Ready() && elem in page.nodes && InTree(page.tree, elem)
      requires MarksPassing(slots, i, target, left)
      modifies page`done, page.nodes.Values
      ensures Ready() && MarksPassing(slots, i, target, left) && hit == Accepts(page.tree, part, elem)
    {
      hide Distance, InTree, Accepts;
      hit := Test(elem);
      forall q | q in page.nodes && InTree(page.tree, q)
        ensures MarkRight(q, slots, i) || Passed(q, i, target, left)
      {
        assert old(MarkRight(q, slots, i)) || old(Passed(q, i, target, left));
      }
    }

    /** One round of the inner loop, at node `p`: whether the walk ends here, and with what. */
    method Visit(checkSet: array<Slot>, i: nat, p: Path, ghost target: Slot) returns (ended: bool, found: Slot)
      requires Ready() && i < checkSet.Length && p in page.nodes && InTree(page.tree, p)
      requires NearestFrom(page.tree, dir, part, p) == target
      requires MarksPassing(checkSet[..], i, target, Distance(dir, p) + 1)
      modifies page`done, page.nodes.Values
      ensures Ready() && MarksPassing(checkSet[..], i, target, Distance(dir, p))
      ensures if ended then found == target else target == Nearest(page.tree, dir, part, p)
    {
      hide Nearest, Distance, InTree, Accepts;
      ghost var slots := checkSet[..];
      if page.nodes[p].sizcache == doneName {
        assert MarkRight(p, slots, i);
        PassingNearer(slots, i, target, Distance(dir, p) + 1, Distance(dir, p));
        return true, checkSet[page.nodes[p].sizset];
      }
      Mark(p, slots, i, target);
      var hit := TestPassing(p, slots, i, target, Distance(dir, p));
      return hit, Found(part, p);
    }

    /** The body of the outer loop for one slot. */
    method One(checkSet: array<Slot>, i: nat, start: Path) returns (found: Slot)
      requires Ready() && i < checkSet.Length && start in page.nodes && InTree(page.tree, start)
      requires MarksRight(checkSet[..], i)
      modifies page`done, page.nodes.Values
      ensures Ready() && found == Nearest(page.tree, dir, part, start)
      ensures MarksRight(checkSet[..][i := found], i + 1)
    {
      hide NearestFrom, Distance, InTree, MarksPassing, MarksRight;
      ghost var target := Nearest(page.tree, dir, part, start);
      ghost var slots := checkSet[..];
      ghost var left: int := 0;
      found := False;
      var elem := Step(dir, start);
      if elem.Some? {
        StepInTree(page.tree, dir, start);
        left := Distance(dir, elem.value) + 1;
      }
      PassingStarts(slots, i, target, left);
      while elem.Some?
        invariant Ready() && checkSet[..] == slots && found == False && left >= 0
        invariant elem.Some? ==> elem.value in page.nodes && InTree(page.tree, elem.value)
                                 && NearestFrom(page.tree, dir, part, elem.value) == target
                                 && left == Distance(dir, elem.value) + 1
        invariant elem.None? ==> target == False
        invariant MarksPassing(slots, i, target, left)
        decreases if elem.Some? then left else 0
      {
        var p := elem.value;
        var ended, answer := Visit(checkSet, i, p, target);
        left := left - 1;
        if ended {
          MarksFinish(slots, i, target, left);
          return answer;
        }
        elem := Step(dir, p);
        if elem.Some? {
          StepInTree(page.tree, dir, p);
          PassingNearer(slots, i, target, left, Distance(dir, elem.value) + 1);
          left := Distance(dir, elem.value) + 1;
        }
      }
      MarksFinish(slots, i, target, left);
    }

    lemma PassingStarts(slots: seq<Slot>, i: nat, target: Slot, left: nat)
      requires MarksRight(slots, i)
      ensures MarksPassing(slots, i, target, left)
    {
      hide Distance, InTree, MarkRight, Passed;
    }

    lemma PassingNearer(slots: seq<Slot>, i: nat, target: Slot, left: nat, left': nat)
      requires MarksPassing(slots, i, target, left) && left' <= left
      ensures MarksPassing(slots, i, target, left')
    {
      hide Distance, InTree;
      forall q | q in page.nodes && InTree(page.tree, q)
        ensures MarkRight(q, slots, i) || Passed(q, i, target, left')
      {
        assert MarkRight(q, slots, i) || Passed(q, i, target, left);
      }
    }

    /** The whole walk: `dirNodeCheck` for a tag word and `dirCheck` otherwise.  Every node in the
        array becomes its nearest match, exactly as a plain search without marks would find it. */
    method Run(checkSet: array<Slot>)
      requires Ready() && page.SlotsKnown(checkSet[..])
      requires forall q :: q in page.nodes ==> page.nodes[q].sizcache != doneName
      modifies page`done, page.nodes.Values, checkSet
      ensures Ready()
      ensures forall i :: 0 <= i < checkSet.Length ==> checkSet[i] == Walked(page.tree, dir, part, old(checkSet[i]))
    {
      hide InTree, Nearest, NearestFrom;
      var i := 0;
      ghost var before := checkSet[..];
      while i < checkSet.Length
        invariant 0 <= i <= checkSet.Length
        invariant Ready() && MarksRight(checkSet[..], i)
        invariant forall j :: 0 <= j < checkSet.Length ==>
                    checkSet[j] == if j < i then Walked(page.tree, dir, part, before[j]) else before[j]
      {
        if checkSet[i].El? {
          var start := checkSet[i].p;
          var found := One(checkSet, i, start);
          ghost var slots := checkSet[..];
          checkSet[i] := found;
          assert checkSet[..] == slots[i := found];
        } else {
          SkipSlot(checkSet[..], i);
        }
        i := i + 1;
      }
    }

    lemma SkipSlot(slots: seq<Slot>, i: nat)
      requires i < |slots| && MarksRight(slots, i)
      ensures MarksRight(slots, i + 1)
    {
      hide InTree;
      forall q | q in page.nodes && InTree(page.tree, q) ensures MarkRight(q, slots, i + 1) {
        assert MarkRight(q, slots, i);
      }
    }
  }

  lemma SelectOne(t: Tree, simples: seq<Simple>, p: Path)
    requires InTree(t, p)
    ensures AllInTree(t, [p]) && (|Selected(t, simples, [p])| > 0 <==> PassesAll(t, simples, p))
  {
    hide PassesAll, InTree;
    assert [p][..0] == [];
  }

  /** What the walk makes of a slot. */
  function Walked(t: Tree, dir: Direction, part: Part, slot: Slot): Slot {
    if slot.El? && InTree(t, slot.p) then Nearest(t, dir, part, slot.p) else slot
  }
}
