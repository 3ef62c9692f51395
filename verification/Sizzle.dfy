/** The selector engine's main loop: parts are taken from the right, and each rewrites in place
    the array of slots that was made from the candidates. */
module Sizzle {
  import opened Wrappers
  import opened Dom
  import opened Filtering
  import opened Walking
  import opened Selector

  // ---- what one step does to the whole array ----

  function Stepped(t: Tree, link: Link, slots: seq<Slot>): (r: seq<Slot>)
    ensures |r| == |slots| && forall i :: 0 <= i < |r| ==> r[i] == StepSlot(t, link, slots[i])
  {
    seq(|slots|, i requires 0 <= i < |slots| => StepSlot(t, link, slots[i]))
  }

  /** Equal up to and including the first null of `b`.  Behind a null the in-place filter does not
      look, and neither does the loop that collects the results. */
  ghost predicate Agrees(a: seq<Slot>, b: seq<Slot>) {
    |a| == |b| && forall i :: 0 <= i < |b| && i <= FirstNull(b) ==> a[i] == b[i]
  }

  lemma {:induction false} FirstNullEarlier(a: seq<Slot>, b: seq<Slot>)
    requires |a| == |b| && forall i :: 0 <= i < |a| && a[i] == Null ==> b[i] == Null
    ensures FirstNull(b) <= FirstNull(a)
  {
    if a != [] && b[0] != Null { FirstNullEarlier(a[1..], b[1..]); }
  }

  lemma {:induction false} FirstNullAtLeast(a: seq<Slot>, n: nat)
    requires n <= |a| && forall i :: 0 <= i < n ==> a[i] != Null
    ensures n <= FirstNull(a)
    decreases n
  {
    if n > 0 { FirstNullAtLeast(a[1..], n - 1); }
  }

  /** Agreement survives a step. */
  lemma AgreesStep(t: Tree, link: Link, a: seq<Slot>, b: seq<Slot>, a': seq<Slot>)
    requires Agrees(a, b) && Agrees(a', Stepped(t, link, a))
    ensures Agrees(a', Stepped(t, link, b))
  {
    hide StepSlot, FirstNull;
    NullStays(t, link);
    var sa, sb := Stepped(t, link, a), Stepped(t, link, b);
    FirstNullEarlier(b, sb);
    assert forall i :: 0 <= i < |b| && i <= FirstNull(sb) ==> sa[i] == sb[i];
    FirstNullAtLeast(sa, FirstNull(sb));
  }

  lemma NullStays(t: Tree, link: Link)
    ensures forall s: Slot :: !s.El? ==> StepSlot(t, link, s) == s
  {
  }

  // ---- what one step does to the array, nulls and all ----

  /** The slots after one step.  The child and next-sibling steps first go over the whole array
      and then filter it in place, up to the first null. */
  function ArrayStep(t: Tree, link: Link, slots: seq<Slot>): (r: seq<Slot>)
    ensures |r| == |slots|
  {
    match link.comb
    case Child => Judge(t, link.part, Parents(t, link.part, slots))
    case Next => Judge(t, link.part, Besides(t, link.part, slots))
    case Descendant => Stepped(t, link, slots)
    case Sibling => Stepped(t, link, slots)
  }

  function Judge(t: Tree, part: Part, slots: seq<Slot>): (r: seq<Slot>)
    ensures |r| == |slots|
  {
    if part.Compound? then FilteredSlots(t, part.simples, slots) else slots
  }

  function Parents(t: Tree, part: Part, slots: seq<Slot>): (r: seq<Slot>)
    ensures |r| == |slots| && forall i :: 0 <= i < |r| ==> r[i] == ParentSlot(t, part, slots[i])
  {
    seq(|slots|, i requires 0 <= i < |slots| => ParentSlot(t, part, slots[i]))
  }

  function Besides(t: Tree, part: Part, slots: seq<Slot>): (r: seq<Slot>)
    ensures |r| == |slots| && forall i :: 0 <= i < |r| ==> r[i] == BesideSlot(t, part, slots[i])
  {
    seq(|slots|, i requires 0 <= i < |slots| => BesideSlot(t, part, slots[i]))
  }

  /** The child step with a tag word reads the name of every node's parent. */
  predicate StepThrows(link: Link, slots: seq<Slot>) {
    link.comb.Child? && link.part.TagPart? && El([]) in slots
  }

  // ---- the four relative steps ----

  /** The child step, up to the filter: every node becomes its parent. */
  method ChildStep(page: Page, part: Part, checkSet: array<Slot>) returns (ok: bool)
    requires page.Valid() && page.SlotsKnown(checkSet[..])
    modifies page`done, page.nodes.Values, checkSet
    ensures page.Valid()
    ensures ok <==> !StepThrows(Link(Child, part), old(checkSet[..]))
    ensures ok ==> checkSet[..] == ArrayStep(page.tree, Link(Child, part), old(checkSet[..]))
    ensures ok && !part.Context? ==> page.SlotsKnown(checkSet[..])
  {
    hide InTree, PassesAll, FirstNull;
    ghost var before := checkSet[..];
    var i := 0;
    while i < checkSet.Length
      invariant 0 <= i <= checkSet.Length && page.Valid()
      invariant forall j :: 0 <= j < checkSet.Length ==>
                  checkSet[j] == if j < i then ParentSlot(page.tree, part, before[j]) else before[j]
      invariant part.TagPart? ==> forall j :: 0 <= j < i ==> before[j] != El([])
    {
      if checkSet[i].El? {
        var p := checkSet[i].p;
        if p == [] && part.TagPart? {  // reading nodeName of null
          assert before[i] == El([]);
          return false;
        }
        checkSet[i] := ParentSlot(page.tree, part, checkSet[i]);
      }
      i := i + 1;
    }
    ghost var mid := checkSet[..];
    assert mid == Parents(page.tree, part, before);
    KnownParents(page, part, before, mid);
    if part.Compound? {
      page.FilterInPlace(part.simples, checkSet);
      FilteredKnown(page, part.simples, mid);
    }
    return true;
  }

  /** A slot after the loop of the child step. */
  function ParentSlot(t: Tree, part: Part, slot: Slot): Slot {
    if !slot.El? || !InTree(t, slot.p) then slot
    else
      match ParentNode(slot.p)
      case None => if part.Context? then False else Null
      case Some(q) =>
        LastInTree(t, slot.p);
        if part.Compound? then El(q) else Judged(t, part, q)
  }

  lemma KnownParents(page: Page, part: Part, before: seq<Slot>, mid: seq<Slot>)
    requires page.Valid() && page.SlotsKnown(before) && |mid| == |before|
    requires forall j :: 0 <= j < |mid| ==> mid[j] == ParentSlot(page.tree, part, before[j])
    ensures !part.Context? ==> page.SlotsKnown(mid)
  {
    forall j | 0 <= j < |mid| && !part.Context?
      ensures mid[j] != True && (mid[j].El? ==> mid[j].p in page.nodes && InTree(page.tree, mid[j].p))
    {
      if before[j].El? && before[j].p != [] { LastInTree(page.tree, before[j].p); }
    }
  }

  lemma FilteredKnown(page: Page, simples: seq<Simple>, slots: seq<Slot>)
    requires page.SlotsKnown(slots)
    ensures page.SlotsKnown(FilteredSlots(page.tree, simples, slots))
  {
    hide InTree, PassesAll, FirstNull;
  }

  /** The next-sibling step: to the nearest earlier sibling that is an element. */
  method NextStep(page: Page, part: Part, checkSet: array<Slot>)
    requires page.Valid() && page.SlotsKnown(checkSet[..])
    modifies page`done, page.nodes.Values, checkSet
    ensures page.Valid()
    ensures checkSet[..] == ArrayStep(page.tree, Link(Next, part), old(checkSet[..]))
    ensures !part.Context? ==> page.SlotsKnown(checkSet[..])
  {
    hide InTree, PassesAll, FirstNull, IsElement;
    ghost var before := checkSet[..];
    var i := 0;
    while i < checkSet.Length
      invariant 0 <= i <= checkSet.Length && page.Valid()
      invariant forall j :: 0 <= j < checkSet.Length ==>
                  checkSet[j] == if j < i then BesideSlot(page.tree, part, before[j]) else before[j]
    {
      if checkSet[i].El? {
        var elem := WalkBack(page.tree, checkSet[i].p);
        checkSet[i] := if elem.None? then False
                       else if part.Compound? then El(elem.value) else Judged(page.tree, part, elem.value);
      }
      i := i + 1;
    }
    ghost var mid := checkSet[..];
    assert mid == Besides(page.tree, part, before);
    KnownBeside(page, part, before, mid);
    if part.Compound? {
      page.FilterInPlace(part.simples, checkSet);
      FilteredKnown(page, part.simples, mid);
    }
  }

  /** The inner loop of the next-sibling step goes back over text and comments. */
  method WalkBack(t: Tree, p: Path) returns (elem: Option<Path>)
    requires InTree(t, p)
    ensures elem == PreviousElement(t, p)
  {
    elem := PreviousSibling(p);
    if elem.Some? { StepInTree(t, Left, p); }
    while elem.Some? && !IsElement(t, elem.value)
      invariant elem.Some? ==> InTree(t, elem.value)
      invariant PreviousElement(t, p) == match elem
                                         case None => None
                                         case Some(q) => if IsElement(t, q) then Some(q) else PreviousElement(t, q)
      decreases if elem.Some? then Distance(Left, elem.value) + 1 else 0
    {
      var q := elem.value;
      elem := PreviousSibling(q);
      if elem.Some? { StepInTree(t, Left, q); }
    }
  }

  /** A slot after the loop of the next-sibling step. */
  function BesideSlot(t: Tree, part: Part, slot: Slot): Slot {
    if !slot.El? || !InTree(t, slot.p) then slot
    else
      match PreviousElement(t, slot.p)
      case None => False
      case Some(q) => if part.Compound? then El(q) else Judged(t, part, q)
  }

  lemma KnownBeside(page: Page, part: Part, before: seq<Slot>, mid: seq<Slot>)
    requires page.Valid() && page.SlotsKnown(before) && |mid| == |before|
    requires forall j :: 0 <= j < |mid| ==> mid[j] == BesideSlot(page.tree, part, before[j])
    ensures !part.Context? ==> page.SlotsKnown(mid)
  {
    hide InTree, IsElement;
  }

  /** The descendant and later-sibling steps: one memoised walk under a fresh name. */
  method WalkStep(page: Page, comb: Combinator, part: Part, checkSet: array<Slot>, isXML: bool)
    requires page.Valid() && page.SlotsKnown(checkSet[..]) && (comb == Descendant || comb == Sibling)
    modifies page`done, page.nodes.Values, checkSet
    ensures page.Valid()
    ensures checkSet[..] == ArrayStep(page.tree, Link(comb, part), old(checkSet[..]))
    ensures !part.Context? ==> page.SlotsKnown(checkSet[..])
  {
    hide InTree, Nearest;
    ghost var before := checkSet[..];
    var doneName := page.NewName();
    var walk := Walk(page, if comb == Descendant then Up else Left, part, doneName, isXML);
    walk.Run(checkSet);
    assert checkSet[..] == Stepped(page.tree, Link(comb, part), before);
    KnownWalked(page, walk.dir, part, before, checkSet[..]);
  }

  lemma KnownWalked(page: Page, dir: Direction, part: Part, before: seq<Slot>, after: seq<Slot>)
    requires page.Valid() && page.SlotsKnown(before) && |after| == |before|
    requires forall j :: 0 <= j < |after| ==> after[j] == Walked(page.tree, dir, part, before[j])
    ensures !part.Context? ==> page.SlotsKnown(after)
  {
    hide InTree, Nearest, Accepts;
    forall j | 0 <= j < |after| && !part.Context?
      ensures after[j] != True && (after[j].El? ==> after[j].p in page.nodes && InTree(page.tree, after[j].p))
    {
      if before[j].El? { var q := NearestIs(page.tree, dir, part, before[j].p); }
    }
  }

  /** The step for a combinator, as the table `Expr.relative` gives it. */
  method RelativeStep(page: Page, link: Link, checkSet: array<Slot>, isXML: bool) returns (ok: bool)
    requires page.Valid() && page.SlotsKnown(checkSet[..])
    modifies page`done, page.nodes.Values, checkSet
    ensures page.Valid()
    ensures ok <==> !StepThrows(link, old(checkSet[..]))
    ensures ok ==> checkSet[..] == ArrayStep(page.tree, link, old(checkSet[..]))
    ensures ok && !link.part.Context? ==> page.SlotsKnown(checkSet[..])
  {
    ok := true;
    match link.comb
    case Child => ok := ChildStep(page, link.part, checkSet);
    case Next => NextStep(page, link.part, checkSet);
    case Descendant => WalkStep(page, Descendant, link.part, checkSet, isXML);
    case Sibling => WalkStep(page, Sibling, link.part, checkSet, isXML);
  }

  // ---- as far as anything looks, slots are independent of each other ----

  lemma ParentsAgree(t: Tree, part: Part, before: seq<Slot>)
    ensures Agrees(Judge(t, part, Parents(t, part, before)), Stepped(t, Link(Child, part), before))
  {
    var mid, goal := Parents(t, part, before), Stepped(t, Link(Child, part), before);
    forall j | 0 <= j < |mid|
      ensures goal[j] == if part.Compound? then Filtered(t, part.simples, mid[j]) else mid[j]
    {
      ParentFiltered(t, part, before[j]);
    }
    hide InTree, PassesAll, FirstNull, StepSlot, ParentSlot;
    if part.Compound? { FirstNullByPlace(mid, goal); } else { assert mid == goal; }
  }

  lemma ParentFiltered(t: Tree, part: Part, slot: Slot)
    ensures var s := ParentSlot(t, part, slot);
            StepSlot(t, Link(Child, part), slot) == if part.Compound? then Filtered(t, part.simples, s) else s
  {
    if slot.El? && InTree(t, slot.p) && slot.p != [] { LastInTree(t, slot.p); }
    hide PassesAll;
  }

  lemma BesidesAgree(t: Tree, part: Part, before: seq<Slot>)
    ensures Agrees(Judge(t, part, Besides(t, part, before)), Stepped(t, Link(Next, part), before))
  {
    var mid, goal := Besides(t, part, before), Stepped(t, Link(Next, part), before);
    forall j | 0 <= j < |mid|
      ensures goal[j] == if part.Compound? then Filtered(t, part.simples, mid[j]) else mid[j]
    {
      BesideFiltered(t, part, before[j]);
    }
    hide InTree, PassesAll, FirstNull, StepSlot, BesideSlot;
    if part.Compound? { FirstNullByPlace(mid, goal); } else { assert mid == goal; }
  }

  lemma BesideFiltered(t: Tree, part: Part, slot: Slot)
    ensures var s := BesideSlot(t, part, slot);
            StepSlot(t, Link(Next, part), slot) == if part.Compound? then Filtered(t, part.simples, s) else s
  {
    hide PassesAll, InTree, IsElement;
  }

  lemma ArrayStepAgrees(t: Tree, link: Link, slots: seq<Slot>)
    ensures Agrees(ArrayStep(t, link, slots), Stepped(t, link, slots))
  {
    hide FirstNull, Judge, StepSlot;
    match link.comb
    case Child => ParentsAgree(t, link.part, slots);
    case Next => BesidesAgree(t, link.part, slots);
    case Descendant =>
    case Sibling =>
  }

  // ---- the main loop ----

  /** All candidates' slots after the whole chain. */
  function Finals(t: Tree, chain: seq<Link>, slots: seq<Slot>): (r: seq<Slot>)
    ensures |r| == |slots| && forall i :: 0 <= i < |r| ==> r[i] == Final(t, chain, slots[i])
  {
    seq(|slots|, i requires 0 <= i < |slots| => Final(t, chain, slots[i]))
  }

  /** The candidates whose slots are kept; the collecting loop ends at the first null. */
  function Collected(t: Tree, ctx: Path, slots: seq<Slot>, items: seq<Path>): seq<Path>
    requires InTree(t, ctx) && |slots| == |items|
  {
    if slots == [] || slots[0] == Null then []
    else (if Kept(t, ctx, slots[0]) then [items[0]] else []) + Collected(t, ctx, slots[1..], items[1..])
  }

  function SlotsOf(items: seq<Path>): (r: seq<Slot>)
    ensures |r| == |items| && forall i :: 0 <= i < |r| ==> r[i] == El(items[i])
  {
    seq(|items|, i requires 0 <= i < |items| => El(items[i]))
  }

  /** The whole array after the whole chain. */
  function ArrayFinal(t: Tree, chain: seq<Link>, slots: seq<Slot>): (r: seq<Slot>)
    ensures |r| == |slots|
    decreases |chain|
  {
    if chain == [] then slots else ArrayFinal(t, chain[1..], ArrayStep(t, chain[0], slots))
  }

  /** Some step of the chain asks for the name of a parent that is not there. */
  predicate Throws(t: Tree, chain: seq<Link>, slots: seq<Slot>)
    decreases |chain|
  {
    chain != [] && (StepThrows(chain[0], slots) || Throws(t, chain[1..], ArrayStep(t, chain[0], slots)))
  }

  /** The part of `Sizzle` behind the search for the rightmost part: `ok` is false where the source
      throws, for a child step from a node without parent. */
  method Evaluate(page: Page, ctx: Path, chain: seq<Link>, items: seq<Path>, isXML: bool) returns (ok: bool, results: seq<Path>)
    requires page.Valid() && ctx in page.nodes && InTree(page.tree, ctx) && chain != [] && ProperChain(chain, ctx)
    requires forall i :: 0 <= i < |items| ==> items[i] in page.nodes
    modifies page`done, page.nodes.Values
    ensures page.Valid()
    ensures ok <==> !Throws(page.tree, chain, SlotsOf(items))
    ensures ok ==> results == Collected(page.tree, ctx, Finals(page.tree, chain, SlotsOf(items)), items)
  {
    hide InTree, StepSlot, FirstNull, Kept, Final, Collected, Agrees, ArrayStep, StepThrows, IsTagWord;
    var checkSet := new Slot[|items|](i requires 0 <= i < |items| => El(items[i]));
    ghost var start := SlotsOf(items);
    assert checkSet[..] == start;
    assert chain[0..] == chain;
    var k := 0;
    while k < |chain|
      invariant 0 <= k <= |chain| && page.Valid() && fresh(checkSet) && checkSet.Length == |items|
      invariant k < |chain| ==> page.SlotsKnown(checkSet[..])
      invariant ArrayFinal(page.tree, chain[k..], checkSet[..]) == ArrayFinal(page.tree, chain, start)
      invariant Throws(page.tree, chain[k..], checkSet[..]) <==> Throws(page.tree, chain, start)
    {
      assert chain[k..][0] == chain[k] && chain[k..][1..] == chain[k + 1..];
      ok := RelativeStep(page, chain[k], checkSet, isXML);
      if !ok { return false, []; }
      k := k + 1;
    }
    ok := true;
    results := Collect(page.tree, ctx, checkSet[..], items);
    ArrayFinalAgrees(page.tree, chain, start, start);
    CollectedAgrees(page.tree, ctx, checkSet[..], Finals(page.tree, chain, start), items);
  }

  lemma AgreesSelf(a: seq<Slot>)
    ensures Agrees(a, a)
  {
  }

  /** As far as the collecting loop looks, the array holds each candidate's own final slot. */
  lemma {:induction false} ArrayFinalAgrees(t: Tree, chain: seq<Link>, a: seq<Slot>, b: seq<Slot>)
    requires Agrees(a, b) || a == b
    ensures Agrees(ArrayFinal(t, chain, a), Finals(t, chain, b))
    decreases |chain|
  {
    hide Agrees, StepSlot, ArrayStep;
    AgreesSelf(b);
    if chain == [] {
      FinalsEnd(t, chain, b);
    } else {
      ArrayStepAgrees(t, chain[0], a);
      AgreesStep(t, chain[0], a, b, ArrayStep(t, chain[0], a));
      ArrayFinalAgrees(t, chain[1..], ArrayStep(t, chain[0], a), Stepped(t, chain[0], b));
      FinalsStep(t, chain, b);
    }
  }

  /** If evaluation throws, some candidate's own slot becomes null. */
  lemma {:induction false} ThrowsMeansNull(t: Tree, chain: seq<Link>, a: seq<Slot>, b: seq<Slot>) returns (i: nat)
    requires Agrees(a, b) && Throws(t, chain, a)
    ensures i < |b| && Final(t, chain, b[i]) == Null
    decreases |chain|
  {
    hide InTree, ArrayStep, Final;
    if n :| 0 <= n < |b| && b[n] == Null {
      i := n;
      FinalOfDead(t, chain, Null);
    } else {
      AllLive(b);
      assert a == b;
      if StepThrows(chain[0], b) {
        i :| 0 <= i < |b| && b[i] == El([]);
        RootThrows(t, chain);
      } else {
        hide Agrees, StepSlot;
        ArrayStepAgrees(t, chain[0], a);
        i := ThrowsMeansNull(t, chain[1..], ArrayStep(t, chain[0], a), Stepped(t, chain[0], b));
        FinalsStep(t, chain, b);
        assert Finals(t, chain, b)[i] == Final(t, chain, b[i]);
      }
    }
  }

  lemma RootThrows(t: Tree, chain: seq<Link>)
    requires chain != [] && NeedsParent(chain[0])
    ensures Final(t, chain, El([])) == Null
  {
    assert InTree(t, []);
    StepIsNull(t, chain[0], []);
    FinalOfDead(t, chain[1..], Null);
  }

  /** The loop that collects the results. */
  method Collect(t: Tree, ctx: Path, slots: seq<Slot>, items: seq<Path>) returns (results: seq<Path>)
    requires InTree(t, ctx) && |slots| == |items|
    ensures results == Collected(t, ctx, slots, items)
  {
    hide InTree, Kept;
    results := [];
    var i := 0;
    while i < |slots| && slots[i] != Null
      invariant 0 <= i <= |slots|
      invariant Collected(t, ctx, slots, items) == results + Collected(t, ctx, slots[i..], items[i..])
    {
      assert slots[i..][1..] == slots[i + 1..] && items[i..][1..] == items[i + 1..];
      assert slots[i..][0] == slots[i] && items[i..][0] == items[i];
      if Kept(t, ctx, slots[i]) { results := results + [items[i]]; }
      i := i + 1;
    }
    assert results + [] == results;
  }

  lemma FinalsStep(t: Tree, chain: seq<Link>, spec: seq<Slot>)
    requires chain != []
    ensures Finals(t, chain[1..], Stepped(t, chain[0], spec)) == Finals(t, chain, spec)
  {
    hide StepSlot;
  }

  lemma FinalsEnd(t: Tree, chain: seq<Link>, spec: seq<Slot>)
    requires chain == []
    ensures Finals(t, chain, spec) == spec
  {
  }

  lemma {:induction false} CollectedAgrees(t: Tree, ctx: Path, a: seq<Slot>, b: seq<Slot>, items: seq<Path>)
    requires InTree(t, ctx) && |a| == |b| == |items| && Agrees(a, b)
    ensures Collected(t, ctx, a, items) == Collected(t, ctx, b, items)
    decreases |a|
  {
    hide InTree, Kept;
    if a != [] && b[0] != Null {
      assert Agrees(a[1..], b[1..]);
      CollectedAgrees(t, ctx, a[1..], b[1..], items[1..]);
    }
  }

  // ---- candidates behind a null ----

  /** The candidates whose own slots are kept, in order. */
  function KeptItems(t: Tree, ctx: Path, slots: seq<Slot>, items: seq<Path>): seq<Path>
    requires InTree(t, ctx) && |slots| == |items|
  {
    if slots == [] then []
    else (if Kept(t, ctx, slots[0]) then [items[0]] else []) + KeptItems(t, ctx, slots[1..], items[1..])
  }

  /** A null hides a candidate: its own slot is kept but stands behind a null. */
  ghost predicate Hides(t: Tree, ctx: Path, slots: seq<Slot>)
    requires InTree(t, ctx)
  {
    exists i, j :: 0 <= i < j < |slots| && slots[i] == Null && Kept(t, ctx, slots[j])
  }

  lemma {:induction false} KeptLength(t: Tree, ctx: Path, slots: seq<Slot>, items: seq<Path>)
    requires InTree(t, ctx) && |slots| == |items|
    ensures KeptItems(t, ctx, slots, items) == [] <==> forall j :: 0 <= j < |slots| ==> !Kept(t, ctx, slots[j])
    decreases |slots|
  {
    hide Kept;
    if slots != [] {
      KeptLength(t, ctx, slots[1..], items[1..]);
      assert forall j :: 0 < j < |slots| ==> slots[j] == slots[1..][j - 1];
      assert forall j :: 0 <= j < |slots[1..]| ==> slots[1..][j] == slots[j + 1];
    }
  }

  /** The collecting loop loses candidates exactly when a null hides one. */
  lemma {:induction false} CollectedExactly(t: Tree, ctx: Path, slots: seq<Slot>, items: seq<Path>)
    requires InTree(t, ctx) && |slots| == |items|
    ensures Collected(t, ctx, slots, items) == KeptItems(t, ctx, slots, items) <==> !Hides(t, ctx, slots)
    decreases |slots|
  {
    if slots != [] {
      hide InTree;
      var rest := slots[1..];
      if slots[0] == Null {
        KeptLength(t, ctx, rest, items[1..]);
        assert KeptItems(t, ctx, slots, items) == KeptItems(t, ctx, rest, items[1..]);
        HidesAll(t, ctx, slots);
      } else {
        CollectedExactly(t, ctx, rest, items[1..]);
        HidesLater(t, ctx, slots);
        var first := if Kept(t, ctx, slots[0]) then [items[0]] else [];
        var a, b := Collected(t, ctx, rest, items[1..]), KeptItems(t, ctx, rest, items[1..]);
        assert (first + a)[|first|..] == a && (first + b)[|first|..] == b;
      }
    }
  }

  lemma HidesAll(t: Tree, ctx: Path, slots: seq<Slot>)
    requires InTree(t, ctx) && slots != [] && slots[0] == Null
    ensures Hides(t, ctx, slots) <==> exists j :: 0 <= j < |slots[1..]| && Kept(t, ctx, slots[1..][j])
  {
    hide InTree, Kept;
    var rest := slots[1..];
    if Hides(t, ctx, slots) {
      var i, j :| 0 <= i < j < |slots| && slots[i] == Null && Kept(t, ctx, slots[j]);
      assert Kept(t, ctx, rest[j - 1]);
    }
    if j :| 0 <= j < |rest| && Kept(t, ctx, rest[j]) {
      assert slots[0] == Null && Kept(t, ctx, slots[j + 1]);
    }
  }

  lemma HidesLater(t: Tree, ctx: Path, slots: seq<Slot>)
    requires InTree(t, ctx) && slots != [] && slots[0] != Null
    ensures Hides(t, ctx, slots) <==> Hides(t, ctx, slots[1..])
  {
    hide InTree, Kept;
    var rest := slots[1..];
    if Hides(t, ctx, slots) {
      var i, j :| 0 <= i < j < |slots| && slots[i] == Null && Kept(t, ctx, slots[j]);
      assert rest[i - 1] == Null && Kept(t, ctx, rest[j - 1]);
    }
    if Hides(t, ctx, rest) {
      var i, j :| 0 <= i < j < |rest| && rest[i] == Null && Kept(t, ctx, rest[j]);
      assert slots[i + 1] == Null && Kept(t, ctx, slots[j + 1]);
    }
  }

  /** Where no step slips, evaluation neither throws nor hides a candidate. */
  lemma NothingHidden(t: Tree, ctx: Path, chain: seq<Link>, items: seq<Path>)
    requires InTree(t, ctx) && NoSlip(t, chain)
    requires forall i :: 0 <= i < |items| ==> InTree(t, items[i])
    requires [] in items && chain != [] ==> !NeedsParent(chain[0])
    ensures !Throws(t, chain, SlotsOf(items))
    ensures var finals := Finals(t, chain, SlotsOf(items));
            Collected(t, ctx, finals, items) == KeptItems(t, ctx, finals, items)
  {
    hide InTree, NoSlip, Throws, Kept, Final, Agrees, Collected, KeptItems;
    var finals := Finals(t, chain, SlotsOf(items));
    forall i | 0 <= i < |items| ensures finals[i] != Null && Final(t, chain, SlotsOf(items)[i]) != Null {
      NoNulls(t, chain, items[i]);
    }
    assert !Hides(t, ctx, finals);
    CollectedExactly(t, ctx, finals, items);
    if Throws(t, chain, SlotsOf(items)) {
      AgreesSelf(SlotsOf(items));
      var i := ThrowsMeansNull(t, chain, SlotsOf(items), SlotsOf(items));
    }
  }

  // ---- what the results are ----

  /** Whatever is returned matches, for every chain and every tree. */
  lemma {:induction false} ResultsMatch(t: Tree, ctx: Path, chain: seq<Link>, items: seq<Path>, p: Path)
    requires InTree(t, ctx) && Proper(t, chain, ctx)
    requires forall i :: 0 <= i < |items| ==> InTree(t, items[i]) && Starts(t, chain, items[i])
    requires p in Collected(t, ctx, Finals(t, chain, SlotsOf(items)), items)
    ensures p in items && InTree(t, p) && Matches(t, ctx, chain, p)
    decreases |items|
  {
    hide InTree, Kept, Final, Proper, Matches, Starts;
    var slots := Finals(t, chain, SlotsOf(items));
    assert slots[0] == Final(t, chain, El(items[0]));
    if Kept(t, ctx, slots[0]) && p == items[0] {
      EvaluationIsSound(t, ctx, chain, items[0]);
    } else {
      assert slots[1..] == Finals(t, chain, SlotsOf(items[1..]));
      ResultsMatch(t, ctx, chain, items[1..], p);
    }
  }

  /** The candidates that match, in order. */
  ghost function Matching(t: Tree, ctx: Path, chain: seq<Link>, items: seq<Path>): seq<Path>
    requires InTree(t, ctx) && forall i :: 0 <= i < |items| ==> InTree(t, items[i])
  {
    if items == [] then []
    else (if Matches(t, ctx, chain, items[0]) then [items[0]] else []) + Matching(t, ctx, chain, items[1..])
  }

  /** A selector of good shape keeps exactly the candidates that match, in their order, unless it
      begins with a combinator in a context that is no element. */
  lemma {:induction false} KeptAreMatching(t: Tree, ctx: Path, chain: seq<Link>, items: seq<Path>)
    requires InTree(t, ctx) && Proper(t, chain, ctx) && GoodShape(Combs(chain)) && LeadsWithElement(t, ctx, chain)
    requires forall i :: 0 <= i < |items| ==> InTree(t, items[i]) && Starts(t, chain, items[i])
    ensures KeptItems(t, ctx, Finals(t, chain, SlotsOf(items)), items) == Matching(t, ctx, chain, items)
    decreases |items|
  {
    if items != [] {
      hide InTree, Kept, Final, Matches, GoodShape, Proper, LeadsWithElement, Starts;
      var slots := Finals(t, chain, SlotsOf(items));
      assert slots[0] == Final(t, chain, El(items[0]));
      if Matches(t, ctx, chain, items[0]) {
        EvaluationIsComplete(t, ctx, chain, items[0]);
      } else if Kept(t, ctx, slots[0]) {
        EvaluationIsSound(t, ctx, chain, items[0]);
      }
      assert slots[1..] == Finals(t, chain, SlotsOf(items[1..]));
      KeptAreMatching(t, ctx, chain, items[1..]);
    }
  }

  /** So such a selector returns exactly the matching candidates if and only if no null hides one
      of them; where no step slips, none does. */
  lemma ResultsAreMatching(t: Tree, ctx: Path, chain: seq<Link>, items: seq<Path>)
    requires InTree(t, ctx) && Proper(t, chain, ctx) && GoodShape(Combs(chain)) && LeadsWithElement(t, ctx, chain)
    requires forall i :: 0 <= i < |items| ==> InTree(t, items[i]) && Starts(t, chain, items[i])
    ensures var finals := Finals(t, chain, SlotsOf(items));
            && (Collected(t, ctx, finals, items) == Matching(t, ctx, chain, items) <==> !Hides(t, ctx, finals))
            && (NoSlip(t, chain) && !([] in items && chain != [] && NeedsParent(chain[0])) ==>
                  !Throws(t, chain, SlotsOf(items)) && !Hides(t, ctx, finals))
  {
    hide InTree, NoSlip, Throws, Kept, Final, Agrees, Collected, KeptItems, Matching, Hides, Proper, GoodShape, LeadsWithElement, Starts;
    KeptAreMatching(t, ctx, chain, items);
    CollectedExactly(t, ctx, Finals(t, chain, SlotsOf(items)), items);
    if NoSlip(t, chain) && !([] in items && chain != [] && NeedsParent(chain[0])) { NothingHidden(t, ctx, chain, items); }
  }
}
