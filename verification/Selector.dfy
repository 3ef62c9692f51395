/** What selectors mean, and what right-to-left evaluation makes of them. */
module Selector {
  import opened Wrappers
  import opened Dom
  import opened Filtering
  import opened Walking
  import Namespaces

  datatype Combinator = Child | Descendant | Next | Sibling

  /** A combinator and the part to its left.  A chain lists them from right to left, starting
      behind the part that the candidates already match. */
  datatype Link = Link(comb: Combinator, part: Part)

  // ---- meaning, section 8 of CSS Selectors Level 3 ----

  /** `q` stands to the left of the combinator when `p` stands to its right. */
  ghost predicate Related(t: Tree, comb: Combinator, p: Path, q: Path)
    requires InTree(t, p) && InTree(t, q)
  {
    match comb
    case Child => p != [] && q == Front(p)
    case Descendant => |q| < |p| && p[..|q|] == q
    case Sibling => Earlier(p, q)
    case Next => Earlier(p, q) && IsElement(t, q) && forall r :: InTree(t, r) && Earlier(p, r) && Earlier(r, q) ==> !IsElement(t, r)
  }

  /** `q` is an earlier sibling of `p`. */
  predicate Earlier(p: Path, q: Path) {
    p != [] && q != [] && Front(p) == Front(q) && Last(q) < Last(p)
  }

  /** The node is an element with that tag, or that passes those tests, or it is the context. */
  predicate Describes(t: Tree, part: Part, q: Path)
    requires InTree(t, q)
  {
    match part
    case TagPart(name) => IsElement(t, q) && At(t, q).name == name
    case Compound(simples) => IsElement(t, q) && PassesAll(t, simples, q)
    case Context(c) => q == c
  }

  /** An element strictly inside the context; in a document, any element. */
  predicate Inside(t: Tree, ctx: Path, p: Path)
    requires InTree(t, ctx) && InTree(t, p)
  {
    IsElement(t, p) && (IsElement(t, ctx) ==> |ctx| < |p| && p[..|ctx|] == ctx)
  }

  /** There are nodes for all parts of the chain, the leftmost inside the context or the context itself. */
  ghost predicate Matches(t: Tree, ctx: Path, chain: seq<Link>, p: Path)
    requires InTree(t, ctx) && InTree(t, p)
    decreases |chain|
  {
    if chain == [] then Inside(t, ctx, p)
    else exists q :: InTree(t, q) && Continues(t, ctx, chain, p, q)
  }

  ghost predicate Continues(t: Tree, ctx: Path, chain: seq<Link>, p: Path, q: Path)
    requires chain != [] && InTree(t, ctx) && InTree(t, p) && InTree(t, q)
    decreases |chain|, 0
  {
    && Related(t, chain[0].comb, p, q)
    && Describes(t, chain[0].part, q)
    && (chain[0].part.Context? || Matches(t, ctx, chain[1..], q))
  }

  // ---- evaluation: one slot, one step ----

  /** The nearest earlier sibling that is an element. */
  function PreviousElement(t: Tree, p: Path): (r: Option<Path>)
    requires InTree(t, p)
    ensures r.Some? ==> InTree(t, r.value) && IsElement(t, r.value)
    decreases Distance(Left, p)
  {
    match PreviousSibling(p)
    case None => None
    case Some(q) =>
      StepInTree(t, Left, p);
      if IsElement(t, q) then Some(q) else PreviousElement(t, q)
  }

  /** What the child and next-sibling steps make of the one node they look at. */
  function Judged(t: Tree, part: Part, q: Path): Slot
    requires InTree(t, q)
  {
    match part
    case TagPart(name) => if At(t, q).name == name then El(q) else False
    case Compound(simples) => if PassesAll(t, simples, q) then El(q) else False
    case Context(c) => if q == c then True else False
  }

  /** The slot after one step.  The child step leaves a null at a node without parent. */
  function StepSlot(t: Tree, link: Link, slot: Slot): Slot {
    if !slot.El? || !InTree(t, slot.p) then slot
    else
      var p := slot.p;
      match link.comb
      case Descendant => Nearest(t, Up, link.part, p)
      case Sibling => Nearest(t, Left, link.part, p)
      case Child =>
        if p == [] then (if link.part.Context? then False else Null)
        else
          LastInTree(t, p);
          Judged(t, link.part, Front(p))
      case Next =>
        match PreviousElement(t, p)
        case None => False
        case Some(q) => Judged(t, link.part, q)
  }

  function Final(t: Tree, chain: seq<Link>, slot: Slot): Slot
    decreases |chain|
  {
    if chain == [] then slot else Final(t, chain[1..], StepSlot(t, chain[0], slot))
  }

  /** The last test: `true` counts only for an element context, a node must lie inside. */
  predicate Kept(t: Tree, ctx: Path, slot: Slot)
    requires InTree(t, ctx)
  {
    match slot
    case Null => false
    case False => false
    case True => IsElement(t, ctx)
    case El(p) => InTree(t, p) && Inside(t, ctx, p)
  }

  /** What the relations are in terms of the links between nodes: a child's left side is its parent,
      and the relations of ancestors and earlier siblings are reached by one or more links. */
  lemma RelationsAreLinks(t: Tree, p: Path, q: Path)
    requires InTree(t, p) && InTree(t, q)
    ensures Related(t, Child, p, q) <==> ParentNode(p) == Some(q)
    ensures Related(t, Descendant, p, q)
            <==> ParentNode(p).Some? && (q == ParentNode(p).value || (InTree(t, ParentNode(p).value) && Related(t, Descendant, ParentNode(p).value, q)))
    ensures Related(t, Sibling, p, q)
            <==> PreviousSibling(p).Some? && (q == PreviousSibling(p).value
                                              || (InTree(t, PreviousSibling(p).value) && Related(t, Sibling, PreviousSibling(p).value, q)))
  {
    if p != [] {
      LastInTree(t, p);
      UpStep(p, q);
      if PreviousSibling(p).Some? {
        StepInTree(t, Left, p);
        LeftStep(p, q);
      }
    }
    hide InTree;
  }

  /** What lies inside an element: the elements of which it is an ancestor, not the element itself. */
  lemma InsideIsBelow(t: Tree, ctx: Path, p: Path)
    requires InTree(t, ctx) && InTree(t, p) && IsElement(t, ctx)
    ensures Inside(t, ctx, p) <==> IsElement(t, p) && Related(t, Descendant, p, ctx)
    ensures !Inside(t, ctx, ctx)
  {
    hide InTree, At;
  }

  // ---- what is taken for granted of trees and chains ----

  /** A part that is compared as a tag word has no character but word characters. */
  predicate IsTagWord(name: string) {
    forall i :: 0 <= i < |name| ==> Namespaces.IsWordChar(name[i])
  }

  /** Only elements have children, and the root, which may be a document or a fragment; the names
      of these, `#document` and `#document-fragment`, are no words. */
  ghost predicate ProperTree(t: Tree) {
    forall p :: InTree(t, p) && At(t, p).children != [] ==> IsElement(t, p) || (p == [] && !IsTagWord(t.name))
  }

  /** Only the leftmost part can be the context. */
  predicate ProperChain(chain: seq<Link>, ctx: Path) {
    && (forall i :: 0 <= i < |chain| && chain[i].part.Context? ==> i == |chain| - 1 && chain[i].part.c == ctx)
    && (forall i :: 0 <= i < |chain| && chain[i].part.TagPart? ==> IsTagWord(chain[i].part.name))
  }

  /** A node that is no element, though it has that name, and from which something leads on to an
      element.  The later-sibling walk compares a tag word with names alone, so it can stop there. */
  ghost predicate Misleads(t: Tree, name: string, q: Path)
    requires InTree(t, q)
  {
    !IsElement(t, q) && At(t, q).name == name && q != [] && LeadsToElement(t, q)
  }

  /** The parent or an earlier sibling is an element. */
  ghost predicate LeadsToElement(t: Tree, q: Path)
    requires q != [] && InTree(t, q)
  {
    LastInTree(t, q);
    IsElement(t, Front(q)) || PreviousElement(t, q).Some?
  }

  /** The walk from `p` meets no such node. */
  ghost predicate Straight(t: Tree, name: string, p: Path)
    requires InTree(t, p)
  {
    forall q :: InTree(t, q) && Earlier(p, q) ==> !Misleads(t, name, q)
  }

  /** ... wherever among the elements it starts. */
  ghost predicate Clear(t: Tree, name: string) {
    forall p :: InTree(t, p) && IsElement(t, p) ==> Straight(t, name, p)
  }

  predicate IsSiblingTag(link: Link) { link.comb.Sibling? && link.part.TagPart? }

  ghost predicate SiblingTagsClear(t: Tree, chain: seq<Link>) {
    forall i :: 0 <= i < |chain| && IsSiblingTag(chain[i]) ==> Clear(t, chain[i].part.name)
  }

  /** The first walk starts from an element, or else straight. */
  ghost predicate Starts(t: Tree, chain: seq<Link>, p: Path)
    requires InTree(t, p)
  {
    chain != [] && IsSiblingTag(chain[0]) && !IsElement(t, p) ==> Straight(t, chain[0].part.name, p)
  }

  ghost predicate Proper(t: Tree, chain: seq<Link>, ctx: Path) {
    ProperTree(t) && SiblingTagsClear(t, chain) && ProperChain(chain, ctx)
  }

  lemma ProperTail(t: Tree, chain: seq<Link>, ctx: Path)
    requires Proper(t, chain, ctx) && chain != []
    ensures Proper(t, chain[1..], ctx)
    ensures chain[0].part.Context? ==> chain[1..] == [] && chain[0].part.c == ctx
    ensures chain[0].part.TagPart? ==> IsTagWord(chain[0].part.name)
    ensures IsSiblingTag(chain[0]) ==> Clear(t, chain[0].part.name)
  {
    hide IsTagWord, Clear, ProperTree;
    assert forall i :: 0 <= i < |chain[1..]| ==> chain[1..][i] == chain[i + 1];
  }

  // ---- the search finds what is related ----

  ghost predicate IsStepsAway(t: Tree, dir: Direction, p: Path, q: Path)
    requires InTree(t, p) && InTree(t, q)
  {
    if dir.Up? then Related(t, Descendant, p, q) else Earlier(p, q)
  }

  lemma UpStep(p: Path, r: Path)
    requires p != []
    ensures |r| < |p| && p[..|r|] == r <==> r == Front(p) || (|r| < |Front(p)| && Front(p)[..|r|] == r)
  {
    if |r| < |Front(p)| { assert p[..|r|] == Front(p)[..|r|]; }
  }

  lemma LeftStep(p: Path, r: Path)
    requires PreviousSibling(p).Some?
    ensures var q := PreviousSibling(p).value; Earlier(p, q) && (Earlier(p, r) <==> r == q || Earlier(q, r))
  {
    var q := PreviousSibling(p).value;
    assert Front(q) == Front(p) && Last(q) == Last(p) - 1;
    if r != [] { assert r == Front(r) + [Last(r)]; }
  }

  lemma OneStep(t: Tree, dir: Direction, p: Path)
    requires InTree(t, p) && Step(dir, p).Some?
    ensures InTree(t, Step(dir, p).value)
    ensures IsStepsAway(t, dir, p, Step(dir, p).value)
    ensures forall r :: InTree(t, r) ==>
              (IsStepsAway(t, dir, p, r) <==> r == Step(dir, p).value || IsStepsAway(t, dir, Step(dir, p).value, r))
  {
    StepInTree(t, dir, p);
    hide InTree, Earlier, Front, PreviousSibling;
    var q := Step(dir, p).value;
    if dir.Up? { UpStep(p, q); } else { LeftStep(p, q); }
    forall r | InTree(t, r)
      ensures IsStepsAway(t, dir, p, r) <==> r == q || IsStepsAway(t, dir, q, r)
    {
      if dir.Up? { UpStep(p, r); } else { LeftStep(p, r); }
    }
  }

  lemma NoStep(t: Tree, dir: Direction, p: Path, r: Path)
    requires InTree(t, p) && InTree(t, r) && Step(dir, p).None?
    ensures !IsStepsAway(t, dir, p, r)
  {
  }

  /** The plain search finds the nearest accepted node in its direction, or says there is none. */
  lemma {:induction false} NearestIs(t: Tree, dir: Direction, part: Part, p: Path) returns (q: Path)
    requires InTree(t, p)
    ensures var s := Nearest(t, dir, part, p);
            if s == False then forall r :: InTree(t, r) && IsStepsAway(t, dir, p, r) ==> !Accepts(t, part, r)
            else && InTree(t, q) && s == Found(part, q) && IsStepsAway(t, dir, p, q) && Accepts(t, part, q)
                 && forall r :: InTree(t, r) && IsStepsAway(t, dir, p, r) && Accepts(t, part, r)
                      ==> r == q || IsStepsAway(t, dir, q, r)
    decreases Distance(dir, p)
  {
    hide InTree, Accepts, IsStepsAway;
    q := [];
    match Step(dir, p)
    case None =>
      forall r | InTree(t, r) ensures !IsStepsAway(t, dir, p, r) { NoStep(t, dir, p, r); }
    case Some(n) =>
      StepInTree(t, dir, p);
      OneStep(t, dir, p);
      if Accepts(t, part, n) {
        q := n;
      } else {
        q := NearestIs(t, dir, part, n);
      }
  }

  lemma {:induction false} PreviousElementIs(t: Tree, p: Path)
    requires InTree(t, p)
    ensures match PreviousElement(t, p)
            case None => forall r :: InTree(t, r) && Earlier(p, r) ==> !IsElement(t, r)
            case Some(q) => Earlier(p, q) && forall r :: InTree(t, r) && Earlier(p, r) && IsElement(t, r) ==> r == q || Earlier(q, r)
    decreases Distance(Left, p)
  {
    hide InTree, IsElement;
    match PreviousSibling(p)
    case None =>
    case Some(n) =>
      StepInTree(t, Left, p);
      OneStep(t, Left, p);
      assert forall r :: InTree(t, r) ==> (Earlier(p, r) <==> r == n || Earlier(n, r)) by {
        forall r | InTree(t, r) ensures Earlier(p, r) <==> r == n || Earlier(n, r) {
          assert IsStepsAway(t, Left, p, r) <==> r == n || IsStepsAway(t, Left, n, r);
        }
      }
      if !IsElement(t, n) { PreviousElementIs(t, n); }
  }

  lemma NextIsPreviousElement(t: Tree, p: Path, q: Path)
    requires InTree(t, p) && InTree(t, q)
    ensures Related(t, Next, p, q) <==> PreviousElement(t, p) == Some(q)
  {
    hide InTree, IsElement;
    PreviousElementIs(t, p);
    match PreviousElement(t, p)
    case None =>
    case Some(e) =>
      assert Earlier(p, q) && IsElement(t, q) && q != e ==> Earlier(e, q);
  }

  // ---- soundness ----

  /** A node from which no step leads to an element. */
  ghost predicate Stuck(t: Tree, q: Path)
    requires InTree(t, q)
  {
    !IsElement(t, q) && (q == [] || !LeadsToElement(t, q))
  }

  lemma AncestorAccepted(t: Tree, part: Part, p: Path, q: Path)
    requires InTree(t, p) && InTree(t, q) && ProperTree(t) && Related(t, Descendant, p, q)
    requires part.TagPart? ==> IsTagWord(part.name)
    requires Accepts(t, part, q)
    ensures IsElement(t, q) && Describes(t, part, q)
  {
    hide IsTagWord, PassesAll;
    HasChild(t, p, |q|);
  }

  lemma HasChild(t: Tree, p: Path, k: nat)
    requires InTree(t, p) && k < |p|
    ensures InTree(t, p[..k]) && At(t, p[..k]).children != []
  {
    PrefixInTree(t, p, k);
    PrefixInTree(t, p, k + 1);
    assert p[..k + 1] == p[..k] + [p[k]];
    ChildInTree(t, p[..k], p[k]);
  }

  lemma SiblingAccepted(t: Tree, part: Part, p: Path, q: Path)
    requires InTree(t, p) && InTree(t, q) && ProperTree(t) && Earlier(p, q)
    requires part.TagPart? ==> Straight(t, part.name, p)
    requires Accepts(t, part, q)
    ensures Describes(t, part, q) || (Stuck(t, q) && part.TagPart?)
  {
    hide PassesAll, IsElement, InTree;
    assert part.TagPart? ==> !Misleads(t, part.name, q);
  }

  lemma ParentJudged(t: Tree, part: Part, p: Path)
    requires InTree(t, p) && p != [] && InTree(t, Front(p)) && ProperTree(t)
    requires part.TagPart? ==> IsTagWord(part.name)
    requires Judged(t, part, Front(p)) != False
    ensures Describes(t, part, Front(p)) || (Stuck(t, Front(p)) && part.Compound?)
  {
    hide IsTagWord, PassesAll;
    HasChild(t, p, |p| - 1);
  }

  /** A live slot after a step is related to the slot before, and described by the part unless
      nothing leads on from it; the value `true` stands for the context. */
  lemma StepIsRelated(t: Tree, link: Link, p: Path)
    requires InTree(t, p) && ProperTree(t)
    requires link.part.TagPart? ==> IsTagWord(link.part.name)
    requires IsSiblingTag(link) ==> Straight(t, link.part.name, p)
    ensures var s := StepSlot(t, link, El(p));
            && (s.El? ==> InTree(t, s.p) && !link.part.Context? && Related(t, link.comb, p, s.p)
                            && (Describes(t, link.part, s.p) || Stuck(t, s.p)))
            && (s.True? ==> link.part.Context? && InTree(t, link.part.c) && Related(t, link.comb, p, link.part.c))
  {
    hide IsElement, PassesAll, InTree, IsTagWord, Straight, ProperTree, Stuck;
    match link.comb
    case Descendant =>
      var q := NearestIs(t, Up, link.part, p);
      if Nearest(t, Up, link.part, p) != False { AncestorAccepted(t, link.part, p, q); }
    case Sibling =>
      var q := NearestIs(t, Left, link.part, p);
      if Nearest(t, Left, link.part, p) != False { SiblingAccepted(t, link.part, p, q); }
    case Child =>
      if p != [] {
        LastInTree(t, p);
        if Judged(t, link.part, Front(p)) != False { ParentJudged(t, link.part, p); }
      }
    case Next =>
      hide Related;
      if PreviousElement(t, p).Some? { NextIsPreviousElement(t, p, PreviousElement(t, p).value); }
  }

  /** From a stuck node a step leads to a stuck node, to nothing, or to the root as the context. */
  lemma StuckStays(t: Tree, link: Link, q: Path)
    requires InTree(t, q) && ProperTree(t) && Stuck(t, q)
    requires link.part.TagPart? ==> IsTagWord(link.part.name)
    ensures var s := StepSlot(t, link, El(q));
            && (s.El? ==> InTree(t, s.p) && Stuck(t, s.p))
            && (s.True? ==> link.part.Context? && link.part.c == [] && !IsElement(t, []))
  {
    hide PassesAll, InTree, IsTagWord;
    if q != [] {
      StuckBelowRoot(t, q);
      match link.comb
      case Descendant =>
        var r := NearestIs(t, Up, link.part, q);
        if Nearest(t, Up, link.part, q) != False { AncestorAccepted(t, link.part, q, r); }
      case Sibling =>
        var r := NearestIs(t, Left, link.part, q);
        if Nearest(t, Left, link.part, q) != False { StuckBefore(t, q, r); }
      case Child =>
      case Next =>
    }
  }

  /** A stuck node hangs directly below a root that is no element. */
  lemma StuckBelowRoot(t: Tree, q: Path)
    requires InTree(t, q) && ProperTree(t) && Stuck(t, q) && q != []
    ensures InTree(t, []) && Front(q) == [] && !IsElement(t, [])
  {
    hide IsTagWord;
    LastInTree(t, q);
    HasChild(t, q, |q| - 1);
  }

  lemma StuckBefore(t: Tree, q: Path, r: Path)
    requires InTree(t, q) && InTree(t, r) && Stuck(t, q) && Earlier(q, r)
    ensures Stuck(t, r)
  {
    hide InTree, IsElement;
    LastInTree(t, q);
    PreviousElementIs(t, q);
    LastInTree(t, r);
    if PreviousElement(t, r).Some? {
      PreviousElementIs(t, r);
    }
  }

  lemma {:induction false} StuckIsNotKept(t: Tree, ctx: Path, chain: seq<Link>, q: Path)
    requires InTree(t, ctx) && InTree(t, q) && Proper(t, chain, ctx) && Stuck(t, q)
    ensures !Kept(t, ctx, Final(t, chain, El(q)))
    decreases |chain|
  {
    hide InTree, StepSlot, ProperTree;
    if chain != [] {
      var s := StepSlot(t, chain[0], El(q));
      ProperTail(t, chain, ctx);
      StuckStays(t, chain[0], q);
      if s.El? { StuckIsNotKept(t, ctx, chain[1..], s.p); } else { FinalOfDead(t, chain[1..], s); }
    }
  }

  lemma FinalOfDead(t: Tree, chain: seq<Link>, slot: Slot)
    requires !slot.El?
    ensures Final(t, chain, slot) == slot
    decreases |chain|
  {
    if chain != [] { FinalOfDead(t, chain[1..], slot); }
  }

  /** Evaluation from right to left is sound for every chain: a kept slot shows nodes for all
      parts, the leftmost of them inside the context. */
  lemma {:induction false} EvaluationIsSound(t: Tree, ctx: Path, chain: seq<Link>, p: Path)
    requires InTree(t, ctx) && InTree(t, p) && Proper(t, chain, ctx) && Starts(t, chain, p)
    requires Kept(t, ctx, Final(t, chain, El(p)))
    ensures Matches(t, ctx, chain, p)
    decreases |chain|
  {
    if chain != [] {
      hide InTree, IsElement, StepSlot, Related, Describes, Proper, Stuck;
      var link, rest := chain[0], chain[1..];
      var s := StepSlot(t, link, El(p));
      ProperTail(t, chain, ctx);
      assert ProperTree(t) by { ProperIsTree(t, chain, ctx); }
      FirstIsStraight(t, chain, p);
      StepIsRelated(t, link, p);
      if s.El? {
        if Stuck(t, s.p) { StuckIsNotKept(t, ctx, rest, s.p); }
        else { ElementStarts(t, link.part, rest, s.p); }
        EvaluationIsSound(t, ctx, rest, s.p);
        assert Continues(t, ctx, chain, p, s.p);
      } else {
        FinalOfDead(t, rest, s);
        assert Describes(t, link.part, ctx) by { ContextDescribes(t, ctx); }
        assert Continues(t, ctx, chain, p, ctx);
      }
    }
  }

  lemma FirstIsStraight(t: Tree, chain: seq<Link>, p: Path)
    requires chain != [] && InTree(t, p) && Starts(t, chain, p)
    requires IsSiblingTag(chain[0]) ==> Clear(t, chain[0].part.name)
    ensures IsSiblingTag(chain[0]) ==> Straight(t, chain[0].part.name, p)
  {
    hide Straight, InTree, IsElement;
  }

  lemma ElementStarts(t: Tree, part: Part, chain: seq<Link>, q: Path)
    requires InTree(t, q) && Describes(t, part, q) && !part.Context?
    ensures Starts(t, chain, q)
  {
  }

  lemma ProperIsTree(t: Tree, chain: seq<Link>, ctx: Path)
    requires Proper(t, chain, ctx)
    ensures ProperTree(t)
  {
  }

  lemma ContextDescribes(t: Tree, ctx: Path)
    requires InTree(t, ctx)
    ensures Describes(t, Context(ctx), ctx)
  {
  }

  // ---- completeness, and exactly which shapes have it ----

  /** Two combinators, read from right to left, that can make the greedy search miss a match:
      the first may settle on a node from which the second leads elsewhere. */
  predicate BadPair(a: Combinator, b: Combinator) {
    (a == Descendant && b != Descendant) || (a == Sibling && b == Next)
  }

  predicate GoodShape(combs: seq<Combinator>) {
    forall i :: 0 <= i < |combs| - 1 ==> !BadPair(combs[i], combs[i + 1])
  }

  function Combs(chain: seq<Link>): (r: seq<Combinator>)
    ensures |r| == |chain| && forall i :: 0 <= i < |r| ==> r[i] == chain[i].comb
  {
    seq(|chain|, i requires 0 <= i < |chain| => chain[i].comb)
  }

  lemma ShapeTail(chain: seq<Link>)
    requires chain != [] && GoodShape(Combs(chain))
    ensures GoodShape(Combs(chain[1..]))
    ensures |chain| > 1 ==> !BadPair(chain[0].comb, chain[1].comb)
  {
    var rest := chain[1..];
    assert forall i :: 0 <= i < |rest| ==> rest[i] == chain[i + 1];
    assert forall i :: 0 <= i < |rest| ==> Combs(rest)[i] == Combs(chain)[i + 1];
  }

  /** If the chain begins with a combinator, then in an element. */
  predicate LeadsWithElement(t: Tree, ctx: Path, chain: seq<Link>)
    requires InTree(t, ctx)
  {
    Leading(chain) ==> IsElement(t, ctx)
  }

  /** The selector begins with a combinator, so that its leftmost part is the context. */
  predicate Leading(chain: seq<Link>) { chain != [] && chain[|chain| - 1].part.Context? }

  /** A match from an ancestor `q` that only looks further up is also one from a nearer node. */
  lemma MatchesFromBelow(t: Tree, ctx: Path, chain: seq<Link>, q: Path, q': Path)
    requires InTree(t, ctx) && InTree(t, q) && InTree(t, q') && IsElement(t, q')
    requires Related(t, Descendant, q', q) && (chain == [] || chain[0].comb == Descendant)
    requires Matches(t, ctx, chain, q)
    ensures Matches(t, ctx, chain, q')
  {
    hide InTree, IsElement, Describes;
    if chain == [] {
      assert IsElement(t, ctx) ==> q'[..|ctx|] == q[..|ctx|];
    } else {
      var r :| InTree(t, r) && Continues(t, ctx, chain, q, r);
      assert q'[..|r|] == q[..|r|];
      assert Continues(t, ctx, chain, q', r);
    }
  }

  /** A match from an earlier sibling `q` that does not look at the next sibling is also one from
      a later sibling. */
  lemma MatchesFromBeside(t: Tree, ctx: Path, chain: seq<Link>, q: Path, q': Path)
    requires InTree(t, ctx) && InTree(t, q) && InTree(t, q') && IsElement(t, q')
    requires Earlier(q', q) && (chain == [] || chain[0].comb != Next)
    requires Matches(t, ctx, chain, q)
    ensures Matches(t, ctx, chain, q')
  {
    hide InTree, IsElement, Describes;
    assert q == Front(q) + [Last(q)] && q' == Front(q) + [Last(q')];
    if chain == [] {
      if IsElement(t, ctx) { assert q'[..|ctx|] == q[..|ctx|]; }
    } else {
      var r :| InTree(t, r) && Continues(t, ctx, chain, q, r);
      if chain[0].comb == Descendant { assert q'[..|r|] == q[..|r|]; }
      assert Continues(t, ctx, chain, q', r);
    }
  }

  lemma DescribedIsAccepted(t: Tree, part: Part, q: Path)
    requires InTree(t, q) && Describes(t, part, q) && IsElement(t, q)
    ensures Accepts(t, part, q) && Judged(t, part, q) == Found(part, q)
  {
  }

  /** If a described node is related to `p` and the chain goes on from it, then the step finds a
      node from which the chain goes on as well. */
  lemma StepLosesNothing(t: Tree, ctx: Path, chain: seq<Link>, p: Path, q: Path) returns (q': Path)
    requires chain != [] && InTree(t, ctx) && InTree(t, p) && InTree(t, q) && Proper(t, chain, ctx)
    requires |chain| > 1 ==> !BadPair(chain[0].comb, chain[1].comb)
    requires LeadsWithElement(t, ctx, chain) && Starts(t, chain, p)
    requires Continues(t, ctx, chain, p, q)
    ensures StepSlot(t, chain[0], El(p)) == Found(chain[0].part, q')
    ensures InTree(t, q') && Continues(t, ctx, chain, p, q')
  {
    var link, rest := chain[0], chain[1..];
    ProperTail(t, chain, ctx);
    FirstIsStraight(t, chain, p);
    DescribedIsElement(t, ctx, chain, q);
    DescribedIsAccepted(t, link.part, q);
    q' := q;
    hide InTree, IsElement, Judged, Accepts, Describes, Matches, LeadsWithElement;
    match link.comb
    case Child =>
      LastInTree(t, p);
    case Next =>
      NextIsPreviousElement(t, p, q);
    case Descendant =>
      hide Nearest, NearestFrom;
      q' := NearestIs(t, Up, link.part, p);
      AncestorAccepted(t, link.part, p, q');
      if link.part.Context? { OneContext(t, link.part, q, q'); }
      else if q' != q { MatchesFromBelow(t, ctx, rest, q, q'); }
    case Sibling =>
      hide Nearest, NearestFrom;
      q' := NearestIs(t, Left, link.part, p);
      SiblingAccepted(t, link.part, p, q');
      if link.part.Context? { OneContext(t, link.part, q, q'); }
      else if q' != q {
        if Stuck(t, q') { StuckHasNone(t, q', q); }
        DescribedIsElement(t, ctx, chain, q');
        MatchesFromBeside(t, ctx, rest, q, q');
      }
  }

  lemma DescribedIsElement(t: Tree, ctx: Path, chain: seq<Link>, q: Path)
    requires chain != [] && InTree(t, ctx) && InTree(t, q) && Describes(t, chain[0].part, q)
    requires chain[0].part.Context? ==> |chain| == 1 && chain[0].part.c == ctx
    requires LeadsWithElement(t, ctx, chain)
    ensures IsElement(t, q)
  {
  }

  lemma OneContext(t: Tree, part: Part, q: Path, q': Path)
    requires part.Context? && InTree(t, q) && InTree(t, q') && Describes(t, part, q) && Describes(t, part, q')
    ensures q == q'
  {
  }

  lemma StuckHasNone(t: Tree, q: Path, r: Path)
    requires InTree(t, q) && InTree(t, r) && Stuck(t, q) && Earlier(q, r)
    ensures !IsElement(t, r)
  {
    hide InTree, IsElement;
    PreviousElementIs(t, q);
  }

  /** Evaluation is complete for every chain of a good shape: no match is missed. */
  lemma {:induction false} EvaluationIsComplete(t: Tree, ctx: Path, chain: seq<Link>, p: Path)
    requires InTree(t, ctx) && InTree(t, p) && Proper(t, chain, ctx) && LeadsWithElement(t, ctx, chain)
    requires Starts(t, chain, p)
    requires GoodShape(Combs(chain)) && Matches(t, ctx, chain, p)
    ensures Kept(t, ctx, Final(t, chain, El(p)))
    decreases |chain|
  {
    if chain != [] {
      var link, rest := chain[0], chain[1..];
      var q :| InTree(t, q) && Continues(t, ctx, chain, p, q);
      ShapeTail(chain);
      ProperTail(t, chain, ctx);
      hide InTree, IsElement, StepSlot, Related, Proper;
      var q' := StepLosesNothing(t, ctx, chain, p, q);
      if !link.part.Context? {
        ElementStarts(t, link.part, rest, q');
        EvaluationIsComplete(t, ctx, rest, q');
      }
    }
  }

  // ---- a combinator at the beginning of the selector ----

  /** With a context that is no element, such as the document, a leading combinator finds nothing. */
  lemma {:induction false} LeadingFindsNothing(t: Tree, ctx: Path, chain: seq<Link>, p: Path)
    requires InTree(t, ctx) && InTree(t, p) && Leading(chain) && !IsElement(t, ctx)
    ensures !Kept(t, ctx, Final(t, chain, El(p)))
    decreases |chain|
  {
    hide InTree, IsElement;
    var s := StepSlot(t, chain[0], El(p));
    StepInside(t, chain[0], p);
    hide StepSlot;
    if s.El? {
      assert |chain| > 1;
      LeadingFindsNothing(t, ctx, chain[1..], s.p);
    } else {
      FinalOfDead(t, chain[1..], s);
    }
  }

  /** A step stays in the tree, and finds no node where the part is the context. */
  lemma StepInside(t: Tree, link: Link, p: Path)
    requires InTree(t, p)
    ensures var s := StepSlot(t, link, El(p)); s.El? ==> InTree(t, s.p) && !link.part.Context?
  {
    hide InTree, Accepts, PassesAll;
    match link.comb
    case Descendant => var q := NearestIs(t, Up, link.part, p);
    case Sibling => var q := NearestIs(t, Left, link.part, p);
    case Child => if p != [] { LastInTree(t, p); }
    case Next =>
  }

  /** So a selector of good shape that begins with a combinator is evaluated exactly when the
      context is an element or nothing matches. */
  lemma LeadingExactly(t: Tree, ctx: Path, chain: seq<Link>)
    requires InTree(t, ctx) && Proper(t, chain, ctx) && GoodShape(Combs(chain)) && Leading(chain)
    ensures (forall p :: InTree(t, p) && Starts(t, chain, p) ==> (Kept(t, ctx, Final(t, chain, El(p))) <==> Matches(t, ctx, chain, p)))
            <==> IsElement(t, ctx) || forall p :: InTree(t, p) && Starts(t, chain, p) ==> !Matches(t, ctx, chain, p)
  {
    hide InTree, IsElement, Kept, Final, Matches, Proper, Starts;
    forall p | InTree(t, p) && Starts(t, chain, p)
      ensures Kept(t, ctx, Final(t, chain, El(p))) ==> Matches(t, ctx, chain, p)
      ensures IsElement(t, ctx) && Matches(t, ctx, chain, p) ==> Kept(t, ctx, Final(t, chain, El(p)))
      ensures !IsElement(t, ctx) ==> !Kept(t, ctx, Final(t, chain, El(p)))
    {
      if Kept(t, ctx, Final(t, chain, El(p))) { EvaluationIsSound(t, ctx, chain, p); }
      if IsElement(t, ctx) && Matches(t, ctx, chain, p) { EvaluationIsComplete(t, ctx, chain, p); }
      if !IsElement(t, ctx) { LeadingFindsNothing(t, ctx, chain, p); }
    }
  }

  // ---- slots that become null ----

  /** The step can lead to the root. */
  predicate TakesRoot(t: Tree, link: Link) {
    match link.comb
    case Child => Judged(t, link.part, []).El?
    case Descendant => !link.part.Context? && Accepts(t, link.part, [])
    case Next => false
    case Sibling => false
  }

  /** The child step that leaves a null when it starts at the root. */
  predicate NeedsParent(link: Link) { link.comb.Child? && !link.part.Context? }

  /** Step `k` can lead to the root, from which the step behind it asks for a parent. */
  predicate Slips(t: Tree, chain: seq<Link>, k: nat)
    requires k + 1 < |chain|
  {
    TakesRoot(t, chain[k]) && NeedsParent(chain[k + 1])
  }

  predicate NoSlip(t: Tree, chain: seq<Link>) {
    forall k :: 0 <= k < |chain| - 1 ==> !Slips(t, chain, k)
  }

  lemma StepToRoot(t: Tree, link: Link, p: Path)
    requires InTree(t, p) && StepSlot(t, link, El(p)) == El([])
    ensures TakesRoot(t, link)
  {
    hide PassesAll;
    match link.comb
    case Descendant => var q := NearestIs(t, Up, link.part, p);
    case Sibling => var q := NearestIs(t, Left, link.part, p);
    case Child =>
    case Next => PreviousElementIs(t, p);
  }

  lemma StepIsNull(t: Tree, link: Link, p: Path)
    requires InTree(t, p)
    ensures StepSlot(t, link, El(p)) == Null <==> p == [] && NeedsParent(link)
  {
  }

  /** Where no step slips, no slot becomes null, unless a candidate is the root itself. */
  lemma {:induction false} NoNulls(t: Tree, chain: seq<Link>, p: Path)
    requires InTree(t, p) && NoSlip(t, chain)
    requires p == [] && chain != [] ==> !NeedsParent(chain[0])
    ensures Final(t, chain, El(p)) != Null
    decreases |chain|
  {
    if chain != [] {
      hide InTree, StepSlot, TakesRoot, NeedsParent;
      var s, rest := StepSlot(t, chain[0], El(p)), chain[1..];
      StepIsNull(t, chain[0], p);
      StepInside(t, chain[0], p);
      if s.El? {
        assert forall k :: 0 <= k < |rest| - 1 ==> !Slips(t, chain, k + 1) ==> !Slips(t, rest, k);
        if s.p == [] {
          StepToRoot(t, chain[0], p);
          assert |chain| > 1 ==> !Slips(t, chain, 0);
        }
        NoNulls(t, rest, s.p);
      } else {
        FinalOfDead(t, rest, s);
      }
    }
  }
}
