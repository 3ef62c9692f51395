/** Nodes that are no elements but have the name of one: doctypes and processing instructions.
    The walk for `~` compares a tag word with names alone, so it can stop at such a node. */
module NameClash {
  import opened Wrappers
  import opened Dom
  import opened Filtering
  import opened Walking
  import opened Selector
  import Namespaces

  /** `name` is the only tag word that stands to the left of a `~`. */
  predicate OnlySiblingTag(chain: seq<Link>, name: string) {
    forall i :: 0 <= i < |chain| && chain[i].comb.Sibling? && chain[i].part.TagPart? ==> chain[i].part.name == name
  }

  /** The chains that are evaluated exactly wherever names do not clash. */
  predicate Plain(t: Tree, ctx: Path, chain: seq<Link>, name: string)
    requires InTree(t, ctx)
  {
    ProperChain(chain, ctx) && GoodShape(Combs(chain)) && LeadsWithElement(t, ctx, chain) && OnlySiblingTag(chain, name)
  }

  ghost predicate EvaluatesExactly(t: Tree, ctx: Path, chain: seq<Link>, p: Path)
    requires InTree(t, ctx) && InTree(t, p)
  {
    Kept(t, ctx, Final(t, chain, El(p))) <==> Matches(t, ctx, chain, p)
  }

  /** In a given document, a tag word is evaluated exactly in all chains, for all contexts and all
      elements as candidates, if and only if no misleading node has that name: a node that is no
      element, with an element after it and an element as its parent or before it. */
  lemma ClearExactly(t: Tree, name: string)
    requires ProperTree(t) && IsTagWord(name)
    ensures Clear(t, name)
            <==> forall ctx, chain, p :: InTree(t, ctx) && InTree(t, p) && IsElement(t, p) && Plain(t, ctx, chain, name) ==>
                   EvaluatesExactly(t, ctx, chain, p)
  {
    hide InTree, IsElement, Straight, Plain, EvaluatesExactly, ProperTree, IsTagWord;
    if Clear(t, name) {
      forall ctx, chain, p | InTree(t, ctx) && InTree(t, p) && IsElement(t, p) && Plain(t, ctx, chain, name)
        ensures EvaluatesExactly(t, ctx, chain, p)
      {
        ClearIsExact(t, name, ctx, chain, p);
      }
    } else {
      var p :| InTree(t, p) && IsElement(t, p) && !Straight(t, name, p);
      var ctx, chain, p' := CrookedShows(t, name, p);
    }
  }

  /** The same for all nodes as candidates, texts and comments included: then it is enough that any
      node stands after the misleading one. */
  lemma ClearForAllExactly(t: Tree, name: string)
    requires ProperTree(t) && IsTagWord(name)
    ensures (forall p :: InTree(t, p) ==> Straight(t, name, p))
            <==> forall ctx, chain, p :: InTree(t, ctx) && InTree(t, p) && Plain(t, ctx, chain, name) ==>
                   EvaluatesExactly(t, ctx, chain, p)
  {
    hide InTree, IsElement, Straight, Plain, EvaluatesExactly, ProperTree, IsTagWord;
    if forall p :: InTree(t, p) ==> Straight(t, name, p) {
      forall ctx, chain, p | InTree(t, ctx) && InTree(t, p) && Plain(t, ctx, chain, name)
        ensures EvaluatesExactly(t, ctx, chain, p)
      {
        ClearIsExact(t, name, ctx, chain, p);
      }
    } else {
      var p :| InTree(t, p) && !Straight(t, name, p);
      var ctx, chain, p' := CrookedShows(t, name, p);
    }
  }

  lemma ClearIsExact(t: Tree, name: string, ctx: Path, chain: seq<Link>, p: Path)
    requires ProperTree(t) && Clear(t, name) && InTree(t, ctx) && InTree(t, p) && Plain(t, ctx, chain, name)
    requires IsElement(t, p) || Straight(t, name, p)
    ensures EvaluatesExactly(t, ctx, chain, p)
  {
    hide InTree, IsElement, Clear, Straight, Kept, Final, Matches, ProperTree, IsTagWord;
    assert Starts(t, chain, p);
    if Kept(t, ctx, Final(t, chain, El(p))) { EvaluationIsSound(t, ctx, chain, p); }
    if Matches(t, ctx, chain, p) { EvaluationIsComplete(t, ctx, chain, p); }
  }

  /** The walk from `p` for that name stops at the misleading node `q`. */
  ghost predicate StopsAt(t: Tree, name: string, p: Path, q: Path)
    requires InTree(t, p) && InTree(t, q)
  {
    && Misleads(t, name, q) && Earlier(p, q)
    && StepSlot(t, Link(Sibling, TagPart(name)), El(p)) == El(q)
    && forall r :: InTree(t, r) && Earlier(p, r) && At(t, r).name == name ==> r == q || Earlier(q, r)
  }

  /** If the walk from some node can meet a misleading node, the walk from that node or from an
      element before it stops at one. */
  lemma {:induction false} Misled(t: Tree, name: string, p: Path) returns (p': Path, q: Path)
    requires InTree(t, p) && !Straight(t, name, p)
    ensures InTree(t, p') && (p' == p || IsElement(t, p')) && InTree(t, q) && StopsAt(t, name, p', q)
    decreases Distance(Left, p)
  {
    hide InTree, At, IsElement, StepSlot;
    var q0 :| InTree(t, q0) && Earlier(p, q0) && Misleads(t, name, q0);
    q := NearestNamed(t, name, p, q0);
    p' := p;
    if IsElement(t, q) {
      assert q != q0 && Earlier(q, q0);
      assert !Straight(t, name, q);
      p', q := Misled(t, name, q);
    } else if q != q0 {
      LeadsFurther(t, q, q0);
    }
  }

  lemma NearestNamed(t: Tree, name: string, p: Path, q0: Path) returns (q: Path)
    requires InTree(t, p) && InTree(t, q0) && Earlier(p, q0) && At(t, q0).name == name
    ensures InTree(t, q) && Earlier(p, q) && At(t, q).name == name && (q == q0 || Earlier(q, q0))
    ensures StepSlot(t, Link(Sibling, TagPart(name)), El(p)) == El(q)
    ensures forall r :: InTree(t, r) && Earlier(p, r) && At(t, r).name == name ==> r == q || Earlier(q, r)
  {
    hide InTree, At, Nearest, Earlier;
    q := NearestIs(t, Left, TagPart(name), p);
    assert forall r :: InTree(t, r) ==> (Accepts(t, TagPart(name), r) <==> At(t, r).name == name);
    assert IsStepsAway(t, Left, p, q0);
  }

  /** What leads on from a node leads on from its later siblings. */
  lemma LeadsFurther(t: Tree, q: Path, q0: Path)
    requires InTree(t, q) && InTree(t, q0) && Earlier(q, q0) && LeadsToElement(t, q0)
    ensures LeadsToElement(t, q)
  {
    LastInTree(t, q);
    LastInTree(t, q0);
    hide InTree, At, IsElement;
    if PreviousElement(t, q0).Some? {
      PreviousElementIs(t, q0);
      PreviousElementIs(t, q);
      var e := PreviousElement(t, q0).value;
      assert Earlier(q, e);
    }
  }

  /** A misleading node makes some chain miss a match or keep a node that does not match. */
  lemma CrookedShows(t: Tree, name: string, p: Path) returns (ctx: Path, chain: seq<Link>, p': Path)
    requires ProperTree(t) && IsTagWord(name) && InTree(t, p) && !Straight(t, name, p)
    ensures InTree(t, ctx) && InTree(t, p') && (p' == p || IsElement(t, p'))
    ensures Plain(t, ctx, chain, name) && !EvaluatesExactly(t, ctx, chain, p')
  {
    hide InTree, At, IsElement, StepSlot, ProperTree, IsTagWord, Plain, EvaluatesExactly, Straight, Earlier;
    var q;
    p', q := Misled(t, name, p);
    LastInTree(t, q);
    var first := Link(Sibling, TagPart(name));
    if e :| InTree(t, e) && Earlier(q, e) && IsElement(t, e) && At(t, e).name == name {
      ctx, chain := [], [first];
      ClashHides(t, name, q, p', e);
    } else if IsElement(t, Front(q)) {
      ctx, chain := Front(q), [first, Link(Child, Context(Front(q)))];
      ClashReachesParent(t, name, q, p');
    } else {
      ctx, chain := [], [first, Link(Sibling, Compound([Any]))];
      ClashReachesSibling(t, name, q, p');
    }
  }

  /** A real element of that name stands further away: it is missed. */
  lemma ClashHides(t: Tree, name: string, q: Path, p: Path, e: Path)
    requires IsTagWord(name) && InTree(t, p) && InTree(t, q) && StopsAt(t, name, p, q)
    requires InTree(t, e) && Earlier(q, e) && IsElement(t, e) && At(t, e).name == name
    ensures var chain := [Link(Sibling, TagPart(name))];
            InTree(t, []) && Plain(t, [], chain, name) && !EvaluatesExactly(t, [], chain, p)
  {
    var chain := [Link(Sibling, TagPart(name))];
    hide IsTagWord, StepSlot, LeadsToElement;
    assert InTree(t, []);
    assert chain[1..] == [] && Final(t, chain, El(p)) == El(q);
    assert Matches(t, [], [], e);
    assert Continues(t, [], chain, p, e);
  }

  lemma NothingNamed(t: Tree, name: string, chain: seq<Link>, ctx: Path, q: Path, p: Path)
    requires InTree(t, ctx) && InTree(t, q) && InTree(t, p) && chain != [] && chain[0] == Link(Sibling, TagPart(name))
    requires StopsAt(t, name, p, q)
    requires forall e :: InTree(t, e) && Earlier(q, e) && IsElement(t, e) ==> At(t, e).name != name
    ensures !Matches(t, ctx, chain, p)
  {
    hide InTree, IsElement, Earlier, StepSlot, LeadsToElement;
  }

  /** No element of that name is there, but the parent is reached. */
  lemma ClashReachesParent(t: Tree, name: string, q: Path, p: Path)
    requires IsTagWord(name) && InTree(t, p) && InTree(t, q) && StopsAt(t, name, p, q)
    requires forall e :: InTree(t, e) && Earlier(q, e) && IsElement(t, e) ==> At(t, e).name != name
    requires q != [] && InTree(t, Front(q)) && IsElement(t, Front(q))
    ensures var chain := [Link(Sibling, TagPart(name)), Link(Child, Context(Front(q)))];
            Plain(t, Front(q), chain, name) && !EvaluatesExactly(t, Front(q), chain, p)
  {
    var chain := [Link(Sibling, TagPart(name)), Link(Child, Context(Front(q)))];
    NothingNamed(t, name, chain, Front(q), q, p);
    hide IsTagWord, InTree, IsElement, Matches, LeadsToElement, Earlier;
    assert StepSlot(t, chain[1], El(q)) == True;
    TwoSteps(t, chain, p, q, True);
  }

  lemma TwoSteps(t: Tree, chain: seq<Link>, p: Path, q: Path, s: Slot)
    requires |chain| == 2 && StepSlot(t, chain[0], El(p)) == El(q) && StepSlot(t, chain[1], El(q)) == s
    ensures Final(t, chain, El(p)) == s
  {
    hide StepSlot;
    assert chain[1..] == [chain[1]] && chain[1..][1..] == [];
    assert Final(t, chain, El(p)) == Final(t, [chain[1]], El(q)) == Final(t, [], s);
  }

  /** ... or an element before it is reached. */
  lemma ClashReachesSibling(t: Tree, name: string, q: Path, p: Path)
    requires ProperTree(t) && IsTagWord(name) && InTree(t, p) && InTree(t, q) && StopsAt(t, name, p, q)
    requires forall e :: InTree(t, e) && Earlier(q, e) && IsElement(t, e) ==> At(t, e).name != name
    requires q != [] && InTree(t, Front(q)) && !IsElement(t, Front(q))
    ensures var chain := [Link(Sibling, TagPart(name)), Link(Sibling, Compound([Any]))];
            InTree(t, []) && Plain(t, [], chain, name) && !EvaluatesExactly(t, [], chain, p)
  {
    hide IsTagWord, InTree, IsElement, Matches, PassesAll, StepSlot, ProperTree, Earlier, PreviousElement, StopsAt, Front;
    var chain := [Link(Sibling, TagPart(name)), Link(Sibling, Compound([Any]))];
    RootAbove(t, q);
    NothingNamed(t, name, chain, [], q, p);
    ElementBefore(t, name, p, q);
    var r := SomeElementBefore(t, q);
    TwoSteps(t, chain, p, q, El(r));
  }

  lemma ElementBefore(t: Tree, name: string, p: Path, q: Path)
    requires InTree(t, p) && InTree(t, q) && StopsAt(t, name, p, q)
    requires q != [] && InTree(t, Front(q)) && !IsElement(t, Front(q))
    ensures PreviousElement(t, q).Some? && StepSlot(t, Link(Sibling, TagPart(name)), El(p)) == El(q)
  {
    hide InTree, PreviousElement, StepSlot;
  }

  lemma RootAbove(t: Tree, q: Path)
    requires ProperTree(t) && q != [] && InTree(t, q) && InTree(t, Front(q)) && !IsElement(t, Front(q))
    ensures InTree(t, []) && !IsElement(t, [])
  {
    HasChild(t, q, |q| - 1);
    hide IsTagWord;
  }

  lemma SomeElementBefore(t: Tree, q: Path) returns (r: Path)
    requires InTree(t, q) && PreviousElement(t, q).Some?
    ensures InTree(t, r) && IsElement(t, r) && StepSlot(t, Link(Sibling, Compound([Any])), El(q)) == El(r)
  {
    hide InTree, IsElement, PassesAll, Accepts, Nearest, Front, PreviousElement, IsStepsAway;
    var part := Compound([Any]);
    var e := PreviousElement(t, q).value;
    assert Earlier(q, e) by { PreviousElementIs(t, q); }
    hide Earlier;
    EarlierIsLeft(t, q, e);
    AnyAccepts(t, e);
    r := NearestIs(t, Left, part, q);
    AnyAccepts(t, r);
  }

  lemma EarlierIsLeft(t: Tree, p: Path, q: Path)
    requires InTree(t, p) && InTree(t, q) && Earlier(p, q)
    ensures IsStepsAway(t, Left, p, q)
  {
  }

  lemma AnyAccepts(t: Tree, p: Path)
    ensures InTree(t, p) ==> (Accepts(t, Compound([Any]), p) <==> IsElement(t, p))
  {
    if InTree(t, p) { PassesOne(t, Any, p); }
    hide PassesAll, InTree;
  }

  // ---- ordinary pages ----

  /** The nodes with a word for a name are elements, but for some before the first element of the
      document, such as a doctype. */
  ghost predicate IsPage(t: Tree) {
    && ProperTree(t) && !IsElement(t, [])
    && forall q :: InTree(t, q) && IsTagWord(At(t, q).name) && !IsElement(t, q) ==> |q| == 1 && PreviousElement(t, q).None?
  }

  /** On such a page no name clashes, so soundness and completeness hold for all tag words and all
      candidates. */
  lemma PagesAreClear(t: Tree, ctx: Path, chain: seq<Link>)
    requires IsPage(t) && ProperChain(chain, ctx)
    ensures Proper(t, chain, ctx) && forall p :: InTree(t, p) ==> Starts(t, chain, p)
  {
    hide IsTagWord;
    forall name, q | IsTagWord(name) && InTree(t, q) ensures !Misleads(t, name, q) {
      if q != [] { LastInTree(t, q); assert |q| == 1 ==> Front(q) == []; }
    }
  }

  const DOCTYPE_PAGE := Tree(DOCUMENT, "#document", {}, [Tree(10, "html", {}, []), Tree(ELEMENT, "html", {}, [])])

  /** A document with a doctype is such a page. */
  lemma DoctypeIsFine()
    ensures IsPage(DOCTYPE_PAGE)
  {
    var t := DOCTYPE_PAGE;
    assert !Namespaces.IsWordChar("#document"[0]);
    forall q | InTree(t, q) && q != [] ensures q == [0] || (q == [1] && IsElement(t, q)) ensures At(t, q).children == [] {
      OneLevel(t, q);
    }
    assert PreviousSibling([0]) == None;
  }

  lemma OneLevel(t: Tree, q: Path)
    requires InTree(t, q) && q != []
    requires forall i :: 0 <= i < |t.children| ==> t.children[i].children == []
    ensures q[0] < |t.children| && q == [q[0]] && At(t, q) == t.children[q[0]]
  {
    if q[1..] != [] { assert false; }
    assert q == [q[0]] + q[1..];
  }

  // ---- a clash ----

  /** `div > span ~ *` on a paragraph that follows a processing instruction named `span`. */
  const CLASH := Tree(DOCUMENT, "#document", {},
    [Tree(ELEMENT, "div", {}, [Tree(7, "span", {}, []), Tree(ELEMENT, "p", {}, [])])])

  lemma ClashNodes()
    ensures InTree(CLASH, []) && InTree(CLASH, [0]) && InTree(CLASH, [0, 0]) && InTree(CLASH, [0, 1])
    ensures At(CLASH, [0]).name == "div" && IsElement(CLASH, [0]) && IsElement(CLASH, [0, 1]) && !IsElement(CLASH, [])
    ensures At(CLASH, [0, 0]).name == "span" && !IsElement(CLASH, [0, 0])
  {
    ChildInTree(CLASH, [], 0);
    ChildInTree(CLASH, [0], 0);
    ChildInTree(CLASH, [0], 1);
    assert [] + [0] == [0] && [0] + [0] == [0, 0] && [0] + [1] == [0, 1];
  }

  lemma ClashKeepsWrongNode()
    ensures var chain := [Link(Sibling, TagPart("span")), Link(Child, TagPart("div"))];
            && InTree(CLASH, []) && InTree(CLASH, [0, 1]) && IsElement(CLASH, [0, 1])
            && Final(CLASH, chain, El([0, 1])) == El([0]) && Kept(CLASH, [], El([0]))
            && !Matches(CLASH, [], chain, [0, 1])
            && !Clear(CLASH, "span")
  {
    var t := CLASH;
    var chain := [Link(Sibling, TagPart("span")), Link(Child, TagPart("div"))];
    var div: Path, span: Path, p: Path := [0], [0, 0], [0, 1];
    ClashNodes();
    hide InTree, At, IsElement;
    assert Front(p) == div && Front(span) == div && div + [0] == span;
    assert PreviousSibling(p) == Some(span);
    assert Judged(t, chain[1].part, div) == El(div);
    assert StepSlot(t, chain[1], El(span)) == Judged(t, chain[1].part, Front(span));
    assert NearestFrom(t, Left, chain[0].part, span) == El(span);
    assert StepSlot(t, chain[0], El(p)) == El(span);
    TwoSteps(t, chain, p, span, El(div));
    hide StepSlot, Final;
    assert Misleads(t, "span", span);
    assert !Straight(t, "span", p);
    forall r | InTree(t, r) && Earlier(p, r) ensures r == span { assert r == Front(r) + [Last(r)]; }
    assert StopsAt(t, "span", p, span);
    NothingNamed(t, "span", chain, [], span, p);
  }
}
