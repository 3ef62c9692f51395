/** One small page, on which selectors are seen to go wrong. */
module SamplePage {
  import opened Dom
  import opened Filtering
  import opened Walking
  import opened Selector
  import opened Sizzle
  import Namespaces

  /** html > div.c > p > b */
  const PAGE := Tree(DOCUMENT, "#document", {}, [HTML])
  const HTML := Tree(ELEMENT, "html", {}, [DIV])
  const DIV := Tree(ELEMENT, "div", {"c"}, [P])
  const P := Tree(ELEMENT, "p", {}, [B])
  const B := Tree(ELEMENT, "b", {}, [])

  lemma OnlyChildOf(t: Tree, p: Path)
    requires InTree(t, p) && |At(t, p).children| == 1
    ensures InTree(t, p + [0]) && At(t, p + [0]) == At(t, p).children[0]
    ensures IsFirst(t, p + [0])
  {
    ChildInTree(t, p, 0);
    LastInTree(t, p + [0]);
    NoElements(Siblings(t, p + [0]));
  }

  lemma PageNodes()
    ensures InTree(PAGE, [0]) && InTree(PAGE, [0, 0]) && InTree(PAGE, [0, 0, 0]) && InTree(PAGE, [0, 0, 0, 0])
    ensures At(PAGE, [0, 0]) == DIV && At(PAGE, [0]) == HTML
    ensures IsFirst(PAGE, []) && IsFirst(PAGE, [0]) && IsFirst(PAGE, [0, 0]) && IsFirst(PAGE, [0, 0, 0])
  {
    OnlyChildOf(PAGE, []);
    assert [] + [0] == [0];
    OnlyChildOf(PAGE, [0]);
    assert [0] + [0] == [0, 0];
    OnlyChildOf(PAGE, [0, 0]);
    assert [0, 0] + [0] == [0, 0, 0];
    OnlyChildOf(PAGE, [0, 0, 0]);
    assert [0, 0, 0] + [0] == [0, 0, 0, 0];
  }

  /** A child step to the parent. */
  lemma ToParent(t: Tree, part: Part, p: Path)
    requires InTree(t, p + [0]) && InTree(t, p)
    ensures StepSlot(t, Link(Child, part), El(p + [0])) == Judged(t, part, p)
  {
    assert Front(p + [0]) == p;
  }

  /** `.c > :first-child > *` on html and b: the slot of html becomes null, and so b is lost,
      although it matches. */
  lemma NullHidesMatch()
    ensures var chain := [Link(Child, Compound([FirstChild])), Link(Child, Compound([Feature("c")]))];
            var items := [[0], [0, 0, 0, 0]];
            var finals := Finals(PAGE, chain, SlotsOf(items));
            && InTree(PAGE, []) && InTree(PAGE, [0, 0, 0, 0])
            && finals == [Null, El([0, 0])] && Matches(PAGE, [], chain, [0, 0, 0, 0])
            && Collected(PAGE, [], finals, items) == []
  {
    var chain := [Link(Child, Compound([FirstChild])), Link(Child, Compound([Feature("c")]))];
    var b: Path := [0, 0, 0, 0];
    PageNodes();
    FirstSteps(chain);
    hide InTree, At, StepSlot;
    assert chain[1..] == [chain[1]] && chain[1..][1..] == [];
    assert Final(PAGE, chain, El([0])) == Final(PAGE, chain[1..], El([])) == Null;
    assert Final(PAGE, chain, El(b)) == Final(PAGE, chain[1..], El([0, 0, 0])) == El([0, 0]);
    var items := [[0], b];
    assert SlotsOf(items) == [El([0]), El(b)];
    var finals := Finals(PAGE, chain, SlotsOf(items));
    assert finals == [Null, El([0, 0])];
    assert InTree(PAGE, []) by { PageRoot(); }
    PageIsProper(chain);
    assert Kept(PAGE, [], El([0, 0]));
    EvaluationIsSound(PAGE, [], chain, b);
  }

  lemma PageRoot()
    ensures InTree(PAGE, []) && At(PAGE, []) == PAGE && !IsElement(PAGE, [])
  {
  }

  lemma FirstSteps(chain: seq<Link>)
    requires chain == [Link(Child, Compound([FirstChild])), Link(Child, Compound([Feature("c")]))]
    ensures StepSlot(PAGE, chain[0], El([0])) == El([]) && StepSlot(PAGE, chain[1], El([])) == Null
    ensures StepSlot(PAGE, chain[0], El([0, 0, 0, 0])) == El([0, 0, 0])
    ensures StepSlot(PAGE, chain[1], El([0, 0, 0])) == El([0, 0])
  {
    PageNodes();
    PageRoot();
    assert [] + [0] == [0] && [0, 0, 0] + [0] == [0, 0, 0, 0] && [0, 0] + [0] == [0, 0, 0];
    PassesOne(PAGE, FirstChild, []);
    PassesOne(PAGE, FirstChild, [0, 0, 0]);
    PassesOne(PAGE, Feature("c"), [0, 0]);
    ToParent(PAGE, chain[0].part, []);
    ToParent(PAGE, chain[0].part, [0, 0, 0]);
    ToParent(PAGE, chain[1].part, [0, 0]);
    StepIsNull(PAGE, chain[1], []);
    hide InTree, At, StepSlot, PassesAll, IsFirst;
  }

  lemma PageIsProper(chain: seq<Link>)
    requires forall i :: 0 <= i < |chain| ==> chain[i].part.Compound?
    ensures Proper(PAGE, chain, [])
  {
    assert !Namespaces.IsWordChar("#document"[0]);
    forall p | InTree(PAGE, p) ensures p == [] || IsElement(PAGE, p) { PageElements(p); }
  }

  lemma Elements(t: Tree, p: Path)
    requires InTree(t, p) && p != [] && |t.children| == 1
    ensures InTree(t.children[0], p[1..]) && At(t, p) == At(t.children[0], p[1..])
  {
  }

  lemma Leaf(t: Tree, p: Path)
    requires InTree(t, p) && t.children == []
    ensures p == []
  {
  }

  lemma PageElements(p: Path)
    requires InTree(PAGE, p)
    ensures p == [] || IsElement(PAGE, p)
  {
    if p != [] {
      Elements(PAGE, p);
      if p[1..] != [] {
        Elements(HTML, p[1..]);
        if p[1..][1..] != [] {
          Elements(DIV, p[1..][1..]);
          if p[1..][1..][1..] != [] {
            Elements(P, p[1..][1..][1..]);
            Leaf(B, p[1..][1..][1..][1..]);
          }
        }
      }
    }
  }

  /** `div > :first-child > *` on html throws. */
  lemma NullNameThrows()
    ensures Throws(PAGE, [Link(Child, Compound([FirstChild])), Link(Child, TagPart("div"))], SlotsOf([[0]]))
  {
    var chain := [Link(Child, Compound([FirstChild])), Link(Child, TagPart("div"))];
    PageNodes();
    PageRoot();
    PassesOne(PAGE, FirstChild, []);
    hide InTree, At, PassesAll, IsFirst;
    var part := chain[0].part;
    assert SlotsOf([[0]]) == [El([0])] && Front([0]) == [];
    assert Parents(PAGE, part, [El([0])]) == [El([])];
    assert Judge(PAGE, part, [El([])]) == [El([])];
    assert chain[1..] == [chain[1]];
    assert [El([])][0] == El([]);
  }

  /** `> *` in the document: html matches and is not kept. */
  lemma LeadingInDocument()
    ensures var chain := [Link(Child, Context([]))];
            && InTree(PAGE, []) && InTree(PAGE, [0])
            && Matches(PAGE, [], chain, [0]) && !Kept(PAGE, [], Final(PAGE, chain, El([0])))
  {
    var chain := [Link(Child, Context([]))];
    PageNodes();
    PageRoot();
    hide InTree, At;
    assert Front([0]) == [];
    assert Continues(PAGE, [], chain, [0], []);
    LeadingFindsNothing(PAGE, [], chain, [0]);
  }
}
