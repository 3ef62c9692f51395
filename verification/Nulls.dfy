/** Child steps from a node without parent: when they throw, when they leave a null, and when such
    a null hides other candidates from the loop that collects the results. */
module Nulls {
  import opened Wrappers
  import opened Dom
  import opened Filtering
  import opened Walking
  import opened Selector
  import opened Sizzle
  import Incomplete
  import Namespaces

  // ---- the look of a chain: all that matters here ----

  /** A tag word, other tests that the document node passes or fails, or the context. */
  datatype Kind = Word | Passing | Failing | Leftmost

  datatype Look = Look(comb: Combinator, kind: Kind)

  function LookOf(t: Tree, link: Link): Look {
    Look(link.comb,
         match link.part
         case TagPart(_) => Word
         case Compound(simples) => if PassesAll(t, simples, []) then Passing else Failing
         case Context(_) => Leftmost)
  }

  function Looks(t: Tree, chain: seq<Link>): (r: seq<Look>)
    ensures |r| == |chain| && forall i :: 0 <= i < |r| ==> r[i] == LookOf(t, chain[i])
  {
    seq(|chain|, i requires 0 <= i < |chain| => LookOf(t, chain[i]))
  }

  predicate IsLook(looks: seq<Look>) {
    forall i :: 0 <= i < |looks| && looks[i].kind.Leftmost? ==> i == |looks| - 1
  }

  /** Two child combinators in a row, of which the first has tests to its left that the document
      node passes, and the second something other than the context. */
  predicate SlipsAt(looks: seq<Look>, k: nat)
    requires k + 1 < |looks|
  {
    looks[k] == Look(Child, Passing) && looks[k + 1].comb.Child? && !looks[k + 1].kind.Leftmost?
  }

  ghost predicate Slippery(looks: seq<Look>) {
    exists k :: 0 <= k < |looks| - 1 && SlipsAt(looks, k)
  }

  // ---- pages ----

  ghost predicate IsDocument(t: Tree) {
    ProperTree(t) && !IsElement(t, []) && !IsTagWord(t.name)
  }

  /** A page, a context in it and a chain of the given look. */
  ghost predicate OnPage(looks: seq<Look>, t: Tree, ctx: Path, chain: seq<Link>) {
    IsDocument(t) && InTree(t, ctx) && Proper(t, chain, ctx) && Looks(t, chain) == looks
  }

  predicate AreBelow(t: Tree, items: seq<Path>) {
    forall i :: 0 <= i < |items| ==> InTree(t, items[i]) && items[i] != []
  }

  lemma SlipsByLook(looks: seq<Look>, t: Tree, ctx: Path, chain: seq<Link>, k: nat)
    requires OnPage(looks, t, ctx, chain) && k + 1 < |chain|
    ensures Slips(t, chain, k) <==> SlipsAt(looks, k)
  {
    hide PassesAll, IsTagWord;
    assert LookOf(t, chain[k]) == looks[k] && LookOf(t, chain[k + 1]) == looks[k + 1];
    RootIsNoWord(t, chain, ctx, k);
  }

  lemma RootIsNoWord(t: Tree, chain: seq<Link>, ctx: Path, k: nat)
    requires IsDocument(t) && ProperChain(chain, ctx) && k < |chain|
    ensures chain[k].part.TagPart? ==> At(t, []).name != chain[k].part.name
  {
  }

  // ---- the page that shows what can happen: a grid of elements that every part accepts ----

  ghost predicate IsGrid(t: Tree, size: nat, inDocument: bool) {
    && (forall p :: InTree(t, p) <==> Incomplete.Fits(p, size, size))
    && (forall p :: InTree(t, p) ==> (IsElement(t, p) <==> !inDocument || p != []))
    && (forall p :: InTree(t, p) ==> At(t, p).name == if inDocument && p == [] then "#document" else "div")
  }

  lemma GridOf(size: nat, inDocument: bool) returns (t: Tree)
    ensures IsGrid(t, size, inDocument)
  {
    hide Incomplete.Full;
    var prefix: Path := if inDocument then [] else [0];
    t := Incomplete.Full(size, size, prefix, []);
    forall p ensures InTree(t, p) <==> Incomplete.Fits(p, size, size) {
      Incomplete.FullHas(size, size, prefix, [], p);
    }
    forall p | InTree(t, p)
      ensures IsElement(t, p) <==> !inDocument || p != []
      ensures At(t, p).name == if inDocument && p == [] then "#document" else "div"
    {
      Incomplete.FullHas(size, size, prefix, [], p);
      assert inDocument ==> prefix + p == p;
    }
  }

  function PartOf(kind: Kind, ctx: Path): Part {
    match kind
    case Word => TagPart("div")
    case Passing => Compound([Nth(1, 0)])
    case Failing => Compound([Any])
    case Leftmost => Context(ctx)
  }

  function ChainOf(looks: seq<Look>, ctx: Path): (r: seq<Link>)
    ensures |r| == |looks| && forall i :: 0 <= i < |r| ==> r[i] == Link(looks[i].comb, PartOf(looks[i].kind, ctx))
  {
    seq(|looks|, i requires 0 <= i < |looks| => Link(looks[i].comb, PartOf(looks[i].kind, ctx)))
  }

  lemma ChainOfTail(looks: seq<Look>, ctx: Path)
    requires looks != []
    ensures ChainOf(looks, ctx)[1..] == ChainOf(looks[1..], ctx)
    ensures ChainOf(looks, ctx)[0] == Link(looks[0].comb, PartOf(looks[0].kind, ctx))
  {
  }

  lemma GridPasses(t: Tree, size: nat, inDocument: bool)
    requires IsGrid(t, size, inDocument)
    ensures forall p :: InTree(t, p) ==> PassesAll(t, [Nth(1, 0)], p) && (PassesAll(t, [Any], p) <==> IsElement(t, p))
  {
    hide InTree, IsElement;
    forall p | InTree(t, p)
      ensures PassesAll(t, [Nth(1, 0)], p) && (PassesAll(t, [Any], p) <==> IsElement(t, p))
    {
      PassesOne(t, Nth(1, 0), p);
      PassesOne(t, Any, p);
    }
  }

  lemma GridIsPage(t: Tree, size: nat, looks: seq<Look>, ctx: Path)
    requires IsGrid(t, size, true) && IsLook(looks) && InTree(t, ctx)
    ensures OnPage(looks, t, ctx, ChainOf(looks, ctx))
  {
    GridPasses(t, size, true);
    assert InTree(t, []);
    assert !Namespaces.IsWordChar("#document"[0]) && t.name == At(t, []).name;
    hide PassesAll, InTree, At;
    forall name, q | InTree(t, q) ensures !Misleads(t, name, q) { }
    assert Looks(t, ChainOf(looks, ctx)) == looks;
  }

  /** The node from which a combinator leads to `q` in one move. */
  function Unmove(c: Combinator, q: Path): (p: Path)
    requires q != []
    ensures p != []
  {
    if c.Child? || c.Descendant? then q + [0] else Front(q) + [Last(q) + 1]
  }

  /** The node from which the first `k` combinators lead to the first child of the root. */
  function Origin(looks: seq<Look>, k: nat): (p: Path)
    requires k <= |looks|
    ensures p != [] && Incomplete.Fits(p, k + 1, k + 1)
  {
    if k == 0 then [0] else Unmove(looks[0].comb, Origin(looks[1..], k - 1))
  }

  /** A slot of the grid before and after one step that nothing stops. */
  ghost predicate Moves(size: nat, look: Look, ctx: Path, s: Slot, s': Slot) {
    || (s == Null && s' == Null)
    || (s == El([]) && s' == Null && look.comb.Child? && (look.kind.Passing? || look.kind.Failing?))
    || (s == El([0]) && s' == El([]) && look == Look(Child, Passing))
    || exists q: Path :: q != [] && Climbs(size, look, ctx, q, s, s')
  }

  predicate Climbs(size: nat, look: Look, ctx: Path, q: Path, s: Slot, s': Slot)
    requires q != []
  {
    && Incomplete.Fits(Unmove(look.comb, q), size, size) && s == El(Unmove(look.comb, q))
    && (look.kind.Leftmost? ==> ctx == q) && s' == Found(PartOf(look.kind, ctx), q)
  }

  lemma UnmoveIs(c: Combinator, q: Path, size: nat)
    requires q != [] && Incomplete.Fits(Unmove(c, q), size, size)
    ensures Incomplete.Fits(q, size, size)
    ensures c.Child? || c.Descendant? ==> ParentNode(Unmove(c, q)) == Some(q)
    ensures c.Next? || c.Sibling? ==> PreviousSibling(Unmove(c, q)) == Some(q)
  {
    if c.Child? || c.Descendant? {
      assert Front(q + [0]) == q;
      assert forall i :: 0 <= i < |q| ==> (q + [0])[i] == q[i];
    } else {
      var p := Front(q) + [Last(q) + 1];
      assert Front(p) == Front(q) && q == Front(q) + [Last(q)];
      assert forall i :: 0 <= i < |q| - 1 ==> p[i] == q[i];
      assert p[|q| - 1] == Last(q) + 1;
    }
  }

  /** What each step does to such a slot. */
  lemma Climb(t: Tree, size: nat, inDocument: bool, look: Look, ctx: Path, q: Path)
    requires IsGrid(t, size, inDocument) && q != [] && Incomplete.Fits(Unmove(look.comb, q), size, size)
    requires look.kind.Leftmost? ==> ctx == q
    ensures var p, part := Unmove(look.comb, q), PartOf(look.kind, ctx);
            && InTree(t, p) && InTree(t, q) && Judged(t, part, q) == Found(part, q)
            && (part.Compound? ==> PassesAll(t, part.simples, q))
            && StepSlot(t, Link(look.comb, part), El(p)) == Found(part, q)
            && (look.comb.Next? ==> PreviousElement(t, p) == Some(q))
  {
    var p, part := Unmove(look.comb, q), PartOf(look.kind, ctx);
    UnmoveIs(look.comb, q, size);
    AcceptedOnGrid(t, size, inDocument, look.kind, ctx, q);
    assert InTree(t, p);
    hide IsGrid, Unmove, PartOf;
    Lands(t, look.comb, part, p, q);
  }

  lemma AcceptedOnGrid(t: Tree, size: nat, inDocument: bool, kind: Kind, ctx: Path, q: Path)
    requires IsGrid(t, size, inDocument) && q != [] && Incomplete.Fits(q, size, size)
    requires kind.Leftmost? ==> ctx == q
    ensures var part := PartOf(kind, ctx);
            && InTree(t, q) && IsElement(t, q) && Accepts(t, part, q) && Judged(t, part, q) == Found(part, q)
            && (part.Compound? ==> PassesAll(t, part.simples, q))
  {
    GridPasses(t, size, inDocument);
    assert InTree(t, q) && IsElement(t, q);
    hide PassesAll, InTree;
  }

  /** A step lands on an accepted element next to it. */
  lemma Lands(t: Tree, comb: Combinator, part: Part, p: Path, q: Path)
    requires InTree(t, p) && InTree(t, q) && IsElement(t, q) && Accepts(t, part, q) && Judged(t, part, q) == Found(part, q)
    requires comb.Child? || comb.Descendant? ==> ParentNode(p) == Some(q)
    requires comb.Next? || comb.Sibling? ==> PreviousSibling(p) == Some(q)
    ensures StepSlot(t, Link(comb, part), El(p)) == Found(part, q)
    ensures comb.Next? ==> PreviousElement(t, p) == Some(q)
  {
    hide InTree, IsElement, Accepts, Judged;
    match comb
    case Child =>
    case Next => assert PreviousElement(t, p) == Some(q);
    case Descendant => assert NearestFrom(t, Up, part, q) == Found(part, q);
    case Sibling => assert NearestFrom(t, Left, part, q) == Found(part, q);
  }

  /** A step turns one slot into the other, before and after filtering. */
  ghost predicate Turns(t: Tree, link: Link, s: Slot, s': Slot) {
    && StepSlot(t, link, s) == s'
    && (link.comb.Child? && !(link.part.TagPart? && s == El([])) ==>
          ParentSlot(t, link.part, s) == s' && (link.part.Compound? ==> Filtered(t, link.part.simples, s') == s'))
    && (link.comb.Next? ==>
          BesideSlot(t, link.part, s) == s' && (link.part.Compound? ==> Filtered(t, link.part.simples, s') == s'))
  }

  lemma MoveStep(t: Tree, size: nat, look: Look, ctx: Path, s: Slot, s': Slot)
    requires IsGrid(t, size, true) && size > 0 && Moves(size, look, ctx, s, s')
    ensures Turns(t, Link(look.comb, PartOf(look.kind, ctx)), s, s')
  {
    hide Turns, Climbs, Incomplete.Fits;
    if q: Path :| q != [] && Climbs(size, look, ctx, q, s, s') {
      ClimbTurns(t, size, look, ctx, q, s, s');
    } else if s == El([0]) {
      TopTurns(t, size, ctx);
    } else {
      RestTurns(t, look, ctx, s);
    }
  }

  lemma ClimbTurns(t: Tree, size: nat, look: Look, ctx: Path, q: Path, s: Slot, s': Slot)
    requires IsGrid(t, size, true) && q != [] && Climbs(size, look, ctx, q, s, s')
    ensures Turns(t, Link(look.comb, PartOf(look.kind, ctx)), s, s')
  {
    Climb(t, size, true, look, ctx, q);
    UnmoveIs(look.comb, q, size);
    hide InTree, IsElement, PassesAll, Incomplete.Fits, Unmove, Judged, Nearest;
  }

  lemma TopTurns(t: Tree, size: nat, ctx: Path)
    requires IsGrid(t, size, true) && size > 0
    ensures Turns(t, Link(Child, PartOf(Passing, ctx)), El([0]), El([]))
  {
    GridPasses(t, size, true);
    GridTop(t, size);
    assert Front([0]) == [];
    hide PassesAll, IsGrid, InTree, IsElement;
  }

  lemma RestTurns(t: Tree, look: Look, ctx: Path, s: Slot)
    requires s == Null || (s == El([]) && look.comb.Child? && (look.kind.Passing? || look.kind.Failing?))
    ensures Turns(t, Link(look.comb, PartOf(look.kind, ctx)), s, Null)
  {
    assert InTree(t, []);
    hide InTree, PassesAll;
  }

  /** Judging two slots that pass changes nothing. */
  lemma JudgePair(t: Tree, part: Part, mid: seq<Slot>)
    requires |mid| == 2
    requires part.Compound? ==> Filtered(t, part.simples, mid[0]) == mid[0] && Filtered(t, part.simples, mid[1]) == mid[1]
    ensures Judge(t, part, mid) == mid
  {
    hide FirstNull, Filtered;
  }

  /** Two slots that nothing stops. */
  lemma PairMoves(t: Tree, size: nat, look: Look, ctx: Path, a: Slot, b: Slot, a': Slot, b': Slot)
    requires IsGrid(t, size, true) && size > 0
    requires Moves(size, look, ctx, a, a') && Moves(size, look, ctx, b, b')
    requires look.kind.Word? ==> a != El([]) && b != El([])
    ensures ArrayStep(t, Link(look.comb, PartOf(look.kind, ctx)), [a, b]) == [a', b']
    ensures !StepThrows(Link(look.comb, PartOf(look.kind, ctx)), [a, b])
  {
    hide StepSlot, Moves, IsGrid, ParentSlot, BesideSlot, Filtered, Judge;
    var part := PartOf(look.kind, ctx);
    MoveStep(t, size, look, ctx, a, a');
    MoveStep(t, size, look, ctx, b, b');
    match look.comb
    case Child =>
      assert Parents(t, part, [a, b]) == [a', b'];
      JudgePair(t, part, [a', b']);
    case Next =>
      assert Besides(t, part, [a, b]) == [a', b'];
      JudgePair(t, part, [a', b']);
    case Descendant => assert Stepped(t, Link(Descendant, part), [a, b]) == [a', b'];
    case Sibling => assert Stepped(t, Link(Sibling, part), [a, b]) == [a', b'];
  }

  lemma OriginMoves(size: nat, looks: seq<Look>, k: nat, ctx: Path)
    requires 0 < k <= |looks| && k < size && IsLook(looks)
    requires looks[0].kind.Leftmost? ==> ctx == [0]
    ensures Moves(size, looks[0], ctx, El(Origin(looks, k)), Found(PartOf(looks[0].kind, ctx), Origin(looks[1..], k - 1)))
    ensures IsLook(looks[1..])
  {
    var q := Origin(looks[1..], k - 1);
    assert forall i :: 0 <= i < |looks[1..]| ==> looks[1..][i] == looks[i + 1];
    assert Climbs(size, looks[0], ctx, q, El(Origin(looks, k)), Found(PartOf(looks[0].kind, ctx), q));
  }

  // ---- what the witnesses do ----

  /** The first step of a candidate on the grid. */
  lemma OriginStep(t: Tree, size: nat, inDocument: bool, looks: seq<Look>, ctx: Path, k: nat)
    requires IsGrid(t, size, inDocument) && IsLook(looks) && 0 < k <= |looks| && k < size
    requires looks[0].kind.Leftmost? ==> ctx == [0]
    ensures StepSlot(t, Link(looks[0].comb, PartOf(looks[0].kind, ctx)), El(Origin(looks, k)))
            == Found(PartOf(looks[0].kind, ctx), Origin(looks[1..], k - 1))
    ensures IsLook(looks[1..])
  {
    LookTail(looks, 1);
    var q := Origin(looks[1..], k - 1);
    assert Origin(looks, k) == Unmove(looks[0].comb, q);
    hide IsGrid, StepSlot, Unmove;
    Climb(t, size, inDocument, looks[0], ctx, q);
  }

  /** Along the grid a candidate comes to the first child of the root. */
  lemma {:induction false} RunToTop(t: Tree, size: nat, inDocument: bool, looks: seq<Look>, ctx: Path, k: nat)
    requires IsGrid(t, size, inDocument) && IsLook(looks) && k < |looks| && k < size
    ensures Final(t, ChainOf(looks, ctx), El(Origin(looks, k))) == Final(t, ChainOf(looks[k..], ctx), El([0]))
    decreases k
  {
    hide IsGrid, StepSlot, Unmove, ChainOf, IsLook;
    if k == 0 {
      assert looks[0..] == looks;
    } else {
      assert !looks[0].kind.Leftmost? by { NotYetLeftmost(looks, 0); }
      OriginStep(t, size, inDocument, looks, ctx, k);
      ChainOfTail(looks, ctx);
      RunToTop(t, size, inDocument, looks[1..], ctx, k - 1);
      assert looks[1..][k - 1..] == looks[k..];
    }
  }

  /** ... or to what the whole chain asks for. */
  lemma {:induction false} RunToEnd(t: Tree, size: nat, looks: seq<Look>, ctx: Path)
    requires IsGrid(t, size, true) && IsLook(looks) && |looks| < size
    requires ctx == ContextFor(looks)
    ensures Final(t, ChainOf(looks, ctx), El(Origin(looks, |looks|))) == if EndsLeftmost(looks) then True else El([0])
    decreases |looks|
  {
    hide IsGrid, StepSlot, Unmove, ChainOf;
    if looks == [] {
      assert ChainOf(looks, ctx) == [];
    } else {
      OriginStep(t, size, true, looks, ctx, |looks|);
      ChainOfTail(looks, ctx);
      if looks[0].kind.Leftmost? {
        FinalOfDead(t, ChainOf(looks[1..], ctx), True);
      } else {
        LookTail(looks, 1);
        ContextTail(looks);
        RunToEnd(t, size, looks[1..], ctx);
      }
    }
  }

  predicate EndsLeftmost(looks: seq<Look>) { looks != [] && looks[|looks| - 1].kind.Leftmost? }

  function ContextFor(looks: seq<Look>): Path { if EndsLeftmost(looks) then [0] else [] }

  lemma ContextTail(looks: seq<Look>)
    requires looks != [] && !looks[0].kind.Leftmost?
    ensures EndsLeftmost(looks[1..]) == EndsLeftmost(looks) && ContextFor(looks[1..]) == ContextFor(looks)
  {
    if |looks| > 1 { assert looks[1..][|looks| - 2] == looks[|looks| - 1]; }
  }

  lemma NotYetLeftmost(looks: seq<Look>, i: nat)
    requires IsLook(looks) && i + 1 < |looks|
    ensures !looks[i].kind.Leftmost?
  {
  }

  lemma LookTail(looks: seq<Look>, k: nat)
    requires IsLook(looks) && k <= |looks|
    ensures IsLook(looks[k..]) && forall i :: 0 <= i < |looks| - k ==> looks[k..][i] == looks[k + i]
  {
  }

  /** From there two child steps end in a null. */
  lemma TopFalls(t: Tree, size: nat, looks: seq<Look>, ctx: Path)
    requires IsGrid(t, size, true) && size > 0 && IsLook(looks) && |looks| > 1 && SlipsAt(looks, 0)
    ensures Final(t, ChainOf(looks, ctx), El([0])) == Null
  {
    hide IsGrid, StepSlot, ChainOf;
    var rest := looks[1..];
    ChainOfTail(looks, ctx);
    ChainOfTail(rest, ctx);
    MoveStep(t, size, looks[0], ctx, El([0]), El([]));
    assert InTree(t, []);
    StepIsNull(t, ChainOf(rest, ctx)[0], []);
    FinalOfDead(t, ChainOf(rest[1..], ctx), Null);
  }

  lemma NullOnGrid(t: Tree, size: nat, looks: seq<Look>, ctx: Path, k: nat)
    requires IsGrid(t, size, true) && size > |looks| && IsLook(looks) && k + 1 < |looks| && SlipsAt(looks, k)
    ensures InTree(t, Origin(looks, k)) && Final(t, ChainOf(looks, ctx), El(Origin(looks, k))) == Null
  {
    RunToTop(t, size, true, looks, ctx, k);
    LookTail(looks, k);
    TopFalls(t, size, looks[k..], ctx);
    assert Incomplete.Fits(Origin(looks, k), size, size);
    hide ChainOf, Final;
  }

  /** On pages, a slot can become null in a chain exactly if its look is slippery. */
  lemma NullsExactly(looks: seq<Look>)
    requires IsLook(looks)
    ensures Slippery(looks)
            <==> exists t, ctx, chain, p :: OnPage(looks, t, ctx, chain) && InTree(t, p) && p != [] && Final(t, chain, El(p)) == Null
  {
    hide IsLook, Final, SlipsAt, ChainOf, IsGrid, OnPage;
    if k :| 0 <= k < |looks| - 1 && SlipsAt(looks, k) {
      var size := |looks| + 1;
      var t := GridOf(size, true);
      NullOnGrid(t, size, looks, [], k);
      GridIsPage(t, size, looks, []);
      assert OnPage(looks, t, [], ChainOf(looks, [])) && Final(t, ChainOf(looks, []), El(Origin(looks, k))) == Null;
    }
    if t, ctx, chain, p :| OnPage(looks, t, ctx, chain) && InTree(t, p) && p != [] && Final(t, chain, El(p)) == Null {
      NullMeansSlip(looks, t, ctx, chain, p);
    }
  }

  lemma NullMeansSlip(looks: seq<Look>, t: Tree, ctx: Path, chain: seq<Link>, p: Path)
    requires OnPage(looks, t, ctx, chain) && InTree(t, p) && p != [] && Final(t, chain, El(p)) == Null
    ensures Slippery(looks)
  {
    hide InTree, Slips, SlipsAt, Final;
    assert |chain| == |looks| by { OnPageLength(looks, t, ctx, chain); }
    hide OnPage;
    if NoSlip(t, chain) {
      NoNulls(t, chain, p);
    } else {
      var k :| 0 <= k < |chain| - 1 && Slips(t, chain, k);
      SlipsByLook(looks, t, ctx, chain, k);
    }
  }

  lemma OnPageLength(looks: seq<Look>, t: Tree, ctx: Path, chain: seq<Link>)
    requires OnPage(looks, t, ctx, chain)
    ensures |chain| == |looks|
  {
  }

  // ---- throwing ----

  /** A tag word asks for the name of the document's parent.  The step before it is a child step
      whose tests the document node passes, or fails behind a null, where nothing is filtered. */
  ghost predicate ThrowsAt(looks: seq<Look>, j: nat)
    requires 1 <= j < |looks|
  {
    looks[j] == Look(Child, Word) && RootBefore(looks, j)
  }

  ghost predicate RootBefore(looks: seq<Look>, n: nat)
    requires n <= |looks|
  {
    n >= 1 && looks[n - 1].comb.Child?
    && (looks[n - 1].kind.Passing? || (looks[n - 1].kind.Failing? && NullBefore(looks, n)))
  }

  /** A step before the first `n` are done can have left a null. */
  ghost predicate NullBefore(looks: seq<Look>, n: nat)
    requires n <= |looks|
  {
    exists k :: 0 <= k < n - 1 && SlipsAt(looks, k)
  }

  ghost predicate CanThrow(looks: seq<Look>) {
    exists j :: 1 <= j < |looks| && ThrowsAt(looks, j)
  }

  predicate AllKnown(t: Tree, slots: seq<Slot>) {
    forall i :: 0 <= i < |slots| && slots[i].El? ==> InTree(t, slots[i].p)
  }

  /** What one step can do to the array of slots. */
  lemma {:induction false} StepOrigins(t: Tree, ctx: Path, link: Link, slots: seq<Slot>)
    requires IsDocument(t) && AllKnown(t, slots) && (link.part.TagPart? ==> IsTagWord(link.part.name))
    ensures var after := ArrayStep(t, link, slots);
            && AllKnown(t, after)
            && (Null in after ==> Null in slots || (El([]) in slots && NeedsParent(link)))
            && (El([]) in after ==> link.comb.Child? && link.part.Compound?
                                    && (PassesAll(t, link.part.simples, []) || Null in after))
  {
    hide InTree, PassesAll, IsTagWord, FirstNull;
    match link.comb
    case Child => ParentOrigins(t, link.part, slots);
    case Next => BesideOrigins(t, link.part, slots);
    case Descendant => WalkOrigins(t, link, slots);
    case Sibling => WalkOrigins(t, link, slots);
  }

  lemma ParentOrigins(t: Tree, part: Part, slots: seq<Slot>)
    requires IsDocument(t) && AllKnown(t, slots) && (part.TagPart? ==> IsTagWord(part.name))
    ensures var after := Judge(t, part, Parents(t, part, slots));
            && AllKnown(t, after)
            && (Null in after ==> Null in slots || (El([]) in slots && !part.Context?))
            && (El([]) in after ==> part.Compound? && (PassesAll(t, part.simples, []) || Null in after))
  {
    var mid := Parents(t, part, slots);
    forall i | 0 <= i < |slots|
      ensures mid[i].El? ==> InTree(t, mid[i].p)
      ensures mid[i] == Null ==> slots[i] == Null || (slots[i] == El([]) && !part.Context?)
      ensures mid[i] == El([]) ==> part.Compound?
    {
      ParentOrigin(t, part, slots[i]);
    }
    JudgeOrigins(t, part, mid);
  }

  lemma ParentOrigin(t: Tree, part: Part, slot: Slot)
    requires IsDocument(t) && (slot.El? ==> InTree(t, slot.p)) && (part.TagPart? ==> IsTagWord(part.name))
    ensures var m := ParentSlot(t, part, slot);
            && (m.El? ==> InTree(t, m.p))
            && (m == Null ==> slot == Null || (slot == El([]) && !part.Context?))
            && (m == El([]) ==> part.Compound?)
  {
    hide PassesAll, IsTagWord;
    if slot.El? && slot.p != [] { LastInTree(t, slot.p); }
  }

  lemma JudgeOrigins(t: Tree, part: Part, mid: seq<Slot>)
    requires AllKnown(t, mid)
    ensures var after := Judge(t, part, mid);
            && AllKnown(t, after) && (Null in after <==> Null in mid)
            && (El([]) in after ==> El([]) in mid && (part.Compound? ==> PassesAll(t, part.simples, []) || Null in mid))
  {
    hide InTree, PassesAll;
    var after := Judge(t, part, mid);
    if Null in mid {
      var i :| 0 <= i < |mid| && mid[i] == Null;
      assert after[i] == Null;
    } else {
      AllLive(mid);
    }
  }

  lemma BesideOrigins(t: Tree, part: Part, slots: seq<Slot>)
    requires IsDocument(t) && AllKnown(t, slots)
    ensures var after := Judge(t, part, Besides(t, part, slots));
            AllKnown(t, after) && (Null in after ==> Null in slots) && El([]) !in after
  {
    var mid := Besides(t, part, slots);
    forall i | 0 <= i < |slots|
      ensures mid[i].El? ==> InTree(t, mid[i].p) && mid[i].p != []
      ensures mid[i] == Null ==> slots[i] == Null
    {
      hide PassesAll;
      if slots[i].El? { PreviousElementIs(t, slots[i].p); }
    }
    JudgeOrigins(t, part, mid);
  }

  lemma WalkOrigins(t: Tree, link: Link, slots: seq<Slot>)
    requires IsDocument(t) && AllKnown(t, slots) && (link.comb.Descendant? || link.comb.Sibling?)
    requires link.part.TagPart? ==> IsTagWord(link.part.name)
    ensures var after := Stepped(t, link, slots);
            AllKnown(t, after) && (Null in after ==> Null in slots) && El([]) !in after
  {
    hide PassesAll, IsTagWord, InTree;
    var after := Stepped(t, link, slots);
    forall i | 0 <= i < |slots|
      ensures after[i].El? ==> InTree(t, after[i].p)
      ensures after[i] == Null ==> slots[i] == Null
      ensures after[i] != El([])
    {
      if slots[i].El? {
        StepInside(t, link, slots[i].p);
        StepIsNull(t, link, slots[i].p);
        if after[i] == El([]) { StepToRoot(t, link, slots[i].p); }
      }
    }
  }

  /** What can be in the array before step `n`. */
  ghost predicate Reached(looks: seq<Look>, n: nat, slots: seq<Slot>)
    requires n <= |looks|
  {
    (Null in slots ==> NullBefore(looks, n)) && (El([]) in slots ==> RootBefore(looks, n))
  }

  lemma NullBeforeGrows(looks: seq<Look>, n: nat)
    requires n < |looks|
    ensures NullBefore(looks, n) ==> NullBefore(looks, n + 1)
    ensures n >= 1 && SlipsAt(looks, n - 1) ==> NullBefore(looks, n + 1)
  {
    hide SlipsAt;
  }

  lemma ReachedStep(looks: seq<Look>, t: Tree, ctx: Path, chain: seq<Link>, n: nat, slots: seq<Slot>)
    requires OnPage(looks, t, ctx, chain) && n < |looks| && AllKnown(t, slots) && Reached(looks, n, slots)
    ensures var after := ArrayStep(t, chain[n], slots); AllKnown(t, after) && Reached(looks, n + 1, after)
    ensures StepThrows(chain[n], slots) ==> CanThrow(looks)
  {
    assert looks[n] == LookOf(t, chain[n]);
    assert chain[n].part.TagPart? ==> IsTagWord(chain[n].part.name);
    StepOrigins(t, ctx, chain[n], slots);
    NullBeforeGrows(looks, n);
    hide InTree, PassesAll, IsTagWord, ArrayStep, NullBefore, ProperTree, SiblingTagsClear;
    if StepThrows(chain[n], slots) { assert ThrowsAt(looks, n); }
  }

  lemma {:induction false} ThrowsMeansLook(looks: seq<Look>, t: Tree, ctx: Path, chain: seq<Link>, n: nat, slots: seq<Slot>)
    requires OnPage(looks, t, ctx, chain) && n <= |chain| == |looks| && AllKnown(t, slots) && Reached(looks, n, slots)
    requires Throws(t, chain[n..], slots)
    ensures CanThrow(looks)
    decreases |chain| - n
  {
    hide OnPage, AllKnown, Reached, CanThrow, ArrayStep, StepThrows;
    assert chain[n..][0] == chain[n] && chain[n..][1..] == chain[n + 1..];
    ReachedStep(looks, t, ctx, chain, n, slots);
    if !StepThrows(chain[n], slots) {
      ThrowsMeansLook(looks, t, ctx, chain, n + 1, ArrayStep(t, chain[n], slots));
    }
  }

  /** The first `k` steps of two candidates on the grid. */
  lemma {:induction false} RunPair(t: Tree, size: nat, looks: seq<Look>, ctx: Path, k: nat, m: nat)
    requires IsGrid(t, size, true) && IsLook(looks) && k <= m <= |looks| && m < size && k < |looks|
    ensures Throws(t, ChainOf(looks, ctx), [El(Origin(looks, k)), El(Origin(looks, m))])
            <==> Throws(t, ChainOf(looks[k..], ctx), [El([0]), El(Origin(looks[k..], m - k))])
    decreases k
  {
    hide IsGrid, StepThrows, ArrayStep, Moves, Unmove, ChainOf, IsLook;
    if k == 0 {
      assert looks[0..] == looks;
    } else {
      NotYetLeftmost(looks, 0);
      OriginMoves(size, looks, k, ctx);
      OriginMoves(size, looks, m, ctx);
      var a, b := El(Origin(looks[1..], k - 1)), El(Origin(looks[1..], m - 1));
      PairMoves(t, size, looks[0], ctx, El(Origin(looks, k)), El(Origin(looks, m)), a, b);
      ChainOfTail(looks, ctx);
      RunPair(t, size, looks[1..], ctx, k - 1, m - 1);
      assert looks[1..][k - 1..] == looks[k..];
    }
  }

  /** Behind a null a candidate goes on alone. */
  lemma {:induction false} RunBehind(t: Tree, size: nat, looks: seq<Look>, ctx: Path, m: nat)
    requires IsGrid(t, size, true) && IsLook(looks) && m < |looks| && m < size
    ensures Throws(t, ChainOf(looks, ctx), [Null, El(Origin(looks, m))])
            <==> Throws(t, ChainOf(looks[m..], ctx), [Null, El([0])])
    decreases m
  {
    hide IsGrid, StepThrows, ArrayStep, Unmove, ChainOf, IsLook;
    if m == 0 {
      assert looks[0..] == looks;
    } else {
      NotYetLeftmost(looks, 0);
      OriginMoves(size, looks, m, ctx);
      PairMoves(t, size, looks[0], ctx, Null, El(Origin(looks, m)), Null, El(Origin(looks[1..], m - 1)));
      ChainOfTail(looks, ctx);
      RunBehind(t, size, looks[1..], ctx, m - 1);
      assert looks[1..][m - 1..] == looks[m..];
    }
  }

  /** The step before: the document node passes. */
  lemma PassedThenThrows(t: Tree, size: nat, looks: seq<Look>, ctx: Path)
    requires IsGrid(t, size, true) && size > 0 && |looks| > 1
    requires looks[0] == Look(Child, Passing) && looks[1] == Look(Child, Word)
    ensures Throws(t, ChainOf(looks, ctx), [El([0]), El([0])])
  {
    hide IsGrid, ArrayStep, ChainOf;
    PairMoves(t, size, looks[0], ctx, El([0]), El([0]), El([]), El([]));
    ChainOfTail(looks, ctx);
    ChainOfTail(looks[1..], ctx);
    assert El([]) in [El([]), El([])] by { assert [El([]), El([])][0] == El([]); }
  }

  /** The step before: the document node fails, but the other slot is or becomes null. */
  lemma FailedThenThrows(t: Tree, size: nat, looks: seq<Look>, ctx: Path, first: Slot)
    requires IsGrid(t, size, true) && size > 0 && |looks| > 1 && (first == Null || first == El([]))
    requires looks[0] == Look(Child, Failing) && looks[1] == Look(Child, Word)
    ensures Throws(t, ChainOf(looks, ctx), [first, El([0])])
  {
    var part := PartOf(Failing, ctx);
    assert Incomplete.Fits([0], size, size) && Front([0]) == [];
    hide IsGrid, ChainOf;
    assert Parents(t, part, [first, El([0])]) == [Null, El([])];
    assert FirstNull([Null, El([])]) == 0;
    assert Judge(t, part, [Null, El([])]) == [Null, El([])];
    ChainOfTail(looks, ctx);
    ChainOfTail(looks[1..], ctx);
    assert El([]) in [Null, El([])] by { assert [Null, El([])][1] == El([]); }
  }

  /** Two child steps down to the null, and the other candidate one step behind. */
  lemma SlipPair(t: Tree, size: nat, looks: seq<Look>, ctx: Path, m: nat)
    requires IsGrid(t, size, true) && IsLook(looks) && 2 <= m <= |looks| && m < size
    requires SlipsAt(looks, 0) && !looks[1].kind.Word?
    ensures Throws(t, ChainOf(looks, ctx), [El([0]), El(Origin(looks, m))])
            <==> Throws(t, ChainOf(looks[2..], ctx), [Null, El(Origin(looks[2..], m - 2))])
  {
    hide IsGrid, StepThrows, ArrayStep, Unmove, ChainOf;
    var rest := looks[1..];
    LookTail(looks, 1);
    OriginMoves(size, looks, m, ctx);
    PairMoves(t, size, looks[0], ctx, El([0]), El(Origin(looks, m)), El([]), El(Origin(rest, m - 1)));
    OriginMoves(size, rest, m - 1, ctx);
    PairMoves(t, size, rest[0], ctx, El([]), El(Origin(rest, m - 1)), Null, El(Origin(rest[1..], m - 2)));
    ChainOfTail(looks, ctx);
    ChainOfTail(rest, ctx);
    assert rest[1..] == looks[2..];
  }

  lemma ThrowOnGrid(t: Tree, size: nat, looks: seq<Look>, ctx: Path, j: nat) returns (items: seq<Path>)
    requires IsGrid(t, size, true) && size > |looks| && IsLook(looks) && 1 <= j < |looks| && ThrowsAt(looks, j)
    ensures AreBelow(t, items) && Throws(t, ChainOf(looks, ctx), SlotsOf(items))
  {
    hide IsGrid, Throws, ChainOf, Unmove, SlipsAt;
    if looks[j - 1].kind.Passing? {
      items := [Origin(looks, j - 1), Origin(looks, j - 1)];
      ThrowAtRoot(t, size, looks, ctx, j);
    } else {
      var k :| 0 <= k < j - 1 && SlipsAt(looks, k);
      items := ThrowBehindNull(t, size, looks, ctx, j, k);
    }
    OnGrid(t, size, items);
  }

  lemma OnGrid(t: Tree, size: nat, items: seq<Path>)
    requires IsGrid(t, size, true)
    requires forall i :: 0 <= i < |items| ==> items[i] != [] && Incomplete.Fits(items[i], size, size)
    ensures AreBelow(t, items)
  {
  }

  lemma ThrowAtRoot(t: Tree, size: nat, looks: seq<Look>, ctx: Path, j: nat)
    requires IsGrid(t, size, true) && size > |looks| && IsLook(looks) && 1 <= j < |looks|
    requires looks[j] == Look(Child, Word) && looks[j - 1] == Look(Child, Passing)
    ensures var p := Origin(looks, j - 1); Throws(t, ChainOf(looks, ctx), SlotsOf([p, p]))
  {
    hide IsGrid, Throws, ChainOf, Unmove;
    LookTail(looks, j - 1);
    var p := Origin(looks, j - 1);
    assert SlotsOf([p, p]) == [El(p), El(p)];
    RunPair(t, size, looks, ctx, j - 1, j - 1);
    assert Origin(looks[j - 1..], 0) == [0];
    PassedThenThrows(t, size, looks[j - 1..], ctx);
  }

  lemma ThrowBehindNull(t: Tree, size: nat, looks: seq<Look>, ctx: Path, j: nat, k: nat) returns (items: seq<Path>)
    requires IsGrid(t, size, true) && size > |looks| && IsLook(looks) && 1 <= j < |looks| && k < j - 1 && SlipsAt(looks, k)
    requires looks[j] == Look(Child, Word) && looks[j - 1] == Look(Child, Failing)
    ensures items == [Origin(looks, k), Origin(looks, j - 1)] || items == [Origin(looks, k), Origin(looks, k)]
    ensures Throws(t, ChainOf(looks, ctx), SlotsOf(items))
  {
    hide IsGrid, Throws, ChainOf, Unmove;
    var rest := looks[k..];
    LookTail(looks, k);
    if rest[1].kind.Word? {
      items := [Origin(looks, k), Origin(looks, k)];
      assert SlotsOf(items) == [El(Origin(looks, k)), El(Origin(looks, k))];
      RunPair(t, size, looks, ctx, k, k);
      assert Origin(rest, 0) == [0];
      PassedThenThrows(t, size, rest, ctx);
    } else {
      items := [Origin(looks, k), Origin(looks, j - 1)];
      assert SlotsOf(items) == [El(Origin(looks, k)), El(Origin(looks, j - 1))];
      RunPair(t, size, looks, ctx, k, j - 1);
      FallThenThrow(t, size, rest, ctx, j - k);
    }
  }

  lemma FallThenThrow(t: Tree, size: nat, looks: seq<Look>, ctx: Path, j: nat)
    requires IsGrid(t, size, true) && size > |looks| && IsLook(looks) && 2 <= j < |looks|
    requires SlipsAt(looks, 0) && !looks[1].kind.Word?
    requires looks[j] == Look(Child, Word) && looks[j - 1] == Look(Child, Failing)
    ensures Throws(t, ChainOf(looks, ctx), [El([0]), El(Origin(looks, j - 1))])
  {
    hide IsGrid, StepThrows, ArrayStep, Unmove, ChainOf;
    var rest := looks[1..];
    LookTail(looks, 1);
    ChainOfTail(looks, ctx);
    if j == 2 {
      OriginMoves(size, looks, 1, ctx);
      assert Origin(rest, 0) == [0];
      PairMoves(t, size, looks[0], ctx, El([0]), El(Origin(looks, 1)), El([]), El([0]));
      FailedThenThrows(t, size, rest, ctx, El([]));
    } else {
      SlipPair(t, size, looks, ctx, j - 1);
      LookTail(looks, 2);
      RunBehind(t, size, looks[2..], ctx, j - 3);
      LookTail(looks, j - 1);
      assert looks[2..][j - 3..] == looks[j - 1..];
      FailedThenThrows(t, size, looks[j - 1..], ctx, Null);
    }
  }

  /** On pages, evaluation can throw in a chain exactly if its look says so. */
  lemma ThrowsExactly(looks: seq<Look>)
    requires IsLook(looks)
    ensures CanThrow(looks)
            <==> exists t, ctx, chain, items :: OnPage(looks, t, ctx, chain) && AreBelow(t, items) && Throws(t, chain, SlotsOf(items))
  {
    hide IsLook, Throws, ThrowsAt, ChainOf, IsGrid, OnPage, AreBelow;
    if j :| 1 <= j < |looks| && ThrowsAt(looks, j) {
      var size := |looks| + 1;
      var t := GridOf(size, true);
      var items := ThrowOnGrid(t, size, looks, [], j);
      GridIsPage(t, size, looks, []);
    }
    if t, ctx, chain, items :| OnPage(looks, t, ctx, chain) && AreBelow(t, items) && Throws(t, chain, SlotsOf(items)) {
      OnPageLength(looks, t, ctx, chain);
      StartReached(looks, t, items);
      assert chain[0..] == chain;
      ThrowsMeansLook(looks, t, ctx, chain, 0, SlotsOf(items));
    }
  }

  lemma StartReached(looks: seq<Look>, t: Tree, items: seq<Path>)
    requires AreBelow(t, items)
    ensures AllKnown(t, SlotsOf(items)) && Reached(looks, 0, SlotsOf(items))
  {
  }

  // ---- hiding without throwing ----

  ghost predicate CanHide(looks: seq<Look>) {
    exists k :: 0 <= k < |looks| - 1 && SlipsAt(looks, k) && !looks[k + 1].kind.Word?
  }

  /** If every slip is followed by a tag word, the first null to come up throws instead. */
  lemma {:induction false} NoQuietNull(looks: seq<Look>, t: Tree, ctx: Path, chain: seq<Link>, n: nat, slots: seq<Slot>)
    requires OnPage(looks, t, ctx, chain) && n <= |chain| == |looks| && AllKnown(t, slots)
    requires Null !in slots && (El([]) in slots ==> n >= 1 && looks[n - 1] == Look(Child, Passing))
    requires !CanHide(looks) && !Throws(t, chain[n..], slots)
    ensures forall i :: 0 <= i < |slots| ==> Final(t, chain[n..], slots[i]) != Null
    decreases |chain| - n
  {
    if n < |chain| {
      var rest := chain[n..];
      assert rest[0] == chain[n] && rest[1..] == chain[n + 1..];
      var after := ArrayStep(t, chain[n], slots);
      QuietStep(looks, t, ctx, chain, n, slots);
      hide OnPage, AllKnown, CanHide, ArrayStep, StepThrows, StepSlot;
      NoQuietNull(looks, t, ctx, chain, n + 1, after);
      forall i | 0 <= i < |slots| ensures Final(t, rest, slots[i]) != Null {
        assert after[i] == StepSlot(t, chain[n], slots[i]);
      }
    }
  }

  lemma SlipHere(looks: seq<Look>, n: nat)
    requires 1 <= n < |looks| && looks[n - 1] == Look(Child, Passing) && looks[n].comb.Child? && !looks[n].kind.Leftmost?
    ensures CanHide(looks) || looks[n].kind.Word?
  {
    assert SlipsAt(looks, n - 1);
  }

  lemma QuietStep(looks: seq<Look>, t: Tree, ctx: Path, chain: seq<Link>, n: nat, slots: seq<Slot>)
    requires OnPage(looks, t, ctx, chain) && n < |chain| == |looks| && AllKnown(t, slots)
    requires Null !in slots && (El([]) in slots ==> n >= 1 && looks[n - 1] == Look(Child, Passing))
    requires !CanHide(looks) && !StepThrows(chain[n], slots)
    ensures var after := ArrayStep(t, chain[n], slots);
            && AllKnown(t, after) && Null !in after && after == Stepped(t, chain[n], slots)
            && (El([]) in after ==> looks[n] == Look(Child, Passing))
  {
    assert looks[n] == LookOf(t, chain[n]);
    assert chain[n].part.TagPart? ==> IsTagWord(chain[n].part.name);
    StepOrigins(t, ctx, chain[n], slots);
    ArrayStepAgrees(t, chain[n], slots);
    var goal := Stepped(t, chain[n], slots);
    hide InTree, PassesAll, IsTagWord, ArrayStep, ProperTree, SiblingTagsClear, FirstNull;
    if El([]) in slots && NeedsParent(chain[n]) { SlipHere(looks, n); }
    forall i | 0 <= i < |slots| ensures goal[i] != Null {
      if slots[i].El? { StepIsNull(t, chain[n], slots[i].p); }
    }
    hide StepSlot;
    AllLive(goal);
  }

  /** Behind a null, the second candidate goes through the whole chain. */
  lemma {:induction false} NothingThrowsBehind(t: Tree, size: nat, looks: seq<Look>, ctx: Path)
    requires IsGrid(t, size, true) && IsLook(looks) && |looks| < size && ctx == ContextFor(looks)
    ensures !Throws(t, ChainOf(looks, ctx), [Null, El(Origin(looks, |looks|))])
    decreases |looks|
  {
    hide IsGrid, StepThrows, ArrayStep, Unmove, ChainOf;
    if looks == [] {
      assert ChainOf(looks, ctx) == [];
    } else {
      OriginMoves(size, looks, |looks|, ctx);
      var next := Found(PartOf(looks[0].kind, ctx), Origin(looks[1..], |looks| - 1));
      PairMoves(t, size, looks[0], ctx, Null, El(Origin(looks, |looks|)), Null, next);
      ChainOfTail(looks, ctx);
      if looks[0].kind.Leftmost? {
        assert ChainOf(looks[1..], ctx) == [];
      } else {
        ContextTail(looks);
        NothingThrowsBehind(t, size, looks[1..], ctx);
      }
    }
  }

  lemma HideOnGrid(t: Tree, size: nat, looks: seq<Look>, k: nat)
    requires IsGrid(t, size, true) && size > |looks| && IsLook(looks) && k + 1 < |looks|
    requires SlipsAt(looks, k) && !looks[k + 1].kind.Word?
    ensures var ctx := ContextFor(looks); var chain := ChainOf(looks, ctx);
            var items := [Origin(looks, k), Origin(looks, |looks|)];
            AreBelow(t, items) && InTree(t, ctx) && HidesQuietly(t, ctx, chain, items)
  {
    var ctx, p, q := ContextFor(looks), Origin(looks, k), Origin(looks, |looks|);
    var chain := ChainOf(looks, ctx);
    hide IsGrid, IsLook, SlipsAt, StepThrows, ArrayStep, Unmove, ChainOf, Throws, AreBelow, Origin, ContextFor, Kept, Collected, KeptItems, Final;
    OnGrid(t, size, [p, q]);
    GridContext(t, size, looks);
    NullOnGrid(t, size, looks, ctx, k);
    RunToEnd(t, size, looks, ctx);
    QuietOnGrid(t, size, looks, k);
    PairHides(t, ctx, chain, p, q);
  }

  lemma GridContext(t: Tree, size: nat, looks: seq<Look>)
    requires IsGrid(t, size, true) && size > 0
    ensures InTree(t, ContextFor(looks))
    ensures Kept(t, ContextFor(looks), if EndsLeftmost(looks) then True else El([0]))
  {
    GridTop(t, size);
    hide IsGrid;
  }

  lemma PairHides(t: Tree, ctx: Path, chain: seq<Link>, p: Path, q: Path)
    requires InTree(t, ctx) && !Throws(t, chain, [El(p), El(q)])
    requires Final(t, chain, El(p)) == Null && Kept(t, ctx, Final(t, chain, El(q)))
    ensures HidesQuietly(t, ctx, chain, [p, q])
  {
    hide InTree, Kept, Final, Throws, Collected, KeptItems;
    assert SlotsOf([p, q]) == [El(p), El(q)];
    var finals := Finals(t, chain, [El(p), El(q)]);
    assert finals[0] == Null && Kept(t, ctx, finals[1]);
    CollectedExactly(t, ctx, finals, [p, q]);
  }

  lemma GridTop(t: Tree, size: nat)
    requires IsGrid(t, size, true) && size > 0
    ensures InTree(t, []) && InTree(t, [0]) && IsElement(t, [0]) && !IsElement(t, [])
  {
    assert Incomplete.Fits([0], size, size) && Incomplete.Fits([], size, size);
  }

  lemma QuietOnGrid(t: Tree, size: nat, looks: seq<Look>, k: nat)
    requires IsGrid(t, size, true) && size > |looks| && IsLook(looks) && k + 1 < |looks|
    requires SlipsAt(looks, k) && !looks[k + 1].kind.Word?
    ensures !Throws(t, ChainOf(looks, ContextFor(looks)), [El(Origin(looks, k)), El(Origin(looks, |looks|))])
  {
    hide IsGrid, StepThrows, ArrayStep, Unmove, ChainOf, Throws;
    var ctx, n, rest := ContextFor(looks), |looks|, looks[k..];
    RunPair(t, size, looks, ctx, k, n);
    LookTail(looks, k);
    LookTail(rest, 2);
    SlipPair(t, size, rest, ctx, n - k);
    ContextLater(looks, k + 2);
    assert rest[2..] == looks[k + 2..];
    NothingThrowsBehind(t, size, looks[k + 2..], ContextFor(looks[k + 2..]));
    if looks[k + 2..] == [] { assert ChainOf([], ctx) == ChainOf([], ContextFor([])); }
  }

  lemma ContextLater(looks: seq<Look>, k: nat)
    requires k <= |looks|
    ensures looks[k..] != [] ==> ContextFor(looks[k..]) == ContextFor(looks)
  {
  }

  /** On pages, a chain can return less than it keeps, without throwing, exactly if its look has a
      slip that is not followed by a tag word. */
  lemma HidesExactly(looks: seq<Look>)
    requires IsLook(looks)
    ensures CanHide(looks)
            <==> exists t, ctx, chain, items :: OnPage(looks, t, ctx, chain) && AreBelow(t, items) && HidesQuietly(t, ctx, chain, items)
  {
    hide IsLook, HidesQuietly, SlipsAt, ChainOf, IsGrid, OnPage, AreBelow;
    if k :| 0 <= k < |looks| - 1 && SlipsAt(looks, k) && !looks[k + 1].kind.Word? {
      var size := |looks| + 1;
      var t := GridOf(size, true);
      HideOnGrid(t, size, looks, k);
      GridIsPage(t, size, looks, ContextFor(looks));
      var items := [Origin(looks, k), Origin(looks, |looks|)];
      assert HidesQuietly(t, ContextFor(looks), ChainOf(looks, ContextFor(looks)), items);
    }
    if t, ctx, chain, items :| OnPage(looks, t, ctx, chain) && AreBelow(t, items) && HidesQuietly(t, ctx, chain, items) {
      HidesMeansLook(looks, t, ctx, chain, items);
    }
  }

  /** Nothing is thrown, and the results are not all that is kept. */
  ghost predicate HidesQuietly(t: Tree, ctx: Path, chain: seq<Link>, items: seq<Path>) {
    && InTree(t, ctx) && !Throws(t, chain, SlotsOf(items))
    && var finals := Finals(t, chain, SlotsOf(items));
       Collected(t, ctx, finals, items) != KeptItems(t, ctx, finals, items)
  }

  lemma HidesMeansLook(looks: seq<Look>, t: Tree, ctx: Path, chain: seq<Link>, items: seq<Path>)
    requires OnPage(looks, t, ctx, chain) && AreBelow(t, items) && HidesQuietly(t, ctx, chain, items)
    ensures CanHide(looks)
  {
    var slots := SlotsOf(items);
    OnPageLength(looks, t, ctx, chain);
    StartReached(looks, t, items);
    CollectedExactly(t, ctx, Finals(t, chain, slots), items);
    assert chain[0..] == chain;
    hide InTree, Kept, OnPage, Throws, Final, Collected, KeptItems;
    assert Null !in slots && El([]) !in slots;
    if !CanHide(looks) {
      NoQuietNull(looks, t, ctx, chain, 0, slots);
    }
  }

  // ---- any root ----

  /** A chain of these combinators can come to the root and then ask for its parent. */
  ghost predicate Climbing(combs: seq<Combinator>) {
    exists k :: 0 <= k < |combs| - 1 && ClimbsAt(combs, k)
  }

  predicate ClimbsAt(combs: seq<Combinator>, k: nat)
    requires k + 1 < |combs|
  {
    (combs[k].Child? || combs[k].Descendant?) && combs[k + 1].Child?
  }

  function AnyLooks(combs: seq<Combinator>): (r: seq<Look>)
    ensures |r| == |combs| && IsLook(r) && forall i :: 0 <= i < |r| ==> r[i] == Look(combs[i], Failing)
  {
    seq(|combs|, i requires 0 <= i < |combs| => Look(combs[i], Failing))
  }

  /** In trees of any kind, such as detached ones, whose root is an element, slots can become null
      for exactly the combinators in which `>` stands to the left of `>` or of a descendant one. */
  lemma NullsAnywhere(combs: seq<Combinator>)
    ensures Climbing(combs)
            <==> exists t, ctx, chain, p :: InAnyTree(combs, t, ctx, chain) && InTree(t, p) && p != [] && Final(t, chain, El(p)) == Null
  {
    hide Final, ClimbsAt, ChainOf, IsGrid, InAnyTree;
    if k :| 0 <= k < |combs| - 1 && ClimbsAt(combs, k) {
      var size := |combs| + 1;
      var t := GridOf(size, false);
      NullInDetached(t, size, combs, k);
    }
    if t, ctx, chain, p :| InAnyTree(combs, t, ctx, chain) && InTree(t, p) && p != [] && Final(t, chain, El(p)) == Null {
      NullMeansClimb(combs, t, ctx, chain, p);
    }
  }

  ghost predicate InAnyTree(combs: seq<Combinator>, t: Tree, ctx: Path, chain: seq<Link>) {
    InTree(t, ctx) && Proper(t, chain, ctx) && Combs(chain) == combs
  }

  lemma NullMeansClimb(combs: seq<Combinator>, t: Tree, ctx: Path, chain: seq<Link>, p: Path)
    requires InAnyTree(combs, t, ctx, chain) && InTree(t, p) && p != [] && Final(t, chain, El(p)) == Null
    ensures Climbing(combs)
  {
    hide InTree, Final, Proper, Judged, Accepts;
    if NoSlip(t, chain) {
      NoNulls(t, chain, p);
    } else {
      var k :| 0 <= k < |chain| - 1 && Slips(t, chain, k);
      assert ClimbsAt(combs, k);
    }
  }

  lemma NullInDetached(t: Tree, size: nat, combs: seq<Combinator>, k: nat)
    requires IsGrid(t, size, false) && size > |combs| && k + 1 < |combs| && ClimbsAt(combs, k)
    ensures var chain := ChainOf(AnyLooks(combs), []); var p := Origin(AnyLooks(combs), k);
            && InAnyTree(combs, t, [], chain) && InTree(t, p) && p != []
            && Final(t, chain, El(p)) == Null
  {
    var looks := AnyLooks(combs);
    assert Incomplete.Fits(Origin(looks, k), size, size) && Incomplete.Fits([], size, size);
    assert InAnyTree(combs, t, [], ChainOf(looks, [])) by {
      hide IsTagWord, InTree;
      assert Combs(ChainOf(looks, [])) == combs;
    }
    hide IsGrid, ChainOf, Unmove, InAnyTree;
    RunToTop(t, size, false, looks, [], k);
    LookTail(looks, k);
    DetachedFalls(t, size, looks[k..]);
  }

  lemma DetachedFalls(t: Tree, size: nat, looks: seq<Look>)
    requires IsGrid(t, size, false) && size > 0 && |looks| > 1
    requires (looks[0] == Look(Child, Failing) || looks[0] == Look(Descendant, Failing)) && looks[1] == Look(Child, Failing)
    ensures Final(t, ChainOf(looks, []), El([0])) == Null
  {
    var rest := looks[1..];
    ChainOfTail(looks, []);
    ChainOfTail(rest, []);
    GridPasses(t, size, false);
    assert Incomplete.Fits([0], size, size) && Incomplete.Fits([], size, size) && Front([0]) == [];
    hide ChainOf, PassesAll, IsGrid;
    assert IsElement(t, []) && Accepts(t, Compound([Any]), []);
    Lands(t, looks[0].comb, Compound([Any]), [0], []);
    StepIsNull(t, ChainOf(rest, [])[0], []);
    FinalOfDead(t, ChainOf(rest[1..], []), Null);
  }
}
