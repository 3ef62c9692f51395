/** For every chain shape with a bad pair there is a document in which right-to-left evaluation
    misses a match. */
module Incomplete {
  import opened Wrappers
  import opened Dom
  import opened Filtering
  import opened Walking
  import opened Selector
  import Namespaces

  // ---- a full tree whose nodes carry the roles they play ----

  /** The name of the part number `i`: its length is the number. */
  function RoleName(i: nat): (s: string)
    ensures |s| == i
  {
    seq(i, _ => 'x')
  }

  function RolesOf(roles: seq<set<Path>>, p: Path): (r: set<string>)
    ensures forall i :: 0 <= i < |roles| ==> (RoleName(i) in r <==> p in roles[i])
  {
    var r := set i | 0 <= i < |roles| && p in roles[i] :: RoleName(i);
    assert forall i :: 0 <= i < |roles| && RoleName(i) in r ==> p in roles[i] by {
      forall i | 0 <= i < |roles| && RoleName(i) in r ensures p in roles[i] {
        var j :| 0 <= j < |roles| && p in roles[j] && RoleName(j) == RoleName(i);
        assert |RoleName(j)| == j && |RoleName(i)| == i;
      }
    }
    r
  }

  /** The subtree at `prefix` of the tree in which every node of depth below `depth` has `width`
      children; the root is a document and all others are elements. */
  function Full(depth: nat, width: nat, prefix: Path, roles: seq<set<Path>>): Tree
    decreases depth
  {
    Tree(if prefix == [] then DOCUMENT else ELEMENT, if prefix == [] then "#document" else "div", RolesOf(roles, prefix),
         if depth == 0 then [] else seq(width, i requires 0 <= i < width => Full(depth - 1, width, prefix + [i], roles)))
  }

  predicate Fits(p: Path, depth: nat, width: nat) {
    |p| <= depth && forall i :: 0 <= i < |p| ==> p[i] < width
  }

  lemma {:induction false} FullHas(depth: nat, width: nat, prefix: Path, roles: seq<set<Path>>, p: Path)
    ensures InTree(Full(depth, width, prefix, roles), p) <==> Fits(p, depth, width)
    ensures Fits(p, depth, width) ==> var n := At(Full(depth, width, prefix, roles), p);
              && n.kind == (if prefix + p == [] then DOCUMENT else ELEMENT)
              && n.name == (if prefix + p == [] then "#document" else "div")
              && n.features == RolesOf(roles, prefix + p)
    decreases depth
  {
    if p == [] {
      assert prefix + p == prefix;
    } else if depth > 0 && p[0] < width {
      FullHas(depth - 1, width, prefix + [p[0]], roles, p[1..]);
      assert prefix + [p[0]] + p[1..] == prefix + p;
      assert Fits(p, depth, width) <==> Fits(p[1..], depth - 1, width);
    }
  }

  // ---- the intended match ----

  /** One move to the left of a combinator: to the parent or to the sibling just before. */
  function Move(c: Combinator, p: Path): Path {
    if p == [] then p
    else if c == Child || c == Descendant then Front(p)
    else if Last(p) == 0 then p else Front(p) + [Last(p) - 1]
  }

  /** Room for `k` more moves, below width `m`. */
  predicate Roomy(p: Path, k: nat, m: nat) {
    |p| > k && forall i :: 0 <= i < |p| ==> k < p[i] <= m
  }

  lemma MoveRoomy(c: Combinator, p: Path, k: nat, m: nat)
    requires Roomy(p, k + 1, m)
    ensures Roomy(Move(c, p), k, m)
  {
  }

  /** The node for part number `k`: `j` is the place where the greedy search goes astray, and the
      intended match moves twice there. */
  function Spot(combs: seq<Combinator>, j: nat, start: Path, k: nat): Path
    requires k <= |combs|
  {
    if k == 0 then start
    else
      var p := Move(combs[k - 1], Spot(combs, j, start, k - 1));
      if k - 1 == j then Move(combs[j], p) else p
  }

  /** The nearer node that the greedy search takes instead. */
  function Decoy(combs: seq<Combinator>, j: nat, start: Path): Path
    requires j < |combs|
  {
    Move(combs[j], Spot(combs, j, start, j))
  }

  lemma {:induction false} SpotRoomy(combs: seq<Combinator>, j: nat, start: Path, k: nat, m: nat)
    requires k <= |combs| && Roomy(start, |combs| + 2, m)
    ensures Roomy(Spot(combs, j, start, k), |combs| + 2 - k - (if k > j then 1 else 0), m)
    decreases k
  {
    hide Move, Roomy;
    if k > 0 {
      SpotRoomy(combs, j, start, k - 1, m);
      var p := Spot(combs, j, start, k - 1);
      var room := |combs| + 2 - k;
      MoveRoomy(combs[k - 1], p, if k - 1 > j then room - 1 else room, m);
      if k - 1 == j { MoveRoomy(combs[j], Move(combs[j], p), room - 1, m); }
    }
  }

  function RolesFor(combs: seq<Combinator>, j: nat, start: Path): (r: seq<set<Path>>)
    requires j < |combs|
    ensures |r| == |combs|
  {
    seq(|combs|, i requires 0 <= i < |combs| =>
      {Spot(combs, j, start, i + 1)} + if i == j then {Decoy(combs, j, start)} else {})
  }

  function Role(i: nat): Part { Compound([Feature(RoleName(i))]) }

  function ChainFor(combs: seq<Combinator>): (r: seq<Link>)
    ensures |r| == |combs| && forall i :: 0 <= i < |r| ==> r[i] == Link(combs[i], Role(i))
  {
    seq(|combs|, i requires 0 <= i < |combs| => Link(combs[i], Role(i)))
  }

  // ---- the document ----

  /** Everything the proofs below use of the document. */
  ghost predicate IsScene(t: Tree, depth: nat, width: nat, roles: seq<set<Path>>) {
    && (forall p :: InTree(t, p) <==> Fits(p, depth, width))
    && (forall p :: InTree(t, p) ==> (IsElement(t, p) <==> p != []) && At(t, p).name == (if p == [] then "#document" else "div"))
    && (forall p, i :: InTree(t, p) && 0 <= i < |roles| ==> (PassesAll(t, [Feature(RoleName(i))], p) <==> p in roles[i]))
  }

  lemma SceneOf(depth: nat, width: nat, roles: seq<set<Path>>)
    ensures IsScene(Full(depth, width, [], roles), depth, width, roles)
  {
    var t := Full(depth, width, [], roles);
    forall p ensures InTree(t, p) <==> Fits(p, depth, width) { FullHas(depth, width, [], roles, p); }
    forall p | InTree(t, p)
      ensures (IsElement(t, p) <==> p != []) && At(t, p).name == (if p == [] then "#document" else "div")
      ensures At(t, p).features == RolesOf(roles, p)
    {
      FullHas(depth, width, [], roles, p);
      assert [] + p == p;
    }
    forall p, i | InTree(t, p) && 0 <= i < |roles|
      ensures PassesAll(t, [Feature(RoleName(i))], p) <==> p in roles[i]
    {
      PassesOne(t, Feature(RoleName(i)), p);
    }
  }

  /** When the node one move away plays the role asked for, the step takes it. */
  lemma StepTakes(t: Tree, depth: nat, m: nat, roles: seq<set<Path>>, c: Combinator, i: nat, p: Path)
    requires IsScene(t, depth, m + 1, roles) && i < |roles|
    requires Roomy(p, 1, m) && |p| <= depth
    ensures var q := Move(c, p); InTree(t, p) && InTree(t, q) && q != []
    ensures Move(c, p) in roles[i] ==> StepSlot(t, Link(c, Role(i)), El(p)) == El(Move(c, p))
    ensures (c == Child || c == Next) && Move(c, p) !in roles[i] ==> StepSlot(t, Link(c, Role(i)), El(p)) == False
    ensures Related(t, c, p, Move(c, p))
  {
    var q := Move(c, p);
    assert Fits(p, depth, m + 1) && Fits(q, depth, m + 1);
    assert IsElement(t, q);
    assert PassesAll(t, [Feature(RoleName(i))], q) <==> q in roles[i];
    assert Judged(t, Role(i), q) == if q in roles[i] then El(q) else False;
    assert q in roles[i] ==> Accepts(t, Role(i), q);
    hide InTree, PassesAll, IsElement, Fits, Accepts;
    if q in roles[i] {
      assert NearestFrom(t, Up, Role(i), q) == El(q) && NearestFrom(t, Left, Role(i), q) == El(q);
    }
    if c == Next || c == Sibling {
      assert PreviousSibling(p) == Some(q) && Front(q) == Front(p) && Last(q) == Last(p) - 1;
    }
    if c == Next {
      assert PreviousElement(t, p) == Some(q);
      NextIsPreviousElement(t, p, q);
    }
  }

  /** Moving twice stays related where a bad pair begins. */
  lemma TwoMoves(t: Tree, depth: nat, m: nat, roles: seq<set<Path>>, c: Combinator, p: Path)
    requires IsScene(t, depth, m + 1, roles) && (c == Descendant || c == Sibling)
    requires Roomy(p, 2, m) && |p| <= depth
    ensures var q := Move(c, Move(c, p)); InTree(t, p) && InTree(t, q) && q != [] && Related(t, c, p, q)
  {
    var q := Move(c, Move(c, p));
    assert Fits(p, depth, m + 1) && Fits(q, depth, m + 1);
  }

  /** From the decoy the second combinator of a bad pair leads nowhere. */
  lemma DecoyIsDead(t: Tree, depth: nat, m: nat, roles: seq<set<Path>>, a: Combinator, b: Combinator, i: nat, p: Path)
    requires IsScene(t, depth, m + 1, roles) && i < |roles| && BadPair(a, b)
    requires Roomy(p, 3, m) && |p| <= depth
    requires roles[i] == {Move(b, Move(a, Move(a, p)))}
    ensures StepSlot(t, Link(b, Role(i)), El(Move(a, p))) == False
  {
    var d := Move(a, p);
    MoveRoomy(a, p, 2, m);
    MoveShort(a, p);
    hide IsScene, StepSlot;
    if b == Sibling {
      DeadBeside(t, depth, m, roles, a, i, p, d);
    } else {
      DecoyMisses(a, b, p, m);
      RoomyLess(d, 2, 1, m);
      StepTakes(t, depth, m, roles, b, i, d);
    }
  }

  lemma MoveShort(c: Combinator, p: Path)
    ensures |Move(c, p)| <= |p|
  {
  }

  /** A child or next-sibling step from the decoy does not come to the intended node. */
  lemma DecoyMisses(a: Combinator, b: Combinator, p: Path, m: nat)
    requires Roomy(p, 3, m) && BadPair(a, b) && b != Sibling
    ensures var d := Move(a, p); Move(b, d) != Move(b, Move(a, d))
  {
  }

  /** After a descendant combinator all siblings of the decoy lie deeper than the intended node. */
  lemma DeadBeside(t: Tree, depth: nat, m: nat, roles: seq<set<Path>>, a: Combinator, i: nat, p: Path, d: Path)
    requires IsScene(t, depth, m + 1, roles) && i < |roles| && a == Descendant
    requires Roomy(p, 3, m) && |p| <= depth && d == Move(a, p)
    requires roles[i] == {Move(Sibling, Move(a, d))}
    ensures StepSlot(t, Link(Sibling, Role(i)), El(d)) == False
  {
    var wanted := Move(Sibling, Move(a, d));
    assert |wanted| < |d|;
    assert Fits(d, depth, m + 1) && InTree(t, d);
    hide Move, IsElement, Roomy, Fits, InTree;
    var q := NearestIs(t, Left, Role(i), d);
    forall r | InTree(t, r) && Accepts(t, Role(i), r) ensures !Earlier(d, r) {
      assert PassesAll(t, [Feature(RoleName(i))], r);
    }
  }

  // ---- the missed match ----

  /** All there is to know about where the parts are put. */
  ghost predicate IsStage(t: Tree, combs: seq<Combinator>, j: nat, start: Path, m: nat) {
    && j + 1 < |combs| && BadPair(combs[j], combs[j + 1])
    && Roomy(start, |combs| + 2, m)
    && IsScene(t, |start|, m + 1, RolesFor(combs, j, start))
  }

  lemma {:induction false} SpotShort(combs: seq<Combinator>, j: nat, start: Path, k: nat)
    requires k <= |combs|
    ensures |Spot(combs, j, start, k)| <= |start|
    decreases k
  {
    if k > 0 { SpotShort(combs, j, start, k - 1); }
  }

  /** The intended match goes on from every spot. */
  lemma {:induction false} SpotsMatch(t: Tree, combs: seq<Combinator>, j: nat, start: Path, m: nat, k: nat)
    requires IsStage(t, combs, j, start, m) && k <= |combs|
    ensures InTree(t, []) && InTree(t, Spot(combs, j, start, k)) && IsElement(t, Spot(combs, j, start, k))
    ensures Matches(t, [], ChainFor(combs)[k..], Spot(combs, j, start, k))
    decreases |combs| - k
  {
    hide Spot, Move, Roomy, Related, IsElement, PassesAll;
    var chain, roles := ChainFor(combs), RolesFor(combs, j, start);
    var p := Spot(combs, j, start, k);
    SpotRoomy(combs, j, start, k, m);
    SpotShort(combs, j, start, k);
    RoomyLess(p, |combs| + 2 - k - (if k > j then 1 else 0), 0, m);
    SpotInScene(t, |start|, m, roles, p);
    if k < |combs| {
      SpotsMatch(t, combs, j, start, m, k + 1);
      var q := Spot(combs, j, start, k + 1);
      NextSpot(t, combs, j, start, m, k);
      assert q in roles[k];
      assert Describes(t, Role(k), q);
      assert chain[k..][0] == chain[k] && chain[k..][1..] == chain[k + 1..];
      assert Continues(t, [], chain[k..], p, q);
    }
  }

  lemma SpotInScene(t: Tree, depth: nat, m: nat, roles: seq<set<Path>>, p: Path)
    requires IsScene(t, depth, m + 1, roles) && Roomy(p, 0, m) && |p| <= depth
    ensures InTree(t, []) && InTree(t, p) && IsElement(t, p)
  {
    assert Fits([], depth, m + 1) && Fits(p, depth, m + 1);
  }

  lemma RoomyLess(p: Path, k: nat, k': nat, m: nat)
    requires Roomy(p, k, m) && k' <= k
    ensures Roomy(p, k', m)
  {
  }

  lemma NextSpot(t: Tree, combs: seq<Combinator>, j: nat, start: Path, m: nat, k: nat)
    requires IsStage(t, combs, j, start, m) && k < |combs|
    ensures var p, q := Spot(combs, j, start, k), Spot(combs, j, start, k + 1);
            InTree(t, p) && InTree(t, q) && q != [] && Related(t, combs[k], p, q)
  {
    var roles := RolesFor(combs, j, start);
    var p := Spot(combs, j, start, k);
    SpotRoomy(combs, j, start, k, m);
    SpotShort(combs, j, start, k);
    hide Move, Roomy, Related, IsElement, PassesAll;
    if k == j {
      RoomyLess(p, |combs| + 2 - k, 2, m);
      TwoMoves(t, |start|, m, roles, combs[k], p);
    } else {
      RoomyLess(p, |combs| + 2 - k - (if k > j then 1 else 0), 1, m);
      StepTakes(t, |start|, m, roles, combs[k], k, p);
    }
  }

  /** Up to the bad pair evaluation follows the intended match; there it takes the decoy. */
  lemma {:induction false} EvaluationStrays(t: Tree, combs: seq<Combinator>, j: nat, start: Path, m: nat, k: nat)
    requires IsStage(t, combs, j, start, m) && k <= j
    ensures Final(t, ChainFor(combs)[k..], El(Spot(combs, j, start, k))) == False
    decreases j - k
  {
    hide Move, Roomy, Related, IsElement, PassesAll, StepSlot, InTree;
    var chain, roles := ChainFor(combs), RolesFor(combs, j, start);
    var p := Spot(combs, j, start, k);
    SpotRoomy(combs, j, start, k, m);
    SpotShort(combs, j, start, k);
    RoomyLess(p, |combs| + 2 - k, 3, m);
    RoomyLess(p, |combs| + 2 - k, 1, m);
    StepTakes(t, |start|, m, roles, combs[k], k, p);
    assert chain[k..][0] == chain[k] && chain[k..][1..] == chain[k + 1..];
    if k < j {
      assert Spot(combs, j, start, k + 1) == Move(combs[k], p);
      EvaluationStrays(t, combs, j, start, m, k + 1);
    } else {
      var d := Decoy(combs, j, start);
      assert d in roles[j] && d == Move(combs[j], p);
      assert Spot(combs, j, start, j + 1) == Move(combs[j], d);
      assert Spot(combs, j, start, j + 2) == Move(combs[j + 1], Move(combs[j], d));
      assert roles[j + 1] == {Spot(combs, j, start, j + 2)};
      DecoyIsDead(t, |start|, m, roles, combs[j], combs[j + 1], j + 1, p);
      assert chain[k + 1..][0] == chain[k + 1] && chain[k + 1..][1..] == chain[k + 2..];
      FinalOfDead(t, chain[k + 2..], False);
    }
  }

  lemma SceneIsProper(t: Tree, depth: nat, width: nat, roles: seq<set<Path>>, chain: seq<Link>)
    requires IsScene(t, depth, width, roles) && |chain| == |roles| && (forall i :: 0 <= i < |chain| ==> chain[i].part == Role(i))
    ensures Proper(t, chain, []) && !Leading(chain)
  {
    assert Fits([], depth, width);
    assert !Namespaces.IsWordChar("#document"[0]);
    assert At(t, []).name == "#document";
    hide PassesAll, IsElement, InTree;
  }

  /** For every shape with a bad pair there is a document in which a matching node is not kept. */
  lemma BadShapeMisses(combs: seq<Combinator>) returns (t: Tree, chain: seq<Link>, p: Path)
    requires !GoodShape(combs)
    ensures Combs(chain) == combs && InTree(t, p) && IsElement(t, p) && InTree(t, [])
    ensures Proper(t, chain, []) && !Leading(chain)
    ensures Matches(t, [], chain, p) && !Kept(t, [], Final(t, chain, El(p)))
  {
    hide PassesAll, IsElement, InTree, IsStage, Proper, Final, Matches, ChainFor;
    var j :| 0 <= j < |combs| - 1 && BadPair(combs[j], combs[j + 1]);
    var start, m;
    t, start, m := StageFor(combs, j);
    chain, p := ChainFor(combs), start;
    MissOnStage(t, combs, j, start, m);
  }

  lemma StageFor(combs: seq<Combinator>, j: nat) returns (t: Tree, start: Path, m: nat)
    requires j + 1 < |combs| && BadPair(combs[j], combs[j + 1])
    ensures IsStage(t, combs, j, start, m)
  {
    hide Full, RolesFor, IsScene;
    m := |combs| + 3;
    start := seq(m, _ => m);
    t := Full(|start|, m + 1, [], RolesFor(combs, j, start));
    SceneOf(|start|, m + 1, RolesFor(combs, j, start));
  }

  lemma MissOnStage(t: Tree, combs: seq<Combinator>, j: nat, start: Path, m: nat)
    requires IsStage(t, combs, j, start, m)
    ensures var chain := ChainFor(combs);
            && Combs(chain) == combs && InTree(t, start) && IsElement(t, start) && InTree(t, [])
            && Proper(t, chain, []) && !Leading(chain)
            && Matches(t, [], chain, start) && !Kept(t, [], Final(t, chain, El(start)))
  {
    hide Spot, Roomy, PassesAll, IsElement, InTree, RolesFor, IsScene, Proper, Final, Matches;
    var chain := ChainFor(combs);
    assert chain[0..] == chain && Combs(chain) == combs;
    FirstSpot(combs, j, start);
    SpotsMatch(t, combs, j, start, m, 0);
    EvaluationStrays(t, combs, j, start, m, 0);
    SceneIsProper(t, |start|, m + 1, RolesFor(combs, j, start), chain);
  }

  lemma FirstSpot(combs: seq<Combinator>, j: nat, start: Path)
    ensures Spot(combs, j, start, 0) == start
  {
  }

  /** A shape of chain is evaluated completely in every document, whatever its parts, exactly when
      it has no bad pair: read from right to left, a descendant combinator is followed by
      descendant combinators only, and `~` never by `+`. */
  lemma CompleteExactly(combs: seq<Combinator>)
    ensures GoodShape(combs) <==> forall t, ctx, chain, p :: Candidate(combs, t, ctx, chain, p) ==> Kept(t, ctx, Final(t, chain, El(p)))
  {
    hide Matches, Proper, InTree, Kept, Final;
    if GoodShape(combs) {
      forall t, ctx, chain, p | Candidate(combs, t, ctx, chain, p) ensures Kept(t, ctx, Final(t, chain, El(p))) {
        EvaluationIsComplete(t, ctx, chain, p);
      }
    } else {
      var t, chain, p := BadShapeMisses(combs);
      assert Candidate(combs, t, [], chain, p);
    }
  }

  /** A matching node of some chain of the given shape, which does not begin with a combinator in
      a context that is no element. */
  ghost predicate Candidate(combs: seq<Combinator>, t: Tree, ctx: Path, chain: seq<Link>, p: Path) {
    && Combs(chain) == combs && InTree(t, ctx) && InTree(t, p)
    && Proper(t, chain, ctx) && LeadsWithElement(t, ctx, chain) && Starts(t, chain, p) && Matches(t, ctx, chain, p)
  }
}
