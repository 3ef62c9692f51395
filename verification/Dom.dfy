/** Document trees.  A node is named by its path from the root: the list of child positions. */
module Dom {
  import opened Wrappers

  type Path = seq<nat>

  const ELEMENT := 1
  const DOCUMENT := 9

  /** `kind` is `nodeType`, `name` the lower-cased `nodeName`; `features` stands for the outcome of
      every simple test that looks at this node alone (classes, id, attributes, most pseudos). */
  datatype Tree = Tree(kind: nat, name: string, features: set<string>, children: seq<Tree>)

  predicate InTree(t: Tree, p: Path) {
    p == [] || (p[0] < |t.children| && InTree(t.children[p[0]], p[1..]))
  }

  function At(t: Tree, p: Path): Tree
    requires InTree(t, p)
  {
    if p == [] then t else At(t.children[p[0]], p[1..])
  }

  predicate IsElement(t: Tree, p: Path)
    requires InTree(t, p)
  {
    At(t, p).kind == ELEMENT
  }

  // ---- links ----

  function Front(p: Path): Path
    requires p != []
  {
    p[..|p| - 1]
  }

  function Last(p: Path): nat
    requires p != []
  {
    p[|p| - 1]
  }

  function ParentNode(p: Path): Option<Path> {
    if p == [] then None else Some(Front(p))
  }

  function PreviousSibling(p: Path): Option<Path> {
    if p == [] || Last(p) == 0 then None else Some(Front(p) + [Last(p) - 1])
  }

  function NextSibling(t: Tree, p: Path): Option<Path>
    requires InTree(t, p)
  {
    if p == [] || Last(p) + 1 >= |Siblings(t, p)| then None else Some(Front(p) + [Last(p) + 1])
  }

  lemma {:induction false} PrefixInTree(t: Tree, p: Path, k: nat)
    requires InTree(t, p) && k <= |p|
    ensures InTree(t, p[..k])
    decreases k
  {
    if k > 0 {
      PrefixInTree(t.children[p[0]], p[1..], k - 1);
      assert p[..k][1..] == p[1..][..k - 1];
    }
  }

  /** The children of the parent. */
  function Siblings(t: Tree, p: Path): seq<Tree>
    requires p != [] && InTree(t, p)
  {
    PrefixInTree(t, p, |p| - 1);
    At(t, Front(p)).children
  }

  /** A path extended by a child position is in the tree exactly when there is such a child. */
  lemma {:induction false} ChildInTree(t: Tree, p: Path, c: nat)
    requires InTree(t, p)
    ensures InTree(t, p + [c]) <==> c < |At(t, p).children|
    ensures InTree(t, p + [c]) ==> At(t, p + [c]) == At(t, p).children[c]
  {
    var q := p + [c];
    if p == [] {
      assert q[1..] == [];
    } else {
      ChildInTree(t.children[p[0]], p[1..], c);
      assert q[1..] == p[1..] + [c];
    }
  }

  lemma LastInTree(t: Tree, p: Path)
    requires p != [] && InTree(t, p)
    ensures InTree(t, Front(p)) && Last(p) < |Siblings(t, p)| && At(t, p) == Siblings(t, p)[Last(p)]
  {
    PrefixInTree(t, p, |p| - 1);
    assert p == Front(p) + [Last(p)];
    ChildInTree(t, Front(p), Last(p));
  }

  lemma SiblingInTree(t: Tree, p: Path, c: nat)
    requires p != [] && InTree(t, p) && c < |Siblings(t, p)|
    ensures InTree(t, Front(p) + [c])
    ensures Siblings(t, Front(p) + [c]) == Siblings(t, p) && At(t, Front(p) + [c]) == Siblings(t, p)[c]
  {
    LastInTree(t, p);
    ChildInTree(t, Front(p), c);
    assert Front(Front(p) + [c]) == Front(p);
  }

  // ---- walking in one direction ----

  datatype Direction = Up | Left

  function Step(dir: Direction, p: Path): Option<Path> {
    if dir.Up? then ParentNode(p) else PreviousSibling(p)
  }

  /** How far a walk can still go. */
  function Distance(dir: Direction, p: Path): nat {
    if dir.Up? then |p| else if p == [] then 0 else Last(p)
  }

  lemma StepInTree(t: Tree, dir: Direction, p: Path)
    requires InTree(t, p) && Step(dir, p).Some?
    ensures InTree(t, Step(dir, p).value) && Distance(dir, Step(dir, p).value) < Distance(dir, p)
  {
    hide InTree, At;
    if dir.Up? {
      LastInTree(t, p);
    } else {
      LastInTree(t, p);
      SiblingInTree(t, p, Last(p) - 1);
      assert Last(Front(p) + [Last(p) - 1]) == Last(p) - 1;
    }
  }

  // ---- positions among element siblings ----

  function CountElements(ts: seq<Tree>): (n: nat)
    ensures n <= |ts|
  {
    if ts == [] then 0
    else CountElements(ts[..|ts| - 1]) + if ts[|ts| - 1].kind == ELEMENT then 1 else 0
  }

  /** The position of an element among the elements of its parent, from 1. */
  function ElementIndex(t: Tree, p: Path): nat
    requires p != [] && InTree(t, p)
  {
    LastInTree(t, p);
    CountElements(Siblings(t, p)[..Last(p) + 1])
  }

  // ---- simple selectors and parts ----

  datatype Simple = Tag(name: string) | Any | Feature(f: string) | Nth(a: int, b: int)
                  | FirstChild | LastChild | OnlyChild

  /** `a*n+b` for some n >= 0, section 6.6.5.2 of CSS Selectors Level 3. */
  ghost predicate IsNth(a: int, b: int, index: int) {
    exists n: nat :: a * n + b == index
  }

  /** The test of the source: divisible and not negative, by JavaScript's operators. */
  predicate NthTest(a: int, b: int, index: int) {
    var diff := index - b;
    if a == 0 then diff == 0 else diff % (if a < 0 then -a else a) == 0 && (diff == 0 || (diff > 0) == (a > 0))
  }

  lemma NthTestExact(a: int, b: int, index: int)
    ensures NthTest(a, b, index) <==> IsNth(a, b, index)
  {
    if IsNth(a, b, index) {
      var n: nat :| a * n + b == index;
      NthPasses(a, n, index - b);
    }
    if NthTest(a, b, index) {
      var n := NthFound(a, index - b);
      assert a * n + b == index;
    }
  }

  lemma NthPasses(a: int, n: int, diff: int)
    requires n >= 0 && diff == a * n
    ensures NthTest(a, 0, diff)
  {
    SignOfProduct(a, n);
    if a > 0 {
      Multiple(a, n);
    } else if a < 0 {
      NegateBoth(a, n);
      Multiple(-a, -n);
    }
  }

  lemma NegateBoth(a: int, n: int)
    ensures (-a) * (-n) == a * n
  {
  }

  lemma NthFound(a: int, diff: int) returns (n: nat)
    requires NthTest(a, 0, diff)
    ensures a * n == diff
  {
    if a == 0 { return 0; }
    var c := if a < 0 then -a else a;
    var q := diff / c;
    assert c * q == diff;
    SignOfProduct(c, q);
    SignOfProduct(c, -q);
    assert c * (-q) == -(c * q);
    if a < 0 { NegateBoth(c, q); return -q; }
    return q;
  }

  lemma Multiple(c: int, q: int)
    requires c > 0
    ensures (c * q) % c == 0
  {
    var x := c * q;
    var k, r := x / c, x % c;
    assert x == c * k + r && 0 <= r < c;
    var d := q - k;
    assert c * d == r by { Distribute(c, q, k); }
    AtLeastOnce(c, d);
  }

  lemma Distribute(c: int, q: int, k: int)
    ensures c * (q - k) == c * q - c * k
  {
  }

  lemma AtLeastOnce(c: int, d: int)
    requires c > 0
    ensures d >= 1 ==> c * d >= c
    ensures d <= -1 ==> c * d <= -c
    ensures d == 0 ==> c * d == 0
  {
    if d >= 1 { assert c * (d - 1) >= 0; Distribute(c, d, 1); }
    if d <= -1 { assert c * (-1 - d) >= 0; Distribute(c, -1, d); }
  }

  lemma SignOfProduct(a: int, n: int)
    ensures n > 0 && a > 0 ==> a * n > 0
    ensures n > 0 && a < 0 ==> a * n < 0
    ensures n >= 0 && a == 0 ==> a * n == 0
  {
  }
}
