/** Document order: the fallback comparator over parent chains against preorder positions,
    and the de-duplicating sort that relies on it. */
module DocumentOrder {
  import opened Wrappers
  import opened Dom

  // ---- preorder ----

  function Size(t: Tree): (n: nat)
    ensures n >= 1
  {
    1 + SizeAll(t.children)
  }

  function SizeAll(ts: seq<Tree>): nat {
    if ts == [] then 0 else Size(ts[0]) + SizeAll(ts[1..])
  }

  /** All nodes in document order: the root, then its subtrees from first to last. */
  function Preorder(t: Tree): (r: seq<Path>)
    ensures |r| == Size(t)
    decreases t, 0
  {
    [[]] + PreorderAll(t.children, 0)
  }

  function PreorderAll(ts: seq<Tree>, i: nat): (r: seq<Path>)
    ensures |r| == SizeAll(ts)
    decreases ts
  {
    if ts == [] then [] else Under(i, Preorder(ts[0])) + PreorderAll(ts[1..], i + 1)
  }

  function Under(i: nat, ps: seq<Path>): (r: seq<Path>)
    ensures |r| == |ps| && forall k :: 0 <= k < |ps| ==> r[k] == [i] + ps[k]
  {
    seq(|ps|, k requires 0 <= k < |ps| => [i] + ps[k])
  }

  /** The position of a node in that list. */
  function Position(t: Tree, p: Path): (n: nat)
    requires InTree(t, p)
    ensures n < Size(t)
    decreases |p|, 0
  {
    if p == [] then 0 else 1 + PositionAmong(t.children, p)
  }

  function PositionAmong(ts: seq<Tree>, p: Path): (n: nat)
    requires p != [] && p[0] < |ts| && InTree(ts[p[0]], p[1..])
    ensures n < SizeAll(ts)
    decreases |p| - 1, |ts|
  {
    if p[0] == 0 then Position(ts[0], p[1..])
    else Size(ts[0]) + PositionAmong(ts[1..], [p[0] - 1] + p[1..])
  }

  lemma {:induction false} PositionIsPreorder(t: Tree, p: Path)
    requires InTree(t, p)
    ensures Preorder(t)[Position(t, p)] == p
    decreases |p|, 0
  {
    if p != [] {
      PositionAmongIsPreorder(t.children, p, 0);
      assert [p[0]] + p[1..] == p;
    }
  }

  lemma {:induction false} PositionAmongIsPreorder(ts: seq<Tree>, p: Path, i: nat)
    requires p != [] && p[0] < |ts| && InTree(ts[p[0]], p[1..])
    ensures PreorderAll(ts, i)[PositionAmong(ts, p)] == [i + p[0]] + p[1..]
    decreases |p| - 1, |ts|
  {
    if p[0] == 0 {
      PositionIsPreorder(ts[0], p[1..]);
    } else {
      var q := [p[0] - 1] + p[1..];
      assert q[1..] == p[1..];
      PositionAmongIsPreorder(ts[1..], q, i + 1);
    }
  }

  /** Different nodes have different positions. */
  lemma PositionInjective(t: Tree, p: Path, q: Path)
    requires InTree(t, p) && InTree(t, q) && Position(t, p) == Position(t, q)
    ensures p == q
  {
    PositionIsPreorder(t, p);
    PositionIsPreorder(t, q);
  }

  // ---- how ancestors and siblings compare ----

  /** A strict ancestor comes first. */
  lemma {:induction false} AncestorFirst(t: Tree, p: Path, q: Path)
    requires InTree(t, q) && InTree(t, p) && |p| < |q| && q[..|p|] == p
    ensures Position(t, p) < Position(t, q)
    decreases |p|, 0
  {
    if p != [] {
      assert p[0] == q[0] && q[1..][..|p| - 1] == p[1..];
      AncestorFirst(t.children[p[0]], p[1..], q[1..]);
      SameChild(t.children, p, q);
    }
  }

  lemma {:induction false} SameChild(ts: seq<Tree>, p: Path, q: Path)
    requires p != [] && q != [] && p[0] == q[0] < |ts|
    requires InTree(ts[p[0]], p[1..]) && InTree(ts[p[0]], q[1..])
    requires Position(ts[p[0]], p[1..]) < Position(ts[p[0]], q[1..])
    ensures PositionAmong(ts, p) < PositionAmong(ts, q)
    decreases |ts|
  {
    if p[0] > 0 {
      var p', q' := [p[0] - 1] + p[1..], [q[0] - 1] + q[1..];
      assert p'[1..] == p[1..] && q'[1..] == q[1..];
      SameChild(ts[1..], p', q');
    }
  }

  lemma {:induction false} EarlierChild(ts: seq<Tree>, p: Path, q: Path)
    requires p != [] && q != [] && p[0] < q[0] < |ts|
    requires InTree(ts[p[0]], p[1..]) && InTree(ts[q[0]], q[1..])
    ensures PositionAmong(ts, p) < PositionAmong(ts, q)
    decreases |ts|
  {
    if p[0] > 0 {
      var p', q' := [p[0] - 1] + p[1..], [q[0] - 1] + q[1..];
      assert p'[1..] == p[1..] && q'[1..] == q[1..];
      EarlierChild(ts[1..], p', q');
    }
  }

  /** Of two nodes below different children of one node, the one below the earlier child comes first. */
  lemma {:induction false} SiblingsFirst(t: Tree, p: Path, q: Path, k: nat)
    requires InTree(t, p) && InTree(t, q) && k < |p| && k < |q| && p[..k] == q[..k] && p[k] < q[k]
    ensures Position(t, p) < Position(t, q)
    decreases k
  {
    if k == 0 {
      EarlierChild(t.children, p, q);
    } else {
      assert p[0] == p[..k][0] == q[..k][0] == q[0];
      assert p[1..][..k - 1] == p[..k][1..] && q[1..][..k - 1] == q[..k][1..];
      SiblingsFirst(t.children[p[0]], p[1..], q[1..], k - 1);
      SameChild(t.children, p, q);
    }
  }

  function Sign(n: int): int { if n < 0 then -1 else if n > 0 then 1 else 0 }

  // ---- the comparator ----

  /** `siblingCheck` on two siblings: `ret` when they are the same node. */
  method SiblingCheck(t: Tree, a: Path, b: Path, ret: int) returns (r: int)
    requires InTree(t, a) && InTree(t, b) && a != [] && b != [] && Front(a) == Front(b)
    ensures r == if a == b then ret else if Last(a) < Last(b) then -1 else 1
  {
    assert a == Front(a) + [Last(a)] && b == Front(b) + [Last(b)];
    if a == b { return ret; }
    LastInTree(t, b);
    ghost var front, n, k := Front(a), |Siblings(t, a)|, Last(a) + 1;
    var cur := NextSibling(t, a);
    while cur.Some?
      invariant Last(a) < k && cur == if k < n then Some(front + [k]) else None
      invariant k <= Last(b) || Last(b) < Last(a)
      decreases n - k
    {
      if cur.value == b { return -1; }
      SiblingInTree(t, a, k);
      assert Front(cur.value) == front && Last(cur.value) == k;
      cur := NextSibling(t, cur.value);
      k := k + 1;
    }
    return 1;
  }

  /** The chain of ancestors, outermost first, as the comparator collects it with `unshift`. */
  method ParentChain(p: Path) returns (chain: seq<Path>)
    ensures |chain| == |p| && forall i :: 0 <= i < |p| ==> chain[i] == p[..i]
  {
    chain := [];
    var cur := ParentNode(p);
    ghost var k := |p|;
    assert p[..k] == p;
    while cur.Some?
      invariant 0 <= k <= |p| && cur == ParentNode(p[..k])
      invariant |chain| == |p| - k && forall i :: 0 <= i < |chain| ==> chain[i] == p[..k + i]
      decreases k
    {
      assert Front(p[..k]) == p[..k - 1];
      chain := [cur.value] + chain;
      cur := ParentNode(cur.value);
      k := k - 1;
    }
  }

  /** Who comes first by the first place where the two paths part. */
  function PathOrder(a: Path, b: Path): int
    decreases |a|
  {
    if a == [] && b == [] then 0
    else if a == [] then -1
    else if b == [] then 1
    else if a[0] != b[0] then (if a[0] < b[0] then -1 else 1)
    else PathOrder(a[1..], b[1..])
  }

  lemma {:induction false} OrderAtFork(a: Path, b: Path, k: nat)
    requires k < |a| && k < |b| && a[..k] == b[..k] && a[k] != b[k]
    ensures PathOrder(a, b) == if a[k] < b[k] then -1 else 1
    decreases k
  {
    if k > 0 {
      assert a[0] == a[..k][0] == b[..k][0] == b[0];
      assert a[1..][..k - 1] == a[..k][1..] && b[1..][..k - 1] == b[..k][1..];
      OrderAtFork(a[1..], b[1..], k - 1);
    }
  }

  lemma {:induction false} OrderOfPrefix(a: Path, b: Path)
    requires |a| < |b| && b[..|a|] == a
    ensures PathOrder(a, b) == -1 && PathOrder(b, a) == 1
  {
    if a != [] {
      assert a[0] == b[0] && b[1..][..|a| - 1] == a[1..];
      OrderOfPrefix(a[1..], b[1..]);
    }
  }

  /** Document order of two nodes of one tree is order of preorder positions. */
  lemma {:induction false} PathOrderIsPreorder(t: Tree, a: Path, b: Path)
    requires InTree(t, a) && InTree(t, b)
    ensures PathOrder(a, b) == Sign(Position(t, a) - Position(t, b))
  {
    var k := Fork(a, b);
    if k == |a| && k == |b| {
      assert a == b;
      SameOrder(a);
    } else if k == |a| {
      OrderOfPrefix(a, b);
      AncestorFirst(t, a, b);
    } else if k == |b| {
      OrderOfPrefix(b, a);
      AncestorFirst(t, b, a);
    } else {
      OrderAtFork(a, b, k);
      if a[k] < b[k] { SiblingsFirst(t, a, b, k); } else { SiblingsFirst(t, b, a, k); }
    }
  }

  lemma {:induction false} SameOrder(a: Path)
    ensures PathOrder(a, a) == 0
  {
    if a != [] { SameOrder(a[1..]); }
  }

  /** The length of the common beginning. */
  lemma {:induction false} Fork(a: Path, b: Path) returns (k: nat)
    ensures k <= |a| && k <= |b| && a[..k] == b[..k] && (k < |a| && k < |b| ==> a[k] != b[k])
  {
    if a == [] || b == [] || a[0] != b[0] {
      k := 0;
    } else {
      var j := Fork(a[1..], b[1..]);
      k := j + 1;
      assert a[..k] == [a[0]] + a[1..][..j] && b[..k] == [b[0]] + b[1..][..j];
    }
  }

  /** What the sort shares with its comparator. */
  class SortState {
    var hasDuplicate: bool

    constructor ()
      ensures !hasDuplicate
    {
      hasDuplicate := false;
    }

    /** The fallback `sortOrder`, for two nodes of one tree. */
    method SortOrder(t: Tree, a: Path, b: Path) returns (r: int)
      requires InTree(t, a) && InTree(t, b)
      modifies this
      ensures r == Sign(Position(t, a) - Position(t, b))
      ensures hasDuplicate == (old(hasDuplicate) || a == b)
    {
      PathOrderIsPreorder(t, a, b);
      hide Position;
      var aup, bup := ParentNode(a), ParentNode(b);
      if a == b {
        SameOrder(a);
        hasDuplicate := true;
        return 0;
      } else if aup == bup {
        if aup.Some? { SiblingsPart(a, b); }
        r := SiblingCheck(t, a, b, 0);
        return;
      } else if aup.None? {
        return -1;
      } else if bup.None? {
        return 1;
      }
      var ap := ParentChain(a);
      var bp := ParentChain(b);
      var i := 0;
      while i < |ap| && i < |bp|
        invariant 0 <= i <= |ap| && i <= |bp|
        invariant i > 0 ==> a[..i - 1] == b[..i - 1]
      {
        if ap[i] != bp[i] {
          Parting(t, a, b, i);
          r := SiblingCheck(t, ap[i], bp[i], 0);
          return;
        }
        i := i + 1;
      }
      // one chain is a beginning of the other
      if i == |ap| {
        assert ap[i - 1] == a[..i - 1] && bp[i - 1] == b[..i - 1];
        Ending(t, a, b);
        r := SiblingCheck(t, a, bp[i], -1);
      } else {
        assert ap[i - 1] == a[..i - 1] && bp[i - 1] == b[..i - 1];
        Ending(t, b, a);
        r := SiblingCheck(t, ap[i], b, 1);
      }
    }
  }

  /** Siblings compare by their positions. */
  lemma SiblingsPart(a: Path, b: Path)
    requires a != [] && b != [] && Front(a) == Front(b) && a != b
    ensures PathOrder(a, b) == if Last(a) < Last(b) then -1 else 1
  {
    var k := |a| - 1;
    assert a == Front(a) + [Last(a)] && b == Front(b) + [Last(b)];
    assert a[..k] == Front(a) && b[..k] == Front(b);
    OrderAtFork(a, b, k);
  }

  /** Where the ancestor chains part, the two ancestors are siblings and decide the order. */
  lemma Parting(t: Tree, a: Path, b: Path, i: nat)
    requires InTree(t, a) && InTree(t, b) && i < |a| && i < |b| && a[..i] != b[..i]
    requires i > 0 ==> a[..i - 1] == b[..i - 1]
    ensures i > 0 && InTree(t, a[..i]) && InTree(t, b[..i]) && Front(a[..i]) == Front(b[..i])
    ensures PathOrder(a, b) == if Last(a[..i]) < Last(b[..i]) then -1 else 1
  {
    assert a[..0] == b[..0];
    PrefixInTree(t, a, i);
    PrefixInTree(t, b, i);
    assert a[..i] == a[..i - 1] + [a[i - 1]] && b[..i] == b[..i - 1] + [b[i - 1]];
    OrderAtFork(a, b, i - 1);
  }

  /** When the parents of `a` are the first parents of `b`, `b`'s next ancestor is `a` or a sibling. */
  lemma Ending(t: Tree, a: Path, b: Path)
    requires InTree(t, b) && 0 < |a| < |b| && a[..|a| - 1] == b[..|a| - 1]
    ensures var c := b[..|a|];
            && InTree(t, c) && Front(c) == Front(a)
            && PathOrder(a, b) == (if a == c || Last(a) < Last(c) then -1 else 1)
            && PathOrder(b, a) == (if a == c || Last(a) < Last(c) then 1 else -1)
  {
    var k := |a| - 1;
    var c := b[..|a|];
    PrefixInTree(t, b, |a|);
    assert Front(c) == b[..k];
    if a == c {
      OrderOfPrefix(a, b);
    } else {
      assert a == Front(a) + [Last(a)] && c == Front(c) + [Last(c)];
      OrderAtFork(a, b, k);
      OrderAtFork(b, a, k);
    }
  }

  /** `sortOrder` is a strict total order on the nodes of a tree. */
  lemma OrderIsTotal(t: Tree, a: Path, b: Path, c: Path)
    requires InTree(t, a) && InTree(t, b) && InTree(t, c)
    ensures PathOrder(a, b) == 0 <==> a == b
    ensures PathOrder(a, b) == -PathOrder(b, a)
    ensures PathOrder(a, b) < 0 && PathOrder(b, c) < 0 ==> PathOrder(a, c) < 0
  {
    PathOrderIsPreorder(t, a, b);
    PathOrderIsPreorder(t, b, a);
    PathOrderIsPreorder(t, b, c);
    PathOrderIsPreorder(t, a, c);
    if PathOrder(a, b) == 0 { PositionInjective(t, a, b); }
  }
}
