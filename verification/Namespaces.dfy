/** Event namespaces: the pattern that `unbind` and `trigger` build from a list of names, and
    what it means for it to match a handler's stored namespace string. */
module Namespaces {

  // ---- the small part of regular expressions that the pattern uses ----

  datatype Regex = Text(t: string) | AnyRun | Cat(a: Regex, b: Regex) | Maybe(r: Regex)
                 | Either(l: Regex, m: Regex) | AtStart | AtEnd

  predicate IsLineEnd(c: char) {
    c == '\n' || c == '\r' || c == '\U{2028}' || c == '\U{2029}'
  }

  /** `re` can match `s` from position `i` to position `j`. */
  predicate Matches(re: Regex, s: string, i: nat, j: nat)
    requires i <= j <= |s|
  {
    match re
    case Text(t) => s[i..j] == t
    case AnyRun => forall k :: i <= k < j ==> !IsLineEnd(s[k])
    case Cat(a, b) => exists k :: i <= k <= j && Matches(a, s, i, k) && Matches(b, s, k, j)
    case Maybe(r) => i == j || Matches(r, s, i, j)
    case Either(l, m) => Matches(l, s, i, j) || Matches(m, s, i, j)
    case AtStart => i == j == 0
    case AtEnd => i == j == |s|
  }

  /** `RegExp.prototype.test`: a match anywhere. */
  predicate Test(re: Regex, s: string) {
    exists i, j :: 0 <= i <= j <= |s| && Matches(re, s, i, j)
  }

  /** The names joined by `\.(?:.*\.)?`. */
  function Middle(q: seq<string>): Regex {
    if |q| == 0 then Text("")
    else if |q| == 1 then Text(q[0])
    else Cat(Text(q[0]), Cat(Text("."), Cat(Maybe(Cat(AnyRun, Text("."))), Middle(q[1..]))))
  }

  /** `(^|\.)` + the joined names + `(\.|$)`. */
  function Pattern(q: seq<string>): Regex {
    Cat(Either(AtStart, Text(".")), Cat(Middle(q), Either(Text("."), AtEnd)))
  }

  /** `join(".")`. */
  function Join(ns: seq<string>): string {
    if |ns| == 0 then "" else if |ns| == 1 then ns[0] else ns[0] + "." + Join(ns[1..])
  }

  predicate IsWordChar(c: char) {
    'a' <= c <= 'z' || 'A' <= c <= 'Z' || '0' <= c <= '9' || c == '_'
  }

  predicate IsName(n: string) {
    |n| > 0 && forall i :: 0 <= i < |n| ==> IsWordChar(n[i])
  }

  predicate AllNames(ns: seq<string>) {
    forall i :: 0 <= i < |ns| ==> IsName(ns[i])
  }

  /** `q` can be found in `ns` in order, with gaps. */
  predicate Subsequence(q: seq<string>, ns: seq<string>)
    decreases |q|, 1
  {
    q == [] || exists k :: 0 <= k < |ns| && StartsAt(q, ns, k)
  }

  /** The first name of `q` is found at `k` and the others after it. */
  predicate StartsAt(q: seq<string>, ns: seq<string>, k: nat)
    requires q != [] && k < |ns|
    decreases |q|, 0
  {
    ns[k] == q[0] && Subsequence(q[1..], ns[k + 1..])
  }

  // ---- where names stand in the joined string ----

  predicate IsBreak(s: string, p: int) {
    p == |s| || (0 <= p < |s| && s[p] == '.')
  }

  lemma JoinCharacters(ns: seq<string>)
    requires AllNames(ns)
    ensures forall i :: 0 <= i < |Join(ns)| ==> IsWordChar(Join(ns)[i]) || Join(ns)[i] == '.'
  {
    if |ns| > 1 { JoinCharacters(ns[1..]); }
  }

  lemma NotLonger(n: string, m: string, s: string)
    requires IsName(n) && IsName(m) && |n| <= |s| && |m| <= |s|
    requires s[..|n|] == n && s[..|m|] == m && IsBreak(s, |m|)
    ensures |n| <= |m|
  {
    assert forall i :: 0 <= i < |n| ==> s[..|n|][i] == s[i];
  }

  /** A name is cut off at a break of the joined string exactly when it is the first name. */
  lemma FirstName(ns: seq<string>, n: string)
    requires ns != [] && AllNames(ns) && IsName(n)
    ensures |ns[0]| <= |Join(ns)| && IsBreak(Join(ns), |ns[0]|) && Join(ns)[..|ns[0]|] == ns[0]
    ensures |n| <= |Join(ns)| && Join(ns)[..|n|] == n && IsBreak(Join(ns), |n|) ==> n == ns[0]
    ensures |Join(ns)| > |ns[0]| <==> |ns| > 1
    ensures |ns| > 1 ==> Join(ns)[|ns[0]| + 1..] == Join(ns[1..])
  {
    var s := Join(ns);
    if |n| <= |s| && s[..|n|] == n && IsBreak(s, |n|) {
      NotLonger(n, ns[0], s);
      NotLonger(ns[0], n, s);
    }
  }

  /** The text behind a dot is the join of a later part of the list. */
  lemma {:induction false} BehindDot(ns: seq<string>, p: nat) returns (k: nat)
    requires ns != [] && AllNames(ns) && 0 < p <= |Join(ns)| && Join(ns)[p - 1] == '.'
    ensures 1 <= k < |ns| && Join(ns)[p..] == Join(ns[k..])
    decreases |ns|
  {
    var s, n := Join(ns), |ns[0]|;
    FirstName(ns, ns[0]);
    assert forall i :: 0 <= i < n ==> s[i] == s[..n][i] == ns[0][i];
    assert p - 1 >= n;
    assert |ns| > 1;
    if p == n + 1 {
      k := 1;
    } else {
      var m := BehindDot(ns[1..], p - n - 1);
      k := m + 1;
      assert s[p..] == Join(ns[1..])[p - n - 1..];
      assert ns[1..][m..] == ns[k..];
    }
  }

  /** ... and every later part stands behind a dot. */
  lemma {:induction false} DotBefore(ns: seq<string>, k: nat) returns (p: nat)
    requires AllNames(ns) && 1 <= k < |ns|
    ensures |ns[0]| < p <= |Join(ns)| && Join(ns)[p - 1] == '.' && Join(ns)[p..] == Join(ns[k..])
    ensures k > 1 ==> p > |ns[0]| + 1
    decreases k
  {
    var n := |ns[0]|;
    FirstName(ns, ns[0]);
    if k == 1 {
      p := n + 1;
    } else {
      var m := DotBefore(ns[1..], k - 1);
      p := m + n + 1;
      assert Join(ns)[p..] == Join(ns[1..])[m..];
      assert ns[1..][k - 1..] == ns[k..];
      assert Join(ns)[p - 1] == Join(ns)[n + 1..][m - 1];
    }
  }

  // ---- the middle of the pattern ----

  lemma CatAt(a: Regex, b: Regex, s: string, i: nat, j: nat) returns (k: nat)
    requires i <= j <= |s| && Matches(Cat(a, b), s, i, j)
    ensures i <= k <= j && Matches(a, s, i, k) && Matches(b, s, k, j)
  {
    k :| i <= k <= j && Matches(a, s, i, k) && Matches(b, s, k, j);
  }

  lemma CatOf(a: Regex, b: Regex, s: string, i: nat, k: nat, j: nat)
    requires i <= k <= j <= |s| && Matches(a, s, i, k) && Matches(b, s, k, j)
    ensures Matches(Cat(a, b), s, i, j)
  {
  }

  lemma DotAt(s: string, i: nat, j: nat)
    requires i <= j <= |s|
    ensures Matches(Text("."), s, i, j) <==> j == i + 1 && s[i] == '.'
  {
    if j == i + 1 { assert s[i..j] == [s[i]]; }
  }

  /** The joined names match from `i` up to some break. */
  predicate MiddleFrom(q: seq<string>, s: string, i: nat)
    requires i <= |s|
  {
    exists j :: i <= j <= |s| && Matches(Middle(q), s, i, j) && IsBreak(s, j)
  }

  predicate Plain(s: string) {
    forall i :: 0 <= i < |s| ==> !IsLineEnd(s[i])
  }

  /** After the first name and its dot, the next name starts at once or behind any later dot. */
  predicate NextFrom(q: seq<string>, s: string, i: nat)
    requires |q| > 1
  {
    var a := i + |q[0]|;
    && a < |s| && s[i..a] == q[0] && s[a] == '.'
    && exists p :: a + 1 <= p <= |s| && (p == a + 1 || (p > a + 1 && s[p - 1] == '.')) && MiddleFrom(q[1..], s, p)
  }

  lemma MiddleUnfolds(q: seq<string>, s: string, i: nat)
    requires |q| > 1 && i <= |s| && Plain(s)
    ensures MiddleFrom(q, s, i) <==> NextFrom(q, s, i)
  {
    if MiddleFrom(q, s, i) {
      var j :| i <= j <= |s| && Matches(Middle(q), s, i, j) && IsBreak(s, j);
      MiddleGoesOn(q, s, i, j);
    }
    if NextFrom(q, s, i) { NextIsMiddle(q, s, i); }
  }

  const GAP := Maybe(Cat(AnyRun, Text(".")))

  lemma GapAt(s: string, b: nat, p: nat)
    requires b <= p <= |s| && Plain(s)
    ensures Matches(GAP, s, b, p) <==> p == b || (p > b && s[p - 1] == '.')
  {
    if p != b {
      if Matches(GAP, s, b, p) {
        var c := CatAt(AnyRun, Text("."), s, b, p);
        DotAt(s, c, p);
      }
      if s[p - 1] == '.' {
        DotAt(s, p - 1, p);
        assert Matches(AnyRun, s, b, p - 1);
        CatOf(AnyRun, Text("."), s, b, p - 1, p);
      }
    }
  }

  lemma MiddleGoesOn(q: seq<string>, s: string, i: nat, j: nat)
    requires |q| > 1 && i <= j <= |s| && Plain(s) && Matches(Middle(q), s, i, j) && IsBreak(s, j)
    ensures NextFrom(q, s, i)
  {
    var rest := Cat(GAP, Middle(q[1..]));
    var a := CatAt(Text(q[0]), Cat(Text("."), rest), s, i, j);
    var b := CatAt(Text("."), rest, s, a, j);
    DotAt(s, a, b);
    var p := CatAt(GAP, Middle(q[1..]), s, b, j);
    GapAt(s, b, p);
    assert s[i..a] == q[0];
    hide Matches, Middle;
    assert MiddleFrom(q[1..], s, p);
  }

  lemma NextIsMiddle(q: seq<string>, s: string, i: nat)
    requires |q| > 1 && i <= |s| && Plain(s) && NextFrom(q, s, i)
    ensures MiddleFrom(q, s, i)
  {
    var a := i + |q[0]|;
    var p :| a + 1 <= p <= |s| && (p == a + 1 || (p > a + 1 && s[p - 1] == '.')) && MiddleFrom(q[1..], s, p);
    var j :| p <= j <= |s| && Matches(Middle(q[1..]), s, p, j) && IsBreak(s, j);
    var rest := Cat(GAP, Middle(q[1..]));
    GapAt(s, a + 1, p);
    DotAt(s, a, a + 1);
    assert Matches(Text(q[0]), s, i, a);
    hide Matches;
    CatOf(GAP, Middle(q[1..]), s, a + 1, p, j);
    CatOf(Text("."), rest, s, a, a + 1, j);
    CatOf(Text(q[0]), Cat(Text("."), rest), s, i, a, j);
  }

  /** Where the second name of a found query is found. */
  lemma NextStart(q: seq<string>, ns: seq<string>) returns (k: nat)
    requires |q| > 1 && ns != [] && StartsAt(q, ns, 0)
    ensures k < |ns[1..]| && StartsAt(q[1..], ns[1..], k)
  {
    k := StartOf(q[1..], ns[1..]);
  }

  lemma StartOf(q: seq<string>, ns: seq<string>) returns (k: nat)
    requires q != [] && Subsequence(q, ns)
    ensures k < |ns| && StartsAt(q, ns, k)
  {
    k :| 0 <= k < |ns| && StartsAt(q, ns, k);
  }

  lemma StartAhead(q: seq<string>, ns: seq<string>, k: nat)
    requires q != [] && k < |ns|
    ensures StartsAt(q, ns, k) <==> StartsAt(q, ns[k..], 0)
  {
    assert ns[k..][0] == ns[k] && ns[k..][1..] == ns[k + 1..];
  }

  lemma StartsWithNext(q: seq<string>, ns: seq<string>, k: nat)
    requires |q| > 1 && ns != [] && q[0] == ns[0] && k < |ns[1..]| && StartsAt(q[1..], ns[1..], k)
    ensures StartsAt(q, ns, 0)
  {
    assert Subsequence(q[1..], ns[1..]);
  }

  /** From the start of a component, the joined query matches exactly the lists that begin with
      its first name and hold the others further on. */
  lemma {:induction false} MiddleIsSubsequence(q: seq<string>, s: string, i: nat, ns: seq<string>)
    requires q != [] && AllNames(q) && ns != [] && AllNames(ns)
    requires i <= |s| && s[i..] == Join(ns) && Plain(s)
    ensures MiddleFrom(q, s, i) <==> StartsAt(q, ns, 0)
    decreases |q|
  {
    if |q| == 1 {
      OneName(q, s, i, ns);
    } else {
      MiddleUnfolds(q, s, i);
      hide Matches, MiddleFrom, Middle;
      FirstThenDot(q[0], s, i, ns);
      if NextFrom(q, s, i) {
        var p, k := PartBehind(q, s, i, ns);
        MiddleIsSubsequence(q[1..], s, p, ns[1..][k..]);
        StartAhead(q[1..], ns[1..], k);
        StartsWithNext(q, ns, k);
      }
      if StartsAt(q, ns, 0) {
        var k := NextStart(q, ns);
        var p := PlaceOfPart(s, i, ns, k);
        StartAhead(q[1..], ns[1..], k);
        MiddleIsSubsequence(q[1..], s, p, ns[1..][k..]);
        assert NextFrom(q, s, i);
      }
    }
  }

  lemma FirstThenDot(n: string, s: string, i: nat, ns: seq<string>)
    requires IsName(n) && ns != [] && AllNames(ns) && i <= |s| && s[i..] == Join(ns)
    ensures var a := i + |n|; a < |s| && s[i..a] == n && s[a] == '.' <==> n == ns[0] && |ns| > 1
    ensures |ns| > 1 ==> s[i + |ns[0]| + 1..] == Join(ns[1..])
  {
    FirstName(ns, n);
    var a := i + |n|;
    if a < |s| {
      assert s[i..a] == Join(ns)[..|n|] && s[a] == Join(ns)[|n|];
    }
    if |ns| > 1 { assert s[i + |ns[0]| + 1..] == Join(ns)[|ns[0]| + 1..]; }
  }

  lemma PartBehind(q: seq<string>, s: string, i: nat, ns: seq<string>) returns (p: nat, k: nat)
    requires |q| > 1 && AllNames(q) && ns != [] && AllNames(ns) && i <= |s| && s[i..] == Join(ns)
    requires NextFrom(q, s, i)
    ensures q[0] == ns[0] && p <= |s| && k < |ns[1..]| && s[p..] == Join(ns[1..][k..]) && MiddleFrom(q[1..], s, p)
  {
    hide Matches, MiddleFrom, Middle;
    FirstThenDot(q[0], s, i, ns);
    var a := i + |q[0]|;
    p :| a + 1 <= p <= |s| && (p == a + 1 || (p > a + 1 && s[p - 1] == '.')) && MiddleFrom(q[1..], s, p);
    assert ns[1..] != [] && AllNames(ns[1..]);
    hide Join;
    if p == a + 1 {
      k := 0;
      assert ns[1..][0..] == ns[1..];
    } else {
      SliceFrom(s, a + 1, p);
      k := BehindDot(ns[1..], p - a - 1);
    }
  }

  lemma SliceFrom(s: string, a: nat, p: nat)
    requires a < p <= |s|
    ensures s[a..][p - a - 1] == s[p - 1] && s[a..][p - a..] == s[p..]
  {
  }

  lemma PlaceOfPart(s: string, i: nat, ns: seq<string>, k: nat) returns (p: nat)
    requires |ns| > 1 && AllNames(ns) && i <= |s| && s[i..] == Join(ns) && k < |ns[1..]|
    ensures var a := i + |ns[0]|; a + 1 <= p <= |s| && (p == a + 1 || (p > a + 1 && s[p - 1] == '.'))
    ensures s[p..] == Join(ns[1..][k..])
  {
    FirstThenDot(ns[0], s, i, ns);
    var a := i + |ns[0]|;
    if k == 0 {
      p := a + 1;
      assert ns[1..][0..] == ns[1..];
    } else {
      var m := DotBefore(ns[1..], k);
      p := a + 1 + m;
      assert s[p - 1] == s[a + 1..][m - 1] && s[p..] == s[a + 1..][m..];
    }
  }

  lemma OneName(q: seq<string>, s: string, i: nat, ns: seq<string>)
    requires |q| == 1 && IsName(q[0]) && ns != [] && AllNames(ns)
    requires i <= |s| && s[i..] == Join(ns)
    ensures MiddleFrom(q, s, i) <==> StartsAt(q, ns, 0)
  {
    var t, n := Join(ns), |q[0]|;
    FirstName(ns, q[0]);
    assert q[1..] == [];
    if MiddleFrom(q, s, i) {
      var j :| i <= j <= |s| && Matches(Text(q[0]), s, i, j) && IsBreak(s, j);
      assert s[i..j] == t[..n];
    }
    if ns[0] == q[0] {
      assert s[i..i + n] == t[..n];
      assert i + n < |s| ==> s[i + n] == t[n];
      assert Matches(Middle(q), s, i, i + n) && IsBreak(s, i + n);
    }
  }

  // ---- the whole pattern ----

  /** The pattern matches where the middle does, at the start or behind a dot. */
  lemma PatternUnfolds(q: seq<string>, s: string)
    ensures Test(Pattern(q), s)
            <==> exists i :: 0 <= i <= |s| && (i == 0 || s[i - 1] == '.') && MiddleFrom(q, s, i)
  {
    var open, close := Either(AtStart, Text(".")), Either(Text("."), AtEnd);
    if Test(Pattern(q), s) {
      var b, e :| 0 <= b <= e <= |s| && Matches(Pattern(q), s, b, e);
      var i := CatAt(open, Cat(Middle(q), close), s, b, e);
      DotAt(s, b, i);
      var j := CatAt(Middle(q), close, s, i, e);
      DotAt(s, j, e);
      assert MiddleFrom(q, s, i);
    }
    if exists i :: 0 <= i <= |s| && (i == 0 || s[i - 1] == '.') && MiddleFrom(q, s, i) {
      var i :| 0 <= i <= |s| && (i == 0 || s[i - 1] == '.') && MiddleFrom(q, s, i);
      var j :| i <= j <= |s| && Matches(Middle(q), s, i, j) && IsBreak(s, j);
      var b, e := if i == 0 then 0 else i - 1, if j == |s| then j else j + 1;
      DotAt(s, j, e);
      DotAt(s, b, i);
      CatOf(Middle(q), close, s, i, j, e);
      CatOf(open, Cat(Middle(q), close), s, b, i, e);
    }
  }

  lemma NothingInEmpty(q: seq<string>)
    requires q != [] && AllNames(q)
    ensures !MiddleFrom(q, "", 0)
  {
    if |q| > 1 { MiddleUnfolds(q, "", 0); }
  }

  lemma PatternIsSubsequence(q: seq<string>, ns: seq<string>)
    requires q != [] && AllNames(q) && AllNames(ns)
    ensures Test(Pattern(q), Join(ns)) <==> Subsequence(q, ns)
  {
    var s := Join(ns);
    PatternUnfolds(q, s);
    JoinCharacters(ns);
    if ns == [] {
      NothingInEmpty(q);
    } else {
      if exists i :: 0 <= i <= |s| && (i == 0 || s[i - 1] == '.') && MiddleFrom(q, s, i) {
        var i :| 0 <= i <= |s| && (i == 0 || s[i - 1] == '.') && MiddleFrom(q, s, i);
        var k := 0;
        if i > 0 { k := BehindDot(ns, i); }
        MiddleIsSubsequence(q, s, i, ns[k..]);
        StartAhead(q, ns, k);
      }
      if Subsequence(q, ns) {
        var k := StartOf(q, ns);
        var i := 0;
        if k > 0 { i := DotBefore(ns, k); }
        StartAhead(q, ns, k);
        MiddleIsSubsequence(q, s, i, ns[k..]);
      }
    }
  }

  // ---- sorting makes it inclusion ----

  /** The order of JavaScript's default sort: by code units. */
  predicate AtMost(a: string, b: string) {
    a == "" || (b != "" && (a[0] < b[0] || (a[0] == b[0] && AtMost(a[1..], b[1..]))))
  }

  lemma {:induction false} AtMostTotal(a: string, b: string)
    ensures AtMost(a, b) || AtMost(b, a)
    ensures AtMost(a, b) && AtMost(b, a) ==> a == b
  {
    if a != "" && b != "" {
      AtMostTotal(a[1..], b[1..]);
      assert a == [a[0]] + a[1..] && b == [b[0]] + b[1..];
    }
  }

  lemma {:induction false} AtMostTransitive(a: string, b: string, c: string)
    requires AtMost(a, b) && AtMost(b, c)
    ensures AtMost(a, c)
  {
    if a != "" && a[0] == b[0] == c[0] { AtMostTransitive(a[1..], b[1..], c[1..]); }
  }

  predicate Sorted(ns: seq<string>) {
    forall i, j :: 0 <= i < j < |ns| ==> AtMost(ns[i], ns[j])
  }

  function Insert(n: string, ns: seq<string>): (r: seq<string>)
    ensures multiset(r) == multiset(ns) + multiset{n}
  {
    if ns == [] || AtMost(n, ns[0]) then [n] + ns
    else
      assert ns == [ns[0]] + ns[1..];
      [ns[0]] + Insert(n, ns[1..])
  }

  lemma {:induction false} InsertSorted(n: string, ns: seq<string>)
    requires Sorted(ns)
    ensures Sorted(Insert(n, ns))
  {
    if ns == [] {
    } else if AtMost(n, ns[0]) {
      forall j | 0 < j < |ns| ensures AtMost(n, ns[j]) { AtMostTransitive(n, ns[0], ns[j]); }
    } else {
      InsertSorted(n, ns[1..]);
      AtMostTotal(n, ns[0]);
      var t := Insert(n, ns[1..]);
      forall j | 0 <= j < |t| ensures AtMost(ns[0], t[j]) {
        assert t[j] in multiset(ns[1..]) + multiset{n};
      }
    }
  }

  function Sort(ns: seq<string>): (r: seq<string>)
    ensures Sorted(r) && multiset(r) == multiset(ns)
  {
    if ns == [] then []
    else
      assert ns == [ns[0]] + ns[1..];
      InsertSorted(ns[0], Sort(ns[1..]));
      Insert(ns[0], Sort(ns[1..]))
  }

  lemma {:induction false} SubsequenceIsIncluded(q: seq<string>, ns: seq<string>)
    requires Subsequence(q, ns)
    ensures multiset(q) <= multiset(ns)
    decreases |q|
  {
    if q != [] {
      var k := StartOf(q, ns);
      SubsequenceIsIncluded(q[1..], ns[k + 1..]);
      assert q == [q[0]] + q[1..];
      assert ns == ns[..k] + ([ns[k]] + ns[k + 1..]);
    }
  }

  lemma {:induction false} IncludedIsSubsequence(q: seq<string>, ns: seq<string>)
    requires Sorted(q) && Sorted(ns) && multiset(q) <= multiset(ns)
    ensures Subsequence(q, ns)
    decreases |ns|
  {
    if q != [] {
      assert q[0] in multiset(q) && q[0] in multiset(ns);
      assert ns != [];
      if ns[0] == q[0] {
        BothShrink(q, ns);
        IncludedIsSubsequence(q[1..], ns[1..]);
        assert StartsAt(q, ns, 0);
      } else {
        if ns[0] in q { FirstIsLeast(q, ns); }
        SkipFirst(q, ns);
        IncludedIsSubsequence(q, ns[1..]);
        var k := StartOf(q, ns[1..]);
        assert ns[1..][k + 1..] == ns[k + 2..];
        assert StartsAt(q, ns, k + 1);
      }
    }
  }

  lemma BothShrink(q: seq<string>, ns: seq<string>)
    requires q != [] && ns != [] && q[0] == ns[0] && multiset(q) <= multiset(ns)
    ensures multiset(q[1..]) <= multiset(ns[1..])
  {
    assert q == [q[0]] + q[1..] && ns == [ns[0]] + ns[1..];
    var a, b := multiset(q[1..]), multiset(ns[1..]);
    assert multiset(q) == multiset{q[0]} + a && multiset(ns) == multiset{q[0]} + b;
    forall x ensures a[x] <= b[x] {
      assert multiset(q)[x] <= multiset(ns)[x];
    }
  }

  lemma SkipFirst(q: seq<string>, ns: seq<string>)
    requires ns != [] && ns[0] !in q && multiset(q) <= multiset(ns)
    ensures multiset(q) <= multiset(ns[1..])
  {
    assert ns == [ns[0]] + ns[1..];
    assert ns[0] !in multiset(q);
  }

  lemma FirstIsLeast(q: seq<string>, ns: seq<string>)
    requires Sorted(q) && Sorted(ns) && q != [] && ns != [] && q[0] in multiset(ns) && ns[0] in q
    ensures q[0] == ns[0]
  {
    var a :| 0 <= a < |ns| && ns[a] == q[0];
    var b :| 0 <= b < |q| && q[b] == ns[0];
    AtMostTotal(q[0], ns[0]);
  }

  /** The namespace test is inclusion: for word-character names, the pattern built from the
      sorted query matches the sorted, dot-joined namespaces of a handler exactly when the
      query, counted with multiplicity, is contained in them. */
  lemma NamespaceTest(q: seq<string>, ns: seq<string>)
    requires q != [] && AllNames(q) && AllNames(ns)
    ensures Test(Pattern(Sort(q)), Join(Sort(ns))) <==> multiset(q) <= multiset(ns)
  {
    SortKeepsNames(q);
    SortKeepsNames(ns);
    assert q[0] in q && q[0] in multiset(q);
    assert q[0] in multiset(Sort(q)) && q[0] in Sort(q);
    PatternIsSubsequence(Sort(q), Sort(ns));
    if Subsequence(Sort(q), Sort(ns)) { SubsequenceIsIncluded(Sort(q), Sort(ns)); }
    if multiset(q) <= multiset(ns) { IncludedIsSubsequence(Sort(q), Sort(ns)); }
  }

  lemma SortKeepsNames(ns: seq<string>)
    requires AllNames(ns)
    ensures AllNames(Sort(ns))
  {
    forall i | 0 <= i < |Sort(ns)| ensures IsName(Sort(ns)[i]) {
      assert Sort(ns)[i] in multiset(Sort(ns));
      assert Sort(ns)[i] in multiset(ns);
    }
  }
}
