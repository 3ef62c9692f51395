/** `set(px, d)`: the rules in any order, each at most once, separated by a delimiter. */
module SetParser {
  import opened Wrappers
  import opened Operators

  // ---- chains ----

  /** `picks` names rules that match one after the other from `s`, delimiter in between,
      giving `vs` and leaving `rest`. */
  ghost predicate Chain<V>(px: seq<Rule<V>>, d: Rule<V>, s: string, picks: seq<nat>, vs: seq<V>, rest: string)
    decreases |picks|
  {
    && |vs| == |picks| > 0
    && picks[0] < |px|
    && var r := px[picks[0]](s);
      && r.Success? && r.value == vs[0]
      && if |picks| == 1 then rest == r.rest
         else d(r.rest).Success? && Chain(px, d, d(r.rest).rest, picks[1..], vs[1..], rest)
  }

  ghost predicate Distinct(picks: seq<nat>) {
    forall i, j :: 0 <= i < j < |picks| ==> picks[i] != picks[j]
  }

  /** A chain that uses each rule at most once. */
  ghost predicate Use<V>(px: seq<Rule<V>>, d: Rule<V>, s: string, picks: seq<nat>, vs: seq<V>, rest: string) {
    Chain(px, d, s, picks, vs, rest) && Distinct(picks)
  }

  /** Earlier in lexicographic order, or equal. */
  ghost predicate Before(a: seq<nat>, b: seq<nat>)
    decreases |a|
  {
    a == [] || (b != [] && (a[0] < b[0] || (a[0] == b[0] && Before(a[1..], b[1..]))))
  }

  /** Leaving less is better; among equals the earlier rules win. */
  ghost predicate Better(picks: seq<nat>, rest: string, picks': seq<nat>, rest': string) {
    |rest| < |rest'| || (|rest| == |rest'| && Before(picks, picks'))
  }

  ghost predicate Optimal<V(!new)>(px: seq<Rule<V>>, d: Rule<V>, s: string, picks: seq<nat>, rest: string) {
    forall ps, vs, r :: Use(px, d, s, ps, vs, r) ==> Better(picks, rest, ps, r)
  }

  /** `vs` and `rest` come from an optimal chain. */
  ghost predicate Best<V(!new)>(px: seq<Rule<V>>, d: Rule<V>, s: string, vs: seq<V>, rest: string) {
    exists picks :: Use(px, d, s, picks, vs, rest) && Optimal(px, d, s, picks, rest)
  }

  ghost predicate NoneMatches<V>(px: seq<Rule<V>>, s: string) {
    forall i :: 0 <= i < |px| ==> px[i](s).Failure?
  }

  /** The same among chains that start with one of the first `n` rules. */
  ghost predicate OptimalBelow<V(!new)>(px: seq<Rule<V>>, d: Rule<V>, s: string, n: nat, picks: seq<nat>, rest: string) {
    forall ps, vs, r :: Use(px, d, s, ps, vs, r) && ps[0] < n ==> Better(picks, rest, ps, r)
  }

  ghost predicate AllConsume<V>(px: seq<Rule<V>>) {
    forall i :: 0 <= i < |px| ==> Consumes(px[i])
  }

  lemma {:induction false} ChainConsumes<V>(px: seq<Rule<V>>, d: Rule<V>, s: string, ps: seq<nat>, vs: seq<V>, r: string)
    requires Chain(px, d, s, ps, vs, r) && AllConsume(px) && Delimits(d)
    ensures |r| < |s|
    decreases |ps|
  {
    assert Consumes(px[ps[0]]);
    if |ps| > 1 { ChainConsumes(px, d, d(px[ps[0]](s).rest).rest, ps[1..], vs[1..], r); }
  }

  // ---- leaving one rule out ----

  function Without<V>(px: seq<V>, i: nat): (r: seq<V>)
    requires i < |px|
    ensures |r| == |px| - 1
  {
    px[..i] + px[i + 1..]
  }

  function Up(i: nat, j: nat): nat { if j < i then j else j + 1 }

  function Down(i: nat, j: nat): nat
    requires j != i
  {
    if j < i then j else j - 1
  }

  function UpAll(i: nat, ps: seq<nat>): (r: seq<nat>)
    ensures |r| == |ps| && forall k :: 0 <= k < |ps| ==> r[k] == Up(i, ps[k])
  {
    seq(|ps|, k requires 0 <= k < |ps| => Up(i, ps[k]))
  }

  function DownAll(i: nat, ps: seq<nat>): (r: seq<nat>)
    requires i !in ps
    ensures |r| == |ps| && forall k :: 0 <= k < |ps| ==> ps[k] != i && r[k] == Down(i, ps[k])
  {
    seq(|ps|, k requires 0 <= k < |ps| => assert ps[k] in ps; Down(i, ps[k]))
  }

  lemma {:induction false} ChainUp<V>(px: seq<Rule<V>>, d: Rule<V>, i: nat, s: string, ps: seq<nat>, vs: seq<V>, r: string)
    requires i < |px| && Chain(Without(px, i), d, s, ps, vs, r)
    ensures Chain(px, d, s, UpAll(i, ps), vs, r)
    decreases |ps|
  {
    var first := px[Up(i, ps[0])](s);
    assert first == Without(px, i)[ps[0]](s);
    if |ps| > 1 {
      ChainUp(px, d, i, d(first.rest).rest, ps[1..], vs[1..], r);
      assert UpAll(i, ps)[1..] == UpAll(i, ps[1..]);
    }
  }

  lemma {:induction false} ChainDown<V>(px: seq<Rule<V>>, d: Rule<V>, i: nat, s: string, ps: seq<nat>, vs: seq<V>, r: string)
    requires i < |px| && i !in ps && Chain(px, d, s, ps, vs, r)
    ensures Chain(Without(px, i), d, s, DownAll(i, ps), vs, r)
    decreases |ps|
  {
    var first := px[ps[0]](s);
    assert first == Without(px, i)[DownAll(i, ps)[0]](s);
    if |ps| > 1 {
      ChainDown(px, d, i, d(first.rest).rest, ps[1..], vs[1..], r);
      assert DownAll(i, ps)[1..] == DownAll(i, ps[1..]);
    }
  }

  lemma {:induction false} BeforeUp(i: nat, ps: seq<nat>, qs: seq<nat>)
    requires i !in qs && Before(ps, DownAll(i, qs))
    ensures Before(UpAll(i, ps), qs)
    decreases |ps|
  {
    if ps != [] && ps[0] == DownAll(i, qs)[0] {
      assert DownAll(i, qs)[1..] == DownAll(i, qs[1..]);
      BeforeUp(i, ps[1..], qs[1..]);
      assert UpAll(i, ps)[1..] == UpAll(i, ps[1..]);
    }
  }

  // ---- chains that start with rule i ----

  lemma Tail<V>(px: seq<Rule<V>>, d: Rule<V>, s: string, ps: seq<nat>, vs: seq<V>, r: string)
    requires Use(px, d, s, ps, vs, r) && |ps| > 1
    ensures var i, q := ps[0], d(px[ps[0]](s).rest).rest;
            i !in ps[1..] && Use(Without(px, i), d, q, DownAll(i, ps[1..]), vs[1..], r)
  {
    var i, q := ps[0], d(px[ps[0]](s).rest).rest;
    assert i !in ps[1..];
    ChainDown(px, d, i, q, ps[1..], vs[1..], r);
    var down := DownAll(i, ps[1..]);
    forall a, b | 0 <= a < b < |down| ensures down[a] != down[b] {
      assert ps[a + 1] != ps[b + 1];
    }
  }

  lemma Extend<V>(px: seq<Rule<V>>, d: Rule<V>, s: string, i: nat, ps: seq<nat>, vs: seq<V>, r: string)
    requires i < |px| && px[i](s).Success? && d(px[i](s).rest).Success?
    requires Use(Without(px, i), d, d(px[i](s).rest).rest, ps, vs, r)
    ensures Use(px, d, s, [i] + UpAll(i, ps), [px[i](s).value] + vs, r)
  {
    ChainUp(px, d, i, d(px[i](s).rest).rest, ps, vs, r);
    var all := [i] + UpAll(i, ps);
    assert all[1..] == UpAll(i, ps) && ([px[i](s).value] + vs)[1..] == vs;
    forall a, b | 0 <= a < b < |all| ensures all[a] != all[b] {
      if a > 0 { assert ps[a - 1] != ps[b - 1]; }
    }
  }

  /** When the scan goes on past rule `i`, the best tail over the other rules gives the best
      chain that starts with `i`. */
  lemma BestFromTail<V(!new)>(px: seq<Rule<V>>, d: Rule<V>, s: string, i: nat, tail: seq<nat>, rest: string,
                        ps: seq<nat>, vs: seq<V>, r: string)
    requires i < |px| && px[i](s).Success? && d(px[i](s).rest).Success?
    requires AllConsume(px) && Delimits(d)
    requires tail != [] && |rest| < |px[i](s).rest|
    requires Optimal(Without(px, i), d, d(px[i](s).rest).rest, tail, rest)
    requires Use(px, d, s, ps, vs, r) && ps[0] == i
    ensures Better([i] + UpAll(i, tail), rest, ps, r)
  {
    var all := [i] + UpAll(i, tail);
    assert all[1..] == UpAll(i, tail);
    if |ps| > 1 {
      Tail(px, d, s, ps, vs, r);
      var down := DownAll(i, ps[1..]);
      assert Better(tail, rest, down, r);
      if |rest| == |r| { BeforeUp(i, tail, ps[1..]); }
    }
  }

  /** When the scan stops at rule `i`, no longer chain starts with `i`. */
  lemma NothingFollows<V(!new)>(px: seq<Rule<V>>, d: Rule<V>, s: string, i: nat, ps: seq<nat>, vs: seq<V>, r: string)
    requires i < |px| && px[i](s).Success? && AllConsume(px) && Delimits(d)
    requires var t := px[i](s).rest;
             |px| == 1 || t == "" || d(t).Failure? || d(t).rest == ""
             || forall ps', vs', r' :: !Use(Without(px, i), d, d(t).rest, ps', vs', r')
    requires Use(px, d, s, ps, vs, r) && ps[0] == i
    ensures ps == [i] && r == px[i](s).rest
  {
    if |ps| > 1 {
      Tail(px, d, s, ps, vs, r);
      ChainConsumes(px, d, d(px[i](s).rest).rest, ps[1..], vs[1..], r);
      assert false;
    }
  }

  /** The search over the other rules: its result shortens the input, or nothing can follow. */
  lemma TailFacts<V(!new)>(px: seq<Rule<V>>, d: Rule<V>, i: nat, q: string, tail: seq<nat>, vs: seq<V>, rest: string)
    requires i < |px| && AllConsume(px) && Delimits(d)
    requires if tail == [] then rest == q else Use(Without(px, i), d, q, tail, vs, rest)
    requires AllConsume(Without(px, i)) ==> Optimal(Without(px, i), d, q, tail, rest)
    ensures Optimal(Without(px, i), d, q, tail, rest)
    ensures tail != [] ==> |rest| < |q|
    ensures tail == [] ==> forall ps, vs', r :: !Use(Without(px, i), d, q, ps, vs', r)
  {
    var qx := Without(px, i);
    assert AllConsume(qx);
    if tail == [] {
      forall ps, vs', r ensures !Use(qx, d, q, ps, vs', r) {
        if Use(qx, d, q, ps, vs', r) {
          ChainConsumes(qx, d, q, ps, vs', r);
        }
      }
    } else {
      ChainConsumes(qx, d, q, tail, vs, rest);
    }
  }

  /** The search itself.  `picks` records which rules the result uses. */
  method Search<V(!new)>(px: seq<Rule<V>>, d: Rule<V>, s: string) returns (vs: seq<V>, rest: string, ghost picks: seq<nat>)
    ensures if picks == [] then vs == [] && rest == s else Use(px, d, s, picks, vs, rest)
    ensures AllConsume(px) && Delimits(d) ==> Optimal(px, d, s, picks, rest)
    ensures AllConsume(px) && Delimits(d) ==>
              if NoneMatches(px, s) then picks == [] && vs == [] && rest == s else picks != [] && Best(px, d, s, vs, rest)
    ensures (vs == [] && rest == s) || exists ps :: Use(px, d, s, ps, vs, rest)
    decreases |px|
  {
    vs, rest, picks := [], s, [];
    var i := 0;
    while i < |px|
      invariant 0 <= i <= |px|
      invariant if picks == [] then vs == [] && rest == s
                else Use(px, d, s, picks, vs, rest) && picks[0] < i && |rest| < |s|
      invariant AllConsume(px) && Delimits(d) ==> OptimalBelow(px, d, s, i, picks, rest)
    {
      var r := px[i](s);
      if r.Success? {
        var last := |px| == 1;
        var q := "";
        if |r.rest| > 0 && !last {
          var m := d(r.rest);
          if m.Failure? { last := true; } else { q := m.rest; }
        } else {
          last := true;
        }
        if !last && |q| == 0 { last := true; }
        var rx, rxRest := [r.value], r.rest;
        ghost var mine: seq<nat> := [i];
        assert Use(px, d, s, mine, rx, rxRest);
        ghost var tail: seq<nat> := [];
        if !last {
          var tailVs, tailRest;
          tailVs, tailRest, tail := Search(Without(px, i), d, q);
          if AllConsume(px) && Delimits(d) { TailFacts(px, d, i, q, tail, tailVs, tailRest); }
          if |tailVs| > 0 {
            rx, rxRest := rx + tailVs, tailRest;
            mine := [i] + UpAll(i, tail);
            Extend(px, d, s, i, tail, tailVs, tailRest);
          }
        }
        if AllConsume(px) && Delimits(d) {
          StartingWith(px, d, s, i, last, q, tail, mine, rxRest);
          ScanStep(px, d, s, i, picks, rest, mine, rxRest);
        }
        if |rxRest| < |rest| {
          vs, rest, picks := rx, rxRest, mine;
        }
      } else {
        SkipStep(px, d, s, i, picks, rest);
      }
      i := i + 1;
      if |rest| == 0 {
        if AllConsume(px) && Delimits(d) { StopEarly(px, d, s, i, picks, rest); }
        break;
      }
    }
    if AllConsume(px) && Delimits(d) { EmptyMeansNone(px, d, s, picks, rest); }
  }

  /** `rest` after `mine` is best among the chains that start with `i`. */
  lemma StartingWith<V(!new)>(px: seq<Rule<V>>, d: Rule<V>, s: string, i: nat, last: bool, q: string,
                        tail: seq<nat>, mine: seq<nat>, rest: string)
    requires i < |px| && px[i](s).Success? && AllConsume(px) && Delimits(d)
    requires var t := px[i](s).rest;
             if last then tail == [] && (|px| == 1 || t == "" || d(t).Failure? || d(t).rest == "")
             else d(t).Success? && q == d(t).rest && Optimal(Without(px, i), d, q, tail, rest)
    requires tail == [] ==> mine == [i] && rest == px[i](s).rest
    requires tail == [] && !last ==> forall ps', vs', r' :: !Use(Without(px, i), d, q, ps', vs', r')
    requires tail != [] ==> mine == [i] + UpAll(i, tail) && |rest| < |px[i](s).rest|
    ensures forall ps, vs, r :: Use(px, d, s, ps, vs, r) && ps[0] == i ==> Better(mine, rest, ps, r)
  {
    forall ps, vs, r | Use(px, d, s, ps, vs, r) && ps[0] == i ensures Better(mine, rest, ps, r) {
      if tail == [] {
        NothingFollows(px, d, s, i, ps, vs, r);
        assert ps[1..] == [] && mine[1..] == [];
      } else {
        BestFromTail(px, d, s, i, tail, rest, ps, vs, r);
      }
    }
  }

  lemma ScanStep<V(!new)>(px: seq<Rule<V>>, d: Rule<V>, s: string, i: nat, picks: seq<nat>, rest: string,
                    mine: seq<nat>, mineRest: string)
    requires mine != [] && mine[0] == i && (picks == [] || picks[0] < i)
    requires OptimalBelow(px, d, s, i, picks, rest)
    requires forall ps, vs, r :: Use(px, d, s, ps, vs, r) && ps[0] == i ==> Better(mine, mineRest, ps, r)
    ensures if |mineRest| < |rest| then OptimalBelow(px, d, s, i + 1, mine, mineRest)
            else OptimalBelow(px, d, s, i + 1, picks, rest)
  {
  }

  lemma SkipStep<V(!new)>(px: seq<Rule<V>>, d: Rule<V>, s: string, i: nat, picks: seq<nat>, rest: string)
    requires i < |px| && px[i](s).Failure?
    ensures OptimalBelow(px, d, s, i, picks, rest) ==> OptimalBelow(px, d, s, i + 1, picks, rest)
  {
  }

  lemma StopEarly<V(!new)>(px: seq<Rule<V>>, d: Rule<V>, s: string, i: nat, picks: seq<nat>, rest: string)
    requires rest == "" && (picks == [] || picks[0] < i) && OptimalBelow(px, d, s, i, picks, rest)
    ensures Optimal(px, d, s, picks, rest)
  {
  }

  lemma EmptyMeansNone<V(!new)>(px: seq<Rule<V>>, d: Rule<V>, s: string, picks: seq<nat>, rest: string)
    requires AllConsume(px) && Optimal(px, d, s, picks, rest)
    requires picks == [] ==> rest == s
    requires picks != [] ==> exists vs :: Use(px, d, s, picks, vs, rest)
    ensures picks == [] <==> NoneMatches(px, s)
  {
    if picks == [] {
      forall i | 0 <= i < |px| ensures px[i](s).Failure? {
        if px[i](s).Success? {
          assert Consumes(px[i]);
          assert Use(px, d, s, [i], [px[i](s).value], px[i](s).rest);
        }
      }
    } else {
      var vs :| Use(px, d, s, picks, vs, rest);
      assert px[picks[0]](s).Success?;
    }
  }

  lemma {:induction false} BeforeBoth(a: seq<nat>, b: seq<nat>)
    requires Before(a, b) && Before(b, a)
    ensures a == b
    decreases |a|
  {
    if a != [] {
      BeforeBoth(a[1..], b[1..]);
      assert a == [a[0]] + a[1..] && b == [b[0]] + b[1..];
    }
  }

  lemma {:induction false} ChainGives<V>(px: seq<Rule<V>>, d: Rule<V>, s: string, picks: seq<nat>,
                                         vs: seq<V>, r: string, vs': seq<V>, r': string)
    requires Chain(px, d, s, picks, vs, r) && Chain(px, d, s, picks, vs', r')
    ensures vs == vs' && r == r'
    decreases |picks|
  {
    if |picks| > 1 { ChainGives(px, d, d(px[picks[0]](s).rest).rest, picks[1..], vs[1..], r, vs'[1..], r'); }
    assert vs == [vs[0]] + vs[1..] && vs' == [vs'[0]] + vs'[1..];
  }

  /** What is best is determined, values and rest, so `set` is a function of its input. */
  lemma BestIsUnique<V(!new)>(px: seq<Rule<V>>, d: Rule<V>, s: string, vs: seq<V>, r: string, vs': seq<V>, r': string)
    requires Best(px, d, s, vs, r) && Best(px, d, s, vs', r')
    ensures vs == vs' && r == r'
  {
    var ps :| Use(px, d, s, ps, vs, r) && Optimal(px, d, s, ps, r);
    var ps' :| Use(px, d, s, ps', vs', r') && Optimal(px, d, s, ps', r');
    BeforeBoth(ps, ps');
    ChainGives(px, d, s, ps, vs, r, vs', r');
  }

  /** `set(px, d, c)` as a rule: it never fails without a closing rule, and the closing rule is
      not asked when nothing matched. */
  method Set<V(!new)>(px: seq<Rule<V>>, d: Rule<V>, c: Option<Rule<V>>, s: string) returns (result: Parse<seq<V>>)
    ensures AllConsume(px) && Delimits(d) && NoneMatches(px, s) ==> result == Success([], s)
    ensures AllConsume(px) && Delimits(d) && !NoneMatches(px, s) ==>
              exists vs, rest :: Best(px, d, s, vs, rest) && result == Close(c, vs, rest)
    ensures result == Success([], s) || exists ps, vs, rest :: Use(px, d, s, ps, vs, rest) && result == Close(c, vs, rest)
  {
    var vs, rest;
    ghost var picks;
    vs, rest, picks := Search(px, d, s);
    if |vs| == 0 { return Success(vs, rest); }
    result := Close(c, vs, rest);
    assert Use(px, d, s, picks, vs, rest);
  }
}
