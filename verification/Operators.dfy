/** The parser combinators: rules map a string to a value and the unparsed rest, or fail. */
module Operators {
  import opened Wrappers

  datatype Parse<+V> = Failure | Success(value: V, rest: string)

  type Rule<!V> = string -> Parse<V>

  /** The rule shortens its input whenever it succeeds. */
  ghost predicate Consumes<V>(p: Rule<V>) {
    forall s :: p(s).Success? ==> |p(s).rest| < |s|
  }

  /** The rule never lengthens its input. */
  ghost predicate Delimits<V>(d: Rule<V>) {
    forall s :: d(s).Success? ==> |d(s).rest| <= |s|
  }

  // ---- many ----

  /** Applying `p` over and over from `s` yields exactly `vs` and stands at `rest`. */
  ghost predicate Steps<V>(p: Rule<V>, s: string, vs: seq<V>, rest: string)
    decreases |vs|
  {
    if vs == [] then rest == s
    else s != "" && p(s).Success? && p(s).value == vs[0] && Steps(p, p(s).rest, vs[1..], rest)
  }

  ghost predicate IsSuffix(t: string, s: string) {
    |t| <= |s| && t == s[|s| - |t|..]
  }

  ghost predicate Truncates<V>(p: Rule<V>) {
    forall s :: p(s).Success? ==> IsSuffix(p(s).rest, s)
  }

  lemma {:induction false} StepsSnoc<V>(p: Rule<V>, s: string, vs: seq<V>, mid: string)
    requires Steps(p, s, vs, mid) && mid != "" && p(mid).Success?
    ensures Steps(p, s, vs + [p(mid).value], p(mid).rest)
    decreases |vs|
  {
    var all := vs + [p(mid).value];
    if vs == [] {
      assert all[1..] == [];
    } else {
      StepsSnoc(p, p(s).rest, vs[1..], mid);
      assert all[1..] == vs[1..] + [p(mid).value];
    }
  }

  lemma {:induction false} StepsTruncate<V>(p: Rule<V>, s: string, vs: seq<V>, rest: string)
    requires Steps(p, s, vs, rest) && Truncates(p)
    ensures IsSuffix(rest, s)
    decreases |vs|
  {
    if vs != [] { StepsTruncate(p, p(s).rest, vs[1..], rest); }
  }

  /** `many(p)`: as long as there is input and `p` matches.  It needs a consuming rule to stop. */
  method Many<V>(p: Rule<V>, input: string) returns (rx: seq<V>, s: string)
    requires Consumes(p)
    ensures Steps(p, input, rx, s)
    ensures s == "" || p(s).Failure?
    ensures Truncates(p) ==> IsSuffix(s, input)
  {
    rx, s := [], input;
    while |s| > 0
      invariant Steps(p, input, rx, s)
      decreases |s|
    {
      var r := p(s);
      if r.Failure? {
        if Truncates(p) { StepsTruncate(p, input, rx, s); }
        return;
      }
      StepsSnoc(p, input, rx, s);
      rx := rx + [r.value];
      s := r.rest;
    }
    if Truncates(p) { StepsTruncate(p, input, rx, s); }
  }

  /** What `many` finds is determined: no other run of `p` that stops where it must gives anything else. */
  lemma {:induction false} ManyIsUnique<V>(p: Rule<V>, s: string, vs: seq<V>, r: string, vs': seq<V>, r': string)
    requires Steps(p, s, vs, r) && (r == "" || p(r).Failure?)
    requires Steps(p, s, vs', r') && (r' == "" || p(r').Failure?)
    ensures vs == vs' && r == r'
    decreases |vs|
  {
    if vs != [] && vs' != [] {
      ManyIsUnique(p, p(s).rest, vs[1..], r, vs'[1..], r');
      assert vs == [vs[0]] + vs[1..] && vs' == [vs'[0]] + vs'[1..];
    }
  }

  // ---- sequence ----

  /** A run of the leading rules: rule `j` reads `texts[j]`, the first of which is the input, and
      each further one is what the delimiter leaves of what the rule before has left. */
  ghost predicate Trace<V>(px: seq<Rule<V>>, d: Rule<V>, input: string, texts: seq<string>, values: seq<V>, rest: string) {
    && 1 <= |texts| == |values| <= |px| && texts[0] == input
    && (forall j :: 0 <= j < |texts| ==> Reads(px[j], texts[j], values[j]))
    && (forall j :: 0 <= j < |texts| - 1 ==> Follows(px[j], d, texts[j], texts[j + 1]))
    && rest == px[|texts| - 1](texts[|texts| - 1]).rest
  }

  ghost predicate Reads<V>(p: Rule<V>, s: string, v: V) {
    p(s).Success? && p(s).value == v
  }

  /** The text behind the delimiter behind what the rule reads. */
  predicate Follows<V>(p: Rule<V>, d: Rule<V>, s: string, next: string) {
    p(s).Success? && d(p(s).rest).Success? && next == d(p(s).rest).rest
  }

  /** ... with no delimiter at the end. */
  ghost predicate Ended<V>(px: seq<Rule<V>>, d: Rule<V>, input: string, texts: seq<string>, values: seq<V>, rest: string) {
    Trace(px, d, input, texts, values, rest) && d(rest).Failure?
  }

  /** Two runs read the same texts and values as far as both go. */
  lemma {:induction false} TracesAgree<V>(px: seq<Rule<V>>, d: Rule<V>, input: string, texts: seq<string>, vs: seq<V>, r: string,
                                          texts': seq<string>, vs': seq<V>, r': string, j: nat)
    requires Trace(px, d, input, texts, vs, r) && Trace(px, d, input, texts', vs', r') && j < |texts| && j < |texts'|
    ensures texts[j] == texts'[j] && vs[j] == vs'[j]
    decreases j
  {
    assert Reads(px[j], texts[j], vs[j]) && Reads(px[j], texts'[j], vs'[j]);
    if j > 0 {
      TracesAgree(px, d, input, texts, vs, r, texts', vs', r', j - 1);
      assert Follows(px[j - 1], d, texts[j - 1], texts[j - 1 + 1]) && Follows(px[j - 1], d, texts'[j - 1], texts'[j - 1 + 1]);
    }
  }

  /** Only one run ends without a delimiter. */
  lemma EndedIsUnique<V>(px: seq<Rule<V>>, d: Rule<V>, input: string, texts: seq<string>, vs: seq<V>, r: string,
                         texts': seq<string>, vs': seq<V>, r': string)
    requires Ended(px, d, input, texts, vs, r) && Ended(px, d, input, texts', vs', r')
    ensures texts == texts' && vs == vs' && r == r'
  {
    forall j | 0 <= j < |texts| && j < |texts'| ensures texts[j] == texts'[j] && vs[j] == vs'[j] {
      TracesAgree(px, d, input, texts, vs, r, texts', vs', r', j);
    }
    if |texts| < |texts'| { EndsHere(px, d, input, texts, vs, r, texts', vs', r'); }
    if |texts'| < |texts| { EndsHere(px, d, input, texts', vs', r', texts, vs, r); }
  }

  lemma EndsHere<V>(px: seq<Rule<V>>, d: Rule<V>, input: string, texts: seq<string>, vs: seq<V>, r: string,
                    texts': seq<string>, vs': seq<V>, r': string)
    requires Trace(px, d, input, texts, vs, r) && Trace(px, d, input, texts', vs', r') && |texts| < |texts'|
    ensures d(r).Success?
  {
    var j := |texts| - 1;
    TracesAgree(px, d, input, texts, vs, r, texts', vs', r', j);
    assert Follows(px[j], d, texts'[j], texts'[j + 1]);
  }

  lemma TraceStarts<V>(px: seq<Rule<V>>, d: Rule<V>, input: string)
    requires px != [] && px[0](input).Success?
    ensures Trace(px, d, input, [input], [px[0](input).value], px[0](input).rest)
  {
  }

  lemma TraceGoesOn<V>(px: seq<Rule<V>>, d: Rule<V>, input: string, texts: seq<string>, vs: seq<V>, r: string)
    requires Trace(px, d, input, texts, vs, r) && |texts| < |px| && d(r).Success?
    requires px[|texts|](d(r).rest).Success?
    ensures var m := px[|texts|](d(r).rest); Trace(px, d, input, texts + [d(r).rest], vs + [m.value], m.rest)
  {
    var n := |texts|;
    var texts', vs' := texts + [d(r).rest], vs + [px[n](d(r).rest).value];
    forall j | 0 <= j < |texts'| ensures Reads(px[j], texts'[j], vs'[j]) {
      if j < n { assert Reads(px[j], texts[j], vs[j]); }
    }
    forall j | 0 <= j < |texts'| - 1 ensures Follows(px[j], d, texts'[j], texts'[j + 1]) {
      if j < n - 1 { assert Follows(px[j], d, texts[j], texts[j + 1]); } else { assert Reads(px[j], texts[j], vs[j]); }
    }
  }

  /** Rules with one element hand back that element's own value, others a list. */
  datatype Item<+V> = Bare(value: V) | List(values: seq<V>)

  function Lift<V>(r: Parse<V>): Parse<Item<V>> {
    if r.Success? then Success(Bare(r.value), r.rest) else Failure
  }

  /** The end of `sequence` and `set`: an optional closing rule, whose value is dropped. */
  function Close<V, W>(c: Option<Rule<V>>, v: W, rest: string): Parse<W> {
    if c.None? then Success(v, rest)
    else
      var r := c.value(rest);
      if r.Failure? then Failure else Success(v, r.rest)
  }

  /** `sequence(px, d, c)` succeeds exactly when some k >= 1 leading rules match with no delimiter
      after the kth (and the closing rule agrees), and gives each rule's own value. */
  method Sequence<V>(px: seq<Rule<V>>, d: Rule<V>, c: Option<Rule<V>>, input: string) returns (result: Parse<Item<V>>)
    ensures |px| == 1 ==> result == Lift(px[0](input))
    ensures |px| != 1 ==> forall texts, values, rest :: Ended(px, d, input, texts, values, rest) ==>
              result == Close(c, List(values), rest)
    ensures |px| != 1 && result.Success? ==> exists texts, values, rest :: Ended(px, d, input, texts, values, rest)
  {
    if |px| == 1 { return Lift(px[0](input)); }
    hide Trace;
    var s := input;
    var r: Option<string> := None;
    var q: Option<string> := None;
    var rx: seq<V> := [];
    ghost var texts: seq<string> := [];
    var i := 0;
    while i < |px|
      invariant 0 <= i <= |px| && |rx| == i == |texts|
      invariant i == 0 ==> s == input && r == None && q == None
      invariant i > 0 ==> r.Some? && q == Some(s) && Trace(px, d, input, texts, rx, r.value)
                          && d(r.value).Success? && d(r.value).rest == s
    {
      var m := px[i](s);
      if m.Failure? { break; }
      if i == 0 { TraceStarts(px, d, input); } else { TraceGoesOn(px, d, input, texts, rx, r.value); }
      assert [] + [m.value] == [m.value] && [] + [s] == [s];
      r := Some(m.rest);
      rx, texts := rx + [m.value], texts + [s];
      i := i + 1;
      var n := d(m.rest);
      if n.Failure? { q := None; break; }
      s := n.rest;
      q := Some(s);
    }
    forall texts', vs', r' | Ended(px, d, input, texts', vs', r') ensures r.Some? && q == None && vs' == rx && r' == r.value {
      if i == 0 { FirstReads(px, d, input, texts', vs', r'); }
      else if q == None { EndedIsUnique(px, d, input, texts, rx, r.value, texts', vs', r'); }
      else { NoneEnds(px, d, input, texts, rx, r.value, s, texts', vs', r'); }
    }
    if r == None || q.Some? { return Failure; }
    assert Ended(px, d, input, texts, rx, r.value);
    result := Close(c, List(rx), r.value);
  }

  lemma FirstReads<V>(px: seq<Rule<V>>, d: Rule<V>, input: string, texts: seq<string>, vs: seq<V>, r: string)
    requires Trace(px, d, input, texts, vs, r)
    ensures px != [] && px[0](input).Success?
  {
    assert Reads(px[0], texts[0], vs[0]);
  }

  lemma ReadsNext<V>(px: seq<Rule<V>>, d: Rule<V>, input: string, texts: seq<string>, vs: seq<V>, r: string, n: nat)
    requires Trace(px, d, input, texts, vs, r) && 0 < n < |texts|
    ensures d(px[n - 1](texts[n - 1]).rest).Success? && px[n](d(px[n - 1](texts[n - 1]).rest).rest).Success?
  {
    assert Follows(px[n - 1], d, texts[n - 1], texts[n - 1 + 1]);
    assert Reads(px[n], texts[n], vs[n]);
  }

  /** If a delimiter follows the run and the next rule, if there is one, fails, no run ends. */
  lemma NoneEnds<V>(px: seq<Rule<V>>, d: Rule<V>, input: string, texts: seq<string>, vs: seq<V>, r: string, s: string,
                    texts': seq<string>, vs': seq<V>, r': string)
    requires Trace(px, d, input, texts, vs, r) && d(r).Success? && s == d(r).rest
    requires |texts| < |px| ==> px[|texts|](s).Failure?
    ensures !Ended(px, d, input, texts', vs', r')
  {
    if Ended(px, d, input, texts', vs', r') {
      var n := |texts|;
      if |texts'| < n {
        EndsHere(px, d, input, texts', vs', r', texts, vs, r);
      } else {
        TracesAgree(px, d, input, texts, vs, r, texts', vs', r', n - 1);
        if |texts'| > n { ReadsNext(px, d, input, texts', vs', r', n); }
      }
    }
  }

  /** Success, and the same unparsed rest. */
  predicate SameReading<V, W>(a: Parse<V>, b: Parse<W>) {
    a.Success? == b.Success? && (a.Success? ==> a.rest == b.rest)
  }

  /** A result of `sequence` by its general rule. */
  ghost predicate ByGeneralRule<V(!new)>(px: seq<Rule<V>>, d: Rule<V>, c: Option<Rule<V>>, s: string, result: Parse<Item<V>>) {
    || (exists texts, vs, rest :: Ended(px, d, s, texts, vs, rest) && result == Close(c, List(vs), rest))
    || (result == Failure && forall texts, vs, rest :: !Ended(px, d, s, texts, vs, rest))
  }

  /** A sequence of one rule reads what the general rule would exactly if the rule fails, or is
      followed by no delimiter and by nothing that the closing rule rejects or takes away. */
  lemma SingleRuleExactly<V(!new)>(p: Rule<V>, d: Rule<V>, c: Option<Rule<V>>, s: string, result: Parse<Item<V>>)
    requires ByGeneralRule([p], d, c, s, result)
    ensures SameReading(Lift(p(s)), result)
            <==> p(s).Failure? || (d(p(s).rest).Failure?
                                   && (c.Some? ==> c.value(p(s).rest).Success? && c.value(p(s).rest).rest == p(s).rest))
  {
    assert [p][0] == p;
    if p(s).Success? && d(p(s).rest).Failure? {
      TraceStarts([p], d, s);
      assert Ended([p], d, s, [s], [p(s).value], p(s).rest);
    }
  }

  function Letter(c: char): Rule<char> {
    (s: string) => if s != "" && s[0] == c then Success(c, s[1..]) else Failure
  }

  /** One rule, followed by a delimiter: `sequence` of it succeeds, where the general rule fails. */
  lemma SingleRuleAccepts(c: Option<Rule<char>>, result: Parse<Item<char>>)
    requires c == None && ByGeneralRule([Letter('a')], Letter(' '), c, "a ", result)
    ensures Lift(Letter('a')("a ")) == Success(Bare('a'), " ") && result == Failure
  {
    var px, d := [Letter('a')], Letter(' ');
    assert "a "[1..] == " " && " "[1..] == "";
    forall texts, vs, rest ensures !Ended(px, d, "a ", texts, vs, rest) {
      if Trace(px, d, "a ", texts, vs, rest) { assert Reads(px[0], texts[0], vs[0]); }
    }
  }
}
