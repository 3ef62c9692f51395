/** How `remove` calls itself: for every type when types are left out, and for every entry when the
    handler is left out.  When these calls come to an end, and what they leave. */
module Removal {
  import opened Wrappers
  import opened Namespaces
  import opened HandlerLists

  // ---- removal from all types ----

  /** The type argument is missing or empty (one blank word), or begins with a dot: it is appended
      to every bound type. */
  predicate IsEverywhere(words: seq<TypeSpec>)
    requires words != []
  {
    words[0].name == "" && (words[0].dotted || |words| == 1)
  }

  /** The type argument appended to a type. */
  function ForType(words: seq<TypeSpec>, t: string): (r: seq<TypeSpec>)
    requires words != []
    ensures r != [] && r[0].name == t && (t != "" ==> !IsEverywhere(r))
    ensures t == words[0].name ==> r == words
  {
    [words[0].(name := t)] + words[1..]
  }

  /** The words that concern type `t` then. */
  function WordsFor(t: string, words: seq<TypeSpec>): seq<TypeSpec>
    requires words != []
  {
    [words[0].(name := t)] + Live(words[1..])
  }

  /** Every type loses the entries in the namespaces that `wanted` asks for. */
  function Unbound(view: View, words: seq<TypeSpec>, wanted: Wanted): (r: View)
    requires words != []
    ensures NoEmptyList(r)
  {
    map t | t in view && Spared(view[t], t, WordsFor(t, words), wanted) != []
      :: Spared(view[t], t, WordsFor(t, words), wanted)
  }

  lemma UnboundLists(view: View, words: seq<TypeSpec>, wanted: Wanted, t: string)
    requires words != []
    ensures ListOf(Unbound(view, words, wanted), t) == Spared(ListOf(view, t), t, WordsFor(t, words), wanted)
  {
    if t !in view { SparedOfNone(t, WordsFor(t, words), wanted); }
    hide Spared, WordsFor;
  }

  /** What `remove` leaves.  From all types, the handler is not passed on. */
  function Removed(view: View, words: seq<TypeSpec>, wanted: Wanted): View
    requires words != []
  {
    if IsEverywhere(words) then Unbound(view, words, AnyHandler) else RemoveAll(view, words, wanted)
  }

  /** So removal from all types deletes what it is asked to exactly if no handler is given, or all
      entries in reach are known under the guid of the handler. */
  lemma HandlerIgnoredExactly(view: View, words: seq<TypeSpec>, wanted: Wanted)
    requires words != [] && IsEverywhere(words)
    ensures Removed(view, words, wanted) == Unbound(view, words, wanted)
            <==> forall t, h :: t in view && h in view[t] && HitBy(WordsFor(t, words), AnyHandler, t, h) ==>
                   wanted.AnyHandler? || wanted.guid == Some(h.guid)
  {
    hide Spared, WordsFor;
    var all, asked := Unbound(view, words, AnyHandler), Unbound(view, words, wanted);
    if all == asked {
      forall t, h | t in view && h in view[t] && HitBy(WordsFor(t, words), AnyHandler, t, h)
        ensures wanted.AnyHandler? || wanted.guid == Some(h.guid)
      {
        UnboundLists(view, words, AnyHandler, t);
        UnboundLists(view, words, wanted, t);
        HitByWanted(WordsFor(t, words), wanted, t, h);
        assert h !in ListOf(all, t) && h in ListOf(view, t);
      }
    }
    if forall t, h :: t in view && h in view[t] && HitBy(WordsFor(t, words), AnyHandler, t, h) ==>
                        wanted.AnyHandler? || wanted.guid == Some(h.guid) {
      forall t | t in view
        ensures Spared(view[t], t, WordsFor(t, words), AnyHandler) == Spared(view[t], t, WordsFor(t, words), wanted)
      {
        SparedEqual(view[t], t, WordsFor(t, words), wanted);
      }
    }
  }

  lemma HitByWanted(words: seq<TypeSpec>, wanted: Wanted, t: string, h: HandleObj)
    ensures HitBy(words, wanted, t, h) <==> HitBy(words, AnyHandler, t, h) && (wanted.AnyHandler? || wanted.guid == Some(h.guid))
  {
    hide InNamespaces;
    if i :| 0 <= i < |words| && words[i].name == t && Hit(words[i], AnyHandler, h) {
      assert wanted.AnyHandler? || wanted.guid == Some(h.guid) ==> Hit(words[i], wanted, h);
    }
    if i :| 0 <= i < |words| && words[i].name == t && Hit(words[i], wanted, h) {
      assert Hit(words[i], AnyHandler, h);
    }
  }

  lemma {:induction false} SparedEqual(items: seq<HandleObj>, t: string, words: seq<TypeSpec>, wanted: Wanted)
    requires forall h :: h in items && HitBy(words, AnyHandler, t, h) ==> wanted.AnyHandler? || wanted.guid == Some(h.guid)
    ensures Spared(items, t, words, AnyHandler) == Spared(items, t, words, wanted)
    decreases |items|
  {
    hide HitBy;
    if items != [] {
      SparedEqual(items[..|items| - 1], t, words, wanted);
      HitByWanted(words, wanted, t, items[|items| - 1]);
    }
  }

  /** Neither types nor namespaces. */
  const NO_TYPES := [TypeSpec("", [], false)]

  /** Two functions on click: `unbind()` with the first one takes both away. */
  lemma HandlerIgnored()
    ensures var view := map["click" := [HandleObj(Handler(1, 1), 1, ""), HandleObj(Handler(2, 2), 2, "")]];
            && Removed(view, NO_TYPES, WithGuid(Some(1))) == map[]
            && Unbound(view, NO_TYPES, WithGuid(Some(1))) != map[]
  {
    var e1, e2 := HandleObj(Handler(1, 1), 1, ""), HandleObj(Handler(2, 2), 2, "");
    var view: View := map["click" := [e1, e2]];
    var words := WordsFor("click", NO_TYPES);
    assert words == [TypeSpec("click", [], false)];
    hide Spared, WordsFor;
    forall h ensures HitBy(words, AnyHandler, "click", h) { HitByOne(words[0], AnyHandler, "click", h); }
    assert Spared([e1, e2], "click", words, AnyHandler) == [] by { NothingSpared([e1, e2], "click", words, AnyHandler); }
    HitByOne(words[0], WithGuid(Some(1)), "click", e2);
    assert e2 in [e1, e2] && e2 in Spared([e1, e2], "click", words, WithGuid(Some(1)));
    assert "click" in Unbound(view, NO_TYPES, WithGuid(Some(1)));
  }

  lemma {:induction false} NothingSpared(items: seq<HandleObj>, t: string, words: seq<TypeSpec>, wanted: Wanted)
    requires forall h :: h in items ==> HitBy(words, wanted, t, h)
    ensures Spared(items, t, words, wanted) == []
    decreases |items|
  {
    hide HitBy;
    if items != [] {
      NothingSpared(items[..|items| - 1], t, words, wanted);
      assert items[|items| - 1] in items;
    }
  }

  // ---- the calls ----

  ghost predicate Enumerates(enum: View -> seq<string>) {
    forall view, t :: t in enum(view) <==> t in view
  }

  /** One call of `remove`, which may make calls in turn, up to a depth; None if that is not enough.
      `enum` is the order in which `for in` goes through the bound types. */
  function CallOf(view: View, words: seq<TypeSpec>, wanted: Wanted, pos: Option<nat>,
                  enum: View -> seq<string>, depth: nat): Option<View>
    requires words != []
    decreases depth, 3, 0
  {
    if depth == 0 then None
    else if IsEverywhere(words) then OverTypes(view, enum(view), words, enum, depth)
    else OverWords(view, words, wanted, pos, enum, depth)
  }

  /** The loop over the bound types: a call for each that is still there. */
  function OverTypes(view: View, names: seq<string>, words: seq<TypeSpec>, enum: View -> seq<string>, depth: nat): Option<View>
    requires words != [] && depth > 0
    decreases depth, 2, |names|
  {
    if names == [] then Some(view)
    else if names[0] !in view then OverTypes(view, names[1..], words, enum, depth)
    else
      match CallOf(view, ForType(words, names[0]), AnyHandler, None, enum, depth - 1)
      case None => None
      case Some(after) => OverTypes(after, names[1..], words, enum, depth)
  }

  /** The loop over the words. */
  function OverWords(view: View, specs: seq<TypeSpec>, wanted: Wanted, pos: Option<nat>,
                     enum: View -> seq<string>, depth: nat): Option<View>
    requires depth > 0
    decreases depth, 2, |specs|
  {
    if specs == [] || specs[0].IsBlank() then Some(view)
    else if specs[0].name !in view then OverWords(view, specs[1..], wanted, pos, enum, depth)
    else if wanted.WithGuid? then
      OverWords(if pos.Some? then DropSingle(view, specs[0].name) else RemoveOne(view, specs[0], wanted),
                specs[1..], wanted, pos, enum, depth)
    else
      match OverEntries(view, specs[0], view[specs[0].name], 0, enum, depth)
      case None => None
      case Some(after) => OverWords(after, specs[1..], wanted, pos, enum, depth)
  }

  /** The loop over the entries of a list from place `j` on, without a handler: for each one in the
      namespaces a call with the same word, the entry's function and its place, then the splice. */
  function OverEntries(view: View, spec: TypeSpec, items: seq<HandleObj>, j: nat,
                       enum: View -> seq<string>, depth: nat): Option<View>
    requires depth > 0
    decreases depth, 1, |items| - j
  {
    if j >= |items| then Some(view)
    else if !InNamespaces(spec, items[j]) then OverEntries(view, spec, items, j + 1, enum, depth)
    else
      match CallOf(view, [spec], WithGuid(Some(items[j].handler.guid)), Some(j), enum, depth - 1)
      case None => None
      case Some(after) =>
        var rest := items[..j] + items[j + 1..];
        OverEntries(if spec.name in after then after[spec.name := rest] else after, spec, rest, j, enum, depth)
  }

  // ---- when they end ----

  /** No word without a name reaches an entry of the blank type. */
  predicate Untouched(view: View, specs: seq<TypeSpec>) {
    forall i, h :: 0 <= i < |Live(specs)| && Live(specs)[i].name == "" && h in ListOf(view, "") ==>
      !InNamespaces(Live(specs)[i], h)
  }

  /** From all types: the blank type is not bound.  By words: a handler is given, or no word without
      a name reaches an entry of the blank type. */
  predicate Finishes(view: View, words: seq<TypeSpec>, wanted: Wanted)
    requires words != []
  {
    if IsEverywhere(words) then "" !in view else wanted.WithGuid? || Untouched(view, words)
  }

  lemma UntouchedCons(view: View, specs: seq<TypeSpec>)
    requires specs != [] && !specs[0].IsBlank()
    ensures Untouched(view, specs)
            <==> (specs[0].name == "" ==> forall h :: h in ListOf(view, "") ==> !InNamespaces(specs[0], h))
                 && Untouched(view, specs[1..])
  {
    hide InNamespaces, ListOf;
    var a, b := Live(specs), Live(specs[1..]);
    assert a == [specs[0]] + b;
    if Untouched(view, specs) {
      assert a[0] == specs[0];
      forall i, h | 0 <= i < |b| && b[i].name == "" && h in ListOf(view, "") ensures !InNamespaces(b[i], h) {
        assert a[i + 1] == b[i];
      }
    }
    if (specs[0].name == "" ==> forall h :: h in ListOf(view, "") ==> !InNamespaces(specs[0], h)) && Untouched(view, specs[1..]) {
      forall i, h | 0 <= i < |a| && a[i].name == "" && h in ListOf(view, "") ensures !InNamespaces(a[i], h) {
        if i > 0 { assert a[i] == b[i - 1]; }
      }
    }
  }

  lemma UntouchedSame(view: View, view': View, specs: seq<TypeSpec>)
    requires ListOf(view, "") == ListOf(view', "")
    ensures Untouched(view, specs) <==> Untouched(view', specs)
  {
    hide InNamespaces, ListOf;
  }

  lemma UntouchedUnbound(view: View, specs: seq<TypeSpec>)
    requires "" !in view
    ensures Untouched(view, specs)
  {
  }

  /** Removing by one word leaves the list of the blank type alone, unless it reaches an entry there. */
  lemma BlankKept(view: View, spec: TypeSpec)
    requires spec.name == "" ==> forall h :: h in ListOf(view, "") ==> !InNamespaces(spec, h)
    ensures ListOf(RemoveOne(view, spec, AnyHandler), "") == ListOf(view, "")
    ensures spec.name == "" && NoEmptyList(view) ==> RemoveOne(view, spec, AnyHandler) == view
  {
    hide InNamespaces;
    if spec.name == "" { KeepsUnhit(ListOf(view, ""), spec); }
  }

  lemma {:induction false} KeepsUnhit(items: seq<HandleObj>, spec: TypeSpec)
    requires forall h :: h in items ==> !InNamespaces(spec, h)
    ensures Keep(items, spec, AnyHandler) == items
    decreases |items|
  {
    hide InNamespaces;
    if items != [] {
      KeepsUnhit(items[..|items| - 1], spec);
      assert items[|items| - 1] in items;
      assert items == items[..|items| - 1] + [items[|items| - 1]];
    }
  }

  lemma {:induction false} BlankKeptByAll(view: View, specs: seq<TypeSpec>)
    requires Untouched(view, specs) && NoEmptyList(view)
    ensures var after := RemoveAll(view, specs, AnyHandler); ListOf(after, "") == ListOf(view, "") && NoEmptyList(after)
    decreases |specs|
  {
    hide Untouched, RemoveOne, ListOf;
    if specs != [] && !specs[0].IsBlank() {
      UntouchedCons(view, specs);
      BlankKept(view, specs[0]);
      var next := RemoveOne(view, specs[0], AnyHandler);
      UntouchedSame(view, next, specs[1..]);
      RemoveOneNoEmpty(view, specs[0], AnyHandler);
      BlankKeptByAll(next, specs[1..]);
    }
  }

  lemma RemoveOneNoEmpty(view: View, spec: TypeSpec, wanted: Wanted)
    requires NoEmptyList(view)
    ensures NoEmptyList(RemoveOne(view, spec, wanted))
  {
    hide Keep;
  }

  /** The call for one entry, by a word with a name. */
  lemma PositionalCall(view: View, spec: TypeSpec, guid: Option<nat>, j: nat, enum: View -> seq<string>, depth: nat)
    requires spec.name != "" && depth > 0
    ensures CallOf(view, [spec], WithGuid(guid), Some(j), enum, depth) == Some(DropSingle(view, spec.name))
  {
    assert [spec][1..] == [] && [spec][0] == spec;
    var next := DropSingle(view, spec.name);
    assert OverWords(next, [], WithGuid(guid), Some(j), enum, depth) == Some(next);
  }

  /** Such calls and splices amount to the filter. */
  lemma {:induction false} EntriesRun(before: View, view: View, spec: TypeSpec, k: nat, items: seq<HandleObj>, j: nat,
                                      enum: View -> seq<string>, depth: nat)
    requires depth > 0 && spec.name != "" && spec.name in before
    requires Sieved(before[spec.name], k, items, j, spec, AnyHandler) && view == WithList(before, spec.name, items)
    ensures var r := OverEntries(view, spec, items, j, enum, depth);
            (r.Some? ==> r.value == RemoveOne(before, spec, AnyHandler)) && (depth > 1 ==> r.Some?)
    decreases |before[spec.name]| - k
  {
    hide Keep, InNamespaces, CallOf, WithList, Sieved;
    var all := before[spec.name];
    if j >= |items| {
      SieveEnds(all, k, items, j, spec, AnyHandler);
    } else {
      var h := items[j];
      if InNamespaces(spec, h) {
        SieveDrops(all, k, items, j, spec, AnyHandler);
        if depth == 1 {
          NoDepth(view, [spec], WithGuid(Some(h.handler.guid)), Some(j), enum);
        } else {
          PositionalCall(view, spec, Some(h.handler.guid), j, enum, depth - 1);
          var rest := items[..j] + items[j + 1..];
          AfterSplice(before, view, spec.name, items, rest);
          EntriesRun(before, WithList(before, spec.name, rest), spec, k + 1, rest, j, enum, depth);
        }
      } else {
        SieveKeeps(all, k, items, j, spec, AnyHandler);
        EntriesRun(before, view, spec, k + 1, items, j + 1, enum, depth);
      }
    }
  }

  lemma NoDepth(view: View, words: seq<TypeSpec>, wanted: Wanted, pos: Option<nat>, enum: View -> seq<string>)
    requires words != []
    ensures CallOf(view, words, wanted, pos, enum, 0) == None
  {
  }

  lemma AfterSplice(before: View, view: View, name: string, items: seq<HandleObj>, rest: seq<HandleObj>)
    requires items != [] && |rest| == |items| - 1 && view == WithList(before, name, items)
    ensures var after := DropSingle(view, name);
            (if name in after then after[name := rest] else after) == WithList(before, name, rest)
  {
  }

  /** A word without a name that reaches nothing changes nothing. */
  lemma {:induction false} EntriesSkip(view: View, spec: TypeSpec, items: seq<HandleObj>, j: nat, enum: View -> seq<string>, depth: nat)
    requires depth > 0 && forall h :: h in items ==> !InNamespaces(spec, h)
    ensures OverEntries(view, spec, items, j, enum, depth) == Some(view)
    decreases |items| - j
  {
    hide InNamespaces;
    if j < |items| { EntriesSkip(view, spec, items, j + 1, enum, depth); }
  }

  /** One that reaches an entry begins a call without end. */
  lemma {:induction false} EntriesSink(view: View, spec: TypeSpec, items: seq<HandleObj>, j: nat, k: nat,
                                       enum: View -> seq<string>, depth: nat)
    requires Enumerates(enum) && NoEmptyList(view) && "" in view
    requires depth > 0 && spec.name == "" && spec.dotted && j <= k < |items| && InNamespaces(spec, items[k])
    ensures OverEntries(view, spec, items, j, enum, depth) == None
    decreases depth, 1, |items| - j
  {
    hide InNamespaces, CallOf, Enumerates;
    if InNamespaces(spec, items[j]) {
      Sinks(view, [spec], WithGuid(Some(items[j].handler.guid)), Some(j), enum, depth - 1);
    } else {
      EntriesSink(view, spec, items, j + 1, k, enum, depth);
    }
  }

  /** Without a handler, the loop over the words runs as specified unless a word without a name
      reaches an entry of the blank type; then it does not end. */
  lemma {:induction false} WordsRun(view: View, specs: seq<TypeSpec>, enum: View -> seq<string>, depth: nat)
    requires Enumerates(enum) && NoEmptyList(view) && depth > 0
    ensures var r := OverWords(view, specs, AnyHandler, None, enum, depth);
            && (r.Some? ==> Untouched(view, specs) && r.value == RemoveAll(view, specs, AnyHandler))
            && (Untouched(view, specs) && depth > 1 ==> r.Some?)
    decreases depth, 2, |specs|
  {
    hide Untouched, Enumerates, OverEntries, RemoveOne, InNamespaces, ListOf;
    if specs == [] || specs[0].IsBlank() {
      NothingToTouch(view, specs);
    } else {
      var spec, rest := specs[0], specs[1..];
      var next := RemoveOne(view, spec, AnyHandler);
      UntouchedCons(view, specs);
      RemoveOneNoEmpty(view, spec, AnyHandler);
      if spec.name !in view {
        NotThere(view, spec);
        WordsRun(view, rest, enum, depth);
      } else {
        WordRuns(view, spec, enum, depth);
        if spec.name != "" || forall h :: h in ListOf(view, "") ==> !InNamespaces(spec, h) {
          BlankKept(view, spec);
          UntouchedSame(view, next, rest);
          WordsRun(next, rest, enum, depth);
        }
      }
    }
  }

  lemma NothingToTouch(view: View, specs: seq<TypeSpec>)
    requires specs == [] || specs[0].IsBlank()
    ensures Untouched(view, specs)
  {
  }

  lemma NotThere(view: View, spec: TypeSpec)
    requires spec.name !in view
    ensures RemoveOne(view, spec, AnyHandler) == view && (spec.name == "" ==> ListOf(view, "") == [])
  {
  }

  /** One word. */
  lemma {:induction false} WordRuns(view: View, spec: TypeSpec, enum: View -> seq<string>, depth: nat)
    requires Enumerates(enum) && NoEmptyList(view) && depth > 0 && spec.name in view && !spec.IsBlank()
    ensures var r := OverEntries(view, spec, view[spec.name], 0, enum, depth);
            && (r.Some? ==> r.value == RemoveOne(view, spec, AnyHandler)
                            && (spec.name == "" ==> forall h :: h in ListOf(view, "") ==> !InNamespaces(spec, h)))
            && (depth > 1 && (spec.name != "" || forall h :: h in ListOf(view, "") ==> !InNamespaces(spec, h)) ==> r.Some?)
    decreases depth, 1, |view[spec.name]| + 1
  {
    hide Enumerates, OverEntries, RemoveOne, InNamespaces, Keep;
    var items := view[spec.name];
    if spec.name != "" {
      SieveStarts(items, spec, AnyHandler);
      assert view == WithList(view, spec.name, items);
      EntriesRun(view, view, spec, 0, items, 0, enum, depth);
    } else if forall h :: h in items ==> !InNamespaces(spec, h) {
      EntriesSkip(view, spec, items, 0, enum, depth);
      BlankKept(view, spec);
    } else {
      var k :| 0 <= k < |items| && InNamespaces(spec, items[k]);
      EntriesSink(view, spec, items, 0, k, enum, depth);
      assert items[k] in ListOf(view, "");
    }
  }

  /** Removal from all types does not end while the blank type is bound: for it the call has the
      arguments of this one. */
  lemma {:induction false} Sinks(view: View, words: seq<TypeSpec>, wanted: Wanted, pos: Option<nat>,
                                 enum: View -> seq<string>, depth: nat)
    requires Enumerates(enum) && NoEmptyList(view) && words != [] && IsEverywhere(words) && "" in view
    ensures CallOf(view, words, wanted, pos, enum, depth) == None
    decreases depth, 0, 1
  {
    hide OverTypes;
    if depth > 0 { TypesSink(view, enum(view), words, enum, depth); }
  }

  lemma {:induction false} TypesSink(view: View, names: seq<string>, words: seq<TypeSpec>, enum: View -> seq<string>, depth: nat)
    requires Enumerates(enum) && NoEmptyList(view) && words != [] && IsEverywhere(words) && "" in view
    requires "" in names && depth > 0
    ensures OverTypes(view, names, words, enum, depth) == None
    decreases depth, 0, 0, |names|
  {
    hide OverWords, Enumerates, ListOf, Untouched, RemoveAll;
    var name, rest := names[0], names[1..];
    if name == "" {
      Sinks(view, words, AnyHandler, None, enum, depth - 1);
    } else {
      assert "" in rest;
      if name !in view {
        TypesSink(view, rest, words, enum, depth);
      } else if depth > 1 {
        var one := ForType(words, name);
        WordsRun(view, one, enum, depth - 1);
        if Untouched(view, one) {
          BlankKeptByAll(view, one);
          StillBound(view, RemoveAll(view, one, AnyHandler));
          TypesSink(RemoveAll(view, one, AnyHandler), rest, words, enum, depth);
        }
      }
    }
  }

  lemma StillBound(view: View, after: View)
    requires "" in view && NoEmptyList(view) && ListOf(view, "") == ListOf(after, "")
    ensures "" in after
  {
  }

  /** With a handler the words make no calls. */
  lemma {:induction false} WordsDirect(view: View, specs: seq<TypeSpec>, wanted: Wanted, enum: View -> seq<string>, depth: nat)
    requires wanted.WithGuid? && depth > 0
    ensures OverWords(view, specs, wanted, None, enum, depth) == Some(RemoveAll(view, specs, wanted))
    decreases |specs|
  {
    hide Keep;
    if specs != [] && !specs[0].IsBlank() { WordsDirect(RemoveOne(view, specs[0], wanted), specs[1..], wanted, enum, depth); }
  }

  // ---- what they leave ----

  function Visited(names: seq<string>): set<string> { set t | t in names }

  /** Types visited so far have lost what their own word reaches, and all types what the further words ask for. */
  function WordsSoFar(t: string, words: seq<TypeSpec>, visited: bool, any: bool): seq<TypeSpec>
    requires words != []
  {
    (if visited then [words[0].(name := t)] else []) + (if any then Live(words[1..]) else [])
  }

  ghost predicate SweptTo(before: View, view: View, words: seq<TypeSpec>, visited: set<string>, any: bool)
    requires words != []
  {
    && NoEmptyList(view)
    && forall t :: ListOf(view, t) == Spared(ListOf(before, t), t, WordsSoFar(t, words, t in visited, any), AnyHandler)
  }

  lemma SweepStarts(view: View, words: seq<TypeSpec>)
    requires words != [] && NoEmptyList(view)
    ensures SweptTo(view, view, words, Visited([]), false)
  {
    hide Spared;
    forall t ensures WordsSoFar(t, words, false, false) == [] && Spared(ListOf(view, t), t, [], AnyHandler) == ListOf(view, t) {
      SparedNone(ListOf(view, t), t, [], AnyHandler);
    }
  }

  /** One type: its turn, or it is gone already. */
  lemma SweepNext(before: View, view: View, words: seq<TypeSpec>, names: seq<string>, name: string, any: bool)
    requires words != [] && SweptTo(before, view, words, Visited(names), any) && "" !in view
    ensures name !in view && any ==> SweptTo(before, view, words, Visited(names + [name]), true)
    ensures name in view ==>
              var after := RemoveAll(view, ForType(words, name), AnyHandler);
              SweptTo(before, after, words, Visited(names + [name]), true) && "" !in after
  {
    hide Spared, WordsSoFar, ListOf, RemoveAll;
    if name in view {
      var after := RemoveAll(view, ForType(words, name), AnyHandler);
      LiveFirst(words[0].(name := name), words[1..]);
      forall t
        ensures ListOf(after, t) == Spared(ListOf(before, t), t, WordsSoFar(t, words, t in Visited(names + [name]), true), AnyHandler)
      {
        RemoveAllLists(view, ForType(words, name), AnyHandler, t);
        TurnLists(before, view, words, names, name, any, t);
      }
      RemoveAllLists(view, ForType(words, name), AnyHandler, "");
      StaysUnbound(view, after, Live(ForType(words, name)));
    } else if any {
      forall t
        ensures ListOf(view, t) == Spared(ListOf(before, t), t, WordsSoFar(t, words, t in Visited(names + [name]), true), AnyHandler)
      {
        GoneLists(before, view, words, names, name, t);
      }
    }
  }

  lemma StaysUnbound(view: View, after: View, words: seq<TypeSpec>)
    requires "" !in view && NoEmptyList(after) && ListOf(after, "") == Spared(ListOf(view, ""), "", words, AnyHandler)
    ensures "" !in after
  {
    SparedOfNone("", words, AnyHandler);
    hide Spared;
  }

  lemma LiveFirst(spec: TypeSpec, more: seq<TypeSpec>)
    requires !spec.IsBlank()
    ensures Live([spec] + more) == [spec] + Live(more)
  {
    assert ([spec] + more)[1..] == more;
  }

  lemma TurnLists(before: View, view: View, words: seq<TypeSpec>, names: seq<string>, name: string, any: bool, t: string)
    requires words != [] && SweptTo(before, view, words, Visited(names), any)
    ensures Spared(ListOf(view, t), t, [words[0].(name := name)] + Live(words[1..]), AnyHandler)
            == Spared(ListOf(before, t), t, WordsSoFar(t, words, t in Visited(names + [name]), true), AnyHandler)
  {
    var spec, more := words[0].(name := name), Live(words[1..]);
    var old_ := WordsSoFar(t, words, t in Visited(names), any);
    var now := WordsSoFar(t, words, t in Visited(names + [name]), true);
    hide Spared, Hit, HitBy;
    SparedTwice(ListOf(before, t), t, old_, [spec] + more, AnyHandler);
    forall h ensures HitBy(old_ + ([spec] + more), AnyHandler, t, h) <==> HitBy(now, AnyHandler, t, h) {
      HitByConcat(old_, [spec] + more, AnyHandler, t, h);
      HitBySoFar(t, words, t in Visited(names), any, h);
      HitBySoFar(t, words, t in Visited(names + [name]), true, h);
      HitByConcat([spec], more, AnyHandler, t, h);
      HitByOne(spec, AnyHandler, t, h);
    }
    SparedSame(ListOf(before, t), t, old_ + ([spec] + more), now, AnyHandler);
  }

  lemma HitBySoFar(t: string, words: seq<TypeSpec>, visited: bool, any: bool, h: HandleObj)
    requires words != []
    ensures HitBy(WordsSoFar(t, words, visited, any), AnyHandler, t, h)
            <==> (visited && Hit(words[0].(name := t), AnyHandler, h)) || (any && HitBy(Live(words[1..]), AnyHandler, t, h))
  {
    var a := if visited then [words[0].(name := t)] else [];
    var b := if any then Live(words[1..]) else [];
    HitByConcat(a, b, AnyHandler, t, h);
    HitByOne(words[0].(name := t), AnyHandler, t, h);
    hide Hit;
  }

  /** A type without entries stays so. */
  lemma GoneLists(before: View, view: View, words: seq<TypeSpec>, names: seq<string>, name: string, t: string)
    requires words != [] && SweptTo(before, view, words, Visited(names), true) && name !in view
    ensures ListOf(view, t) == Spared(ListOf(before, t), t, WordsSoFar(t, words, t in Visited(names + [name]), true), AnyHandler)
  {
    var old_ := WordsSoFar(t, words, t in Visited(names), true);
    var now := WordsSoFar(t, words, t in Visited(names + [name]), true);
    hide Spared, Hit, HitBy, WordsSoFar;
    if t == name {
      var items := ListOf(before, t);
      assert Spared(items, t, old_, AnyHandler) == [];
      forall h | h in items ensures HitBy(now, AnyHandler, t, h) && HitBy(old_, AnyHandler, t, h) {
        assert h !in Spared(items, t, old_, AnyHandler);
        HitBySoFar(t, words, t in Visited(names), true, h);
        HitBySoFar(t, words, true, true, h);
      }
      SparedSame(items, t, old_, now, AnyHandler);
    }
  }

  /** When all types have been visited, the whole registry has been filtered. */
  lemma SweepEnds(before: View, view: View, words: seq<TypeSpec>, enum: View -> seq<string>)
    requires words != [] && Enumerates(enum) && NoEmptyList(before)
    requires SweptTo(before, view, words, Visited(enum(before)), |enum(before)| > 0)
    ensures view == Unbound(before, words, AnyHandler)
  {
    hide Spared, NoEmptyList, Unbound;
    var r := Unbound(before, words, AnyHandler);
    forall t ensures ListOf(view, t) == ListOf(r, t) {
      UnboundLists(before, words, AnyHandler, t);
      if t in before {
        assert t in enum(before) && t in Visited(enum(before));
      } else {
        SparedOfNone(t, WordsSoFar(t, words, t in Visited(enum(before)), |enum(before)| > 0), AnyHandler);
        SparedOfNone(t, WordsFor(t, words), AnyHandler);
      }
    }
    SweptHasNone(before, view, words, Visited(enum(before)), |enum(before)| > 0);
    SameLists(view, r);
  }

  lemma SweptHasNone(before: View, view: View, words: seq<TypeSpec>, visited: set<string>, any: bool)
    requires words != [] && SweptTo(before, view, words, visited, any)
    ensures NoEmptyList(view)
  {
  }

  /** The loop over the types when the blank one is not bound. */
  lemma {:induction false} TypesRun(before: View, view: View, words: seq<TypeSpec>, done: seq<string>, names: seq<string>,
                                    enum: View -> seq<string>, depth: nat)
    requires words != [] && Enumerates(enum) && depth > 2
    requires SweptTo(before, view, words, Visited(done), done != []) && "" !in view
    requires done == [] && names != [] ==> names[0] in view
    ensures OverTypes(view, names, words, enum, depth).Some?
    ensures SweptTo(before, OverTypes(view, names, words, enum, depth).value, words, Visited(done + names), done + names != [])
    decreases |names|
  {
    hide SweptTo, RemoveAll, Visited, OverWords, Untouched, Enumerates;
    if names == [] {
      assert done + names == done;
    } else {
      var name, rest := names[0], names[1..];
      assert done + names == (done + [name]) + rest;
      SweptHasNone(before, view, words, Visited(done), done != []);
      SweepNext(before, view, words, done, name, done != []);
      UntouchedUnbound(view, ForType(words, name));
      WordsRun(view, ForType(words, name), enum, depth - 1);
      var after := if name in view then RemoveAll(view, ForType(words, name), AnyHandler) else view;
      assert done + [name] != [] && done + names != [];
      TypesRun(before, after, words, done + [name], rest, enum, depth);
    }
  }

  /** A call of `remove` comes to an end if and only if `Finishes` holds, and then three levels of
      calls are enough and it leaves what is specified, whatever the order of the types. */
  lemma EndsExactly(view: View, words: seq<TypeSpec>, wanted: Wanted, enum: View -> seq<string>, depth: nat)
    requires Enumerates(enum) && NoEmptyList(view) && words != []
    ensures !Finishes(view, words, wanted) ==> CallOf(view, words, wanted, None, enum, depth) == None
    ensures Finishes(view, words, wanted) && depth > 2 ==>
              CallOf(view, words, wanted, None, enum, depth) == Some(Removed(view, words, wanted))
  {
    hide SweptTo, RemoveAll, Visited, Unbound, OverTypes, OverWords, Untouched;
    if IsEverywhere(words) {
      if "" in view {
        Sinks(view, words, wanted, None, enum, depth);
      } else if depth > 2 {
        SweepStarts(view, words);
        var names := enum(view);
        TypesRun(view, view, words, [], names, enum, depth);
        assert [] + names == names;
        SweepEnds(view, OverTypes(view, names, words, enum, depth).value, words, enum);
      }
    } else if depth > 0 {
      if wanted.WithGuid? { WordsDirect(view, words, wanted, enum, depth); } else { WordsRun(view, words, enum, depth); }
    }
  }

  // ---- calls without end ----

  /** A name such as `.foo` binds the blank type, and then `unbind()` never comes to an end. */
  lemma BlankTypeSinks(handler: Handler, enum: View -> seq<string>, depth: nat)
    requires Enumerates(enum)
    ensures var view := AddAll(map[], [TypeSpec("", ["foo"], true)], handler, None);
            "" in view && CallOf(view, NO_TYPES, AnyHandler, None, enum, depth) == None
  {
    var spec := TypeSpec("", ["foo"], true);
    AddOneWord(map[], spec, handler, None);
    hide Entry, CallOf, AddAll;
    InAppended(map[], "", Entry(spec, handler, None));
    Sinks(AddAll(map[], [spec], handler, None), NO_TYPES, AnyHandler, None, enum, depth);
  }

  /** After `bind("click", f)` and `bind(".x", g)`, `unbind("click .x")` never comes to an end. */
  lemma LaterWordSinks(f: Handler, g: Handler, enum: View -> seq<string>, depth: nat)
    requires Enumerates(enum)
    ensures var click, x := TypeSpec("click", [], false), TypeSpec("", ["x"], true);
            var view := AddAll(AddAll(map[], [click], f, None), [x], g, None);
            !IsEverywhere([click, x]) && CallOf(view, [click, x], AnyHandler, None, enum, depth) == None
  {
    var click, x := TypeSpec("click", [], false), TypeSpec("", ["x"], true);
    var before := AddAll(map[], [click], f, None);
    var view := AddAll(before, [x], g, None);
    AddOneWord(map[], click, f, None);
    AddOneWord(before, x, g, None);
    var e := Entry(x, g, None);
    assert InNamespaces(x, e) by { assert "x" == ['x']; HitByNamespaces(x, x, g, None); }
    hide Entry, CallOf, AddAll, InNamespaces;
    BindingTwo(before, view, Entry(click, f, None), e);
    assert [click, x][1..] == [x] && [x][1..] == [];
    UntouchedCons(view, [click, x]);
    UntouchedCons(view, [x]);
    EndsExactly(view, [click, x], AnyHandler, enum, depth);
  }

  lemma BindingTwo(before: View, view: View, c: HandleObj, e: HandleObj)
    requires before == Appended(map[], "click", c) && view == Appended(before, "", e)
    ensures NoEmptyList(view) && e in ListOf(view, "")
  {
    assert ListOf(view, "")[0] == e;
  }
}
