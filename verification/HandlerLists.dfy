/** The handler lists of one element, by event type: what binding and unbinding mean for them. */
module HandlerLists {
  import opened Wrappers
  import opened Namespaces

  /** A bound function and the guid under which it is known. */
  datatype Handler = Handler(code: nat, guid: nat)

  /** An entry of a handler list: its own guid may differ from the function's. */
  datatype HandleObj = HandleObj(handler: Handler, guid: nat, ns: string)

  /** One word of a type string: `click`, `click.a.b` (dotted), or the empty word. */
  datatype TypeSpec = TypeSpec(name: string, namespaces: seq<string>, dotted: bool) {
    predicate IsBlank() { name == "" && !dotted }
  }

  /** The handler argument of `remove`: missing, or a function that may never have got a guid. */
  datatype Wanted = AnyHandler | WithGuid(guid: Option<nat>)

  type View = map<string, seq<HandleObj>>

  // ---- what the operations mean on the lists ----

  predicate InNamespaces(spec: TypeSpec, h: HandleObj) {
    !spec.dotted || Test(Pattern(Sort(spec.namespaces)), h.ns)
  }

  /** The entries that `remove` is asked to delete. */
  predicate Hit(spec: TypeSpec, wanted: Wanted, h: HandleObj) {
    (wanted.AnyHandler? || wanted.guid == Some(h.guid)) && InNamespaces(spec, h)
  }

  function Keep(items: seq<HandleObj>, spec: TypeSpec, wanted: Wanted): (r: seq<HandleObj>)
    ensures |r| <= |items|
  {
    if items == [] then []
    else
      var last := items[|items| - 1];
      Keep(items[..|items| - 1], spec, wanted) + if Hit(spec, wanted, last) then [] else [last]
  }

  lemma KeepOfNone(spec: TypeSpec, wanted: Wanted)
    ensures Keep([], spec, wanted) == []
  {
  }

  lemma KeepSnoc(front: seq<HandleObj>, last: HandleObj, spec: TypeSpec, wanted: Wanted)
    ensures Keep(front + [last], spec, wanted) == Keep(front, spec, wanted) + if Hit(spec, wanted, last) then [] else [last]
    ensures !Hit(spec, wanted, last) ==> Keep(front + [last], spec, wanted) == Keep(front, spec, wanted) + [last]
    ensures Hit(spec, wanted, last) ==> Keep(front + [last], spec, wanted) == Keep(front, spec, wanted)
  {
    hide Hit;
    assert (front + [last])[..|front|] == front;
  }

  /** A list being filtered in place: the first `k` entries of `all` have been seen, and the next to
      be seen stands at place `j` of what is left. */
  ghost predicate Sieved(all: seq<HandleObj>, k: nat, items: seq<HandleObj>, j: nat, spec: TypeSpec, wanted: Wanted) {
    k <= |all| && j == |Keep(all[..k], spec, wanted)| && items == Keep(all[..k], spec, wanted) + all[k..]
  }

  lemma SieveStarts(all: seq<HandleObj>, spec: TypeSpec, wanted: Wanted)
    ensures Sieved(all, 0, all, 0, spec, wanted)
  {
    assert all[..0] == [] && all[0..] == all;
  }

  lemma SieveAt(all: seq<HandleObj>, k: nat, items: seq<HandleObj>, j: nat, spec: TypeSpec, wanted: Wanted)
    requires Sieved(all, k, items, j, spec, wanted) && j < |items|
    ensures k < |all| && items[j] == all[k]
    ensures items[..j] == Keep(all[..k], spec, wanted) && items[j + 1..] == all[k + 1..]
    ensures all[..k + 1] == all[..k] + [all[k]]
  {
    hide Hit, Keep;
    assert all[k..] == [all[k]] + all[k + 1..];
  }

  lemma SieveDrops(all: seq<HandleObj>, k: nat, items: seq<HandleObj>, j: nat, spec: TypeSpec, wanted: Wanted)
    requires Sieved(all, k, items, j, spec, wanted) && j < |items| && Hit(spec, wanted, items[j])
    ensures k < |all| && items[j] == all[k] && Sieved(all, k + 1, items[..j] + items[j + 1..], j, spec, wanted)
  {
    SieveAt(all, k, items, j, spec, wanted);
    hide Hit, Keep;
    KeepSnoc(all[..k], all[k], spec, wanted);
  }

  lemma SieveKeeps(all: seq<HandleObj>, k: nat, items: seq<HandleObj>, j: nat, spec: TypeSpec, wanted: Wanted)
    requires Sieved(all, k, items, j, spec, wanted) && j < |items| && !Hit(spec, wanted, items[j])
    ensures k < |all| && items[j] == all[k] && Sieved(all, k + 1, items, j + 1, spec, wanted)
  {
    SieveAt(all, k, items, j, spec, wanted);
    hide Hit, Keep;
    KeepSnoc(all[..k], all[k], spec, wanted);
    Regroup(items, j);
  }

  lemma Regroup(items: seq<HandleObj>, j: nat)
    requires j < |items|
    ensures items == items[..j] + [items[j]] + items[j + 1..]
  {
  }

  lemma SieveEnds(all: seq<HandleObj>, k: nat, items: seq<HandleObj>, j: nat, spec: TypeSpec, wanted: Wanted)
    requires Sieved(all, k, items, j, spec, wanted) && j >= |items|
    ensures k == |all| && items == Keep(all, spec, wanted)
  {
    hide Keep;
    assert all[..|all|] == all;
  }

  function WithList(view: View, name: string, items: seq<HandleObj>): View {
    if items == [] then view - {name} else view[name := items]
  }

  function RemoveOne(view: View, spec: TypeSpec, wanted: Wanted): View {
    if spec.name in view then WithList(view, spec.name, Keep(view[spec.name], spec, wanted)) else view
  }

  /** The first words of a type string: an empty word ends the source's loop. */
  function Live(specs: seq<TypeSpec>): (r: seq<TypeSpec>)
    ensures |r| <= |specs|
  {
    if specs == [] || specs[0].IsBlank() then [] else [specs[0]] + Live(specs[1..])
  }

  function RemoveAll(view: View, specs: seq<TypeSpec>, wanted: Wanted): View
    decreases |specs|
  {
    if specs == [] || specs[0].IsBlank() then view
    else RemoveAll(RemoveOne(view, specs[0], wanted), specs[1..], wanted)
  }

  function Entry(spec: TypeSpec, handler: Handler, own: Option<nat>): HandleObj {
    HandleObj(handler, if own.Some? then own.value else handler.guid,
              if spec.dotted then Join(Sort(spec.namespaces)) else "")
  }

  function AddAll(view: View, specs: seq<TypeSpec>, handler: Handler, own: Option<nat>): View
    decreases |specs|
  {
    if specs == [] || specs[0].IsBlank() then view
    else
      AddAll(Appended(view, specs[0].name, Entry(specs[0], handler, own)), specs[1..], handler, own)
  }

  function Appended(view: View, name: string, h: HandleObj): View {
    view[name := (if name in view then view[name] else []) + [h]]
  }

  /** What the positional call does to the lists: a list of one entry goes, nothing else changes. */
  function DropSingle(view: View, name: string): View {
    if name in view && |view[name]| <= 1 then view - {name} else view
  }

  lemma {:induction false} NothingToRemove(specs: seq<TypeSpec>, wanted: Wanted)
    ensures RemoveAll(map[], specs, wanted) == map[]
    decreases |specs|
  {
    if specs != [] && !specs[0].IsBlank() { NothingToRemove(specs[1..], wanted); }
  }

  // ---- what a string of words leaves of each list ----

  function ListOf(view: View, t: string): seq<HandleObj> {
    if t in view then view[t] else []
  }

  predicate NoEmptyList(view: View) {
    forall t :: t in view ==> view[t] != []
  }

  /** Some word for this type asks for the entry. */
  predicate HitBy(words: seq<TypeSpec>, wanted: Wanted, t: string, h: HandleObj) {
    exists i :: 0 <= i < |words| && words[i].name == t && Hit(words[i], wanted, h)
  }

  /** The entries of a type's list that no word for the type asks for, in order. */
  function Spared(items: seq<HandleObj>, t: string, words: seq<TypeSpec>, wanted: Wanted): (r: seq<HandleObj>)
    ensures forall h :: h in r <==> h in items && !HitBy(words, wanted, t, h)
  {
    if items == [] then []
    else
      var last := items[|items| - 1];
      Spared(items[..|items| - 1], t, words, wanted) + if HitBy(words, wanted, t, last) then [] else [last]
  }

  lemma HitByConcat(a: seq<TypeSpec>, b: seq<TypeSpec>, wanted: Wanted, t: string, h: HandleObj)
    ensures HitBy(a + b, wanted, t, h) <==> HitBy(a, wanted, t, h) || HitBy(b, wanted, t, h)
  {
    hide Hit;
    var c := a + b;
    if i :| 0 <= i < |a| && a[i].name == t && Hit(a[i], wanted, h) { assert c[i] == a[i]; }
    if i :| 0 <= i < |b| && b[i].name == t && Hit(b[i], wanted, h) { assert c[|a| + i] == b[i]; }
    if i :| 0 <= i < |c| && c[i].name == t && Hit(c[i], wanted, h) {
      if i < |a| { assert c[i] == a[i]; } else { assert c[i] == b[i - |a|]; }
    }
  }

  lemma HitByOne(spec: TypeSpec, wanted: Wanted, t: string, h: HandleObj)
    ensures HitBy([spec], wanted, t, h) <==> spec.name == t && Hit(spec, wanted, h)
  {
    hide Hit;
    assert [spec][0] == spec;
  }

  lemma {:induction false} SparedSame(items: seq<HandleObj>, t: string, a: seq<TypeSpec>, b: seq<TypeSpec>, wanted: Wanted)
    requires forall h :: h in items ==> (HitBy(a, wanted, t, h) <==> HitBy(b, wanted, t, h))
    ensures Spared(items, t, a, wanted) == Spared(items, t, b, wanted)
    decreases |items|
  {
    hide HitBy;
    if items != [] { SparedSame(items[..|items| - 1], t, a, b, wanted); }
  }

  lemma SparedSnoc(front: seq<HandleObj>, last: HandleObj, t: string, words: seq<TypeSpec>, wanted: Wanted)
    ensures !HitBy(words, wanted, t, last) ==> Spared(front + [last], t, words, wanted) == Spared(front, t, words, wanted) + [last]
    ensures HitBy(words, wanted, t, last) ==> Spared(front + [last], t, words, wanted) == Spared(front, t, words, wanted)
  {
    hide HitBy;
    assert (front + [last])[..|front|] == front;
  }

  lemma {:induction false} SparedNone(items: seq<HandleObj>, t: string, words: seq<TypeSpec>, wanted: Wanted)
    requires forall i :: 0 <= i < |words| ==> words[i].name != t
    ensures Spared(items, t, words, wanted) == items
    decreases |items|
  {
    hide Hit, Spared;
    if items == [] {
      SparedOfNone(t, words, wanted);
    } else {
      var front, last := items[..|items| - 1], items[|items| - 1];
      SparedNone(front, t, words, wanted);
      assert !HitBy(words, wanted, t, last);
      SparedSnoc(front, last, t, words, wanted);
      assert items == front + [last];
    }
  }

  lemma {:induction false} SparedTwice(items: seq<HandleObj>, t: string, a: seq<TypeSpec>, b: seq<TypeSpec>, wanted: Wanted)
    ensures Spared(Spared(items, t, a, wanted), t, b, wanted) == Spared(items, t, a + b, wanted)
    decreases |items|
  {
    hide HitBy;
    if items != [] {
      var front, last := items[..|items| - 1], items[|items| - 1];
      SparedTwice(front, t, a, b, wanted);
      HitByConcat(a, b, wanted, t, last);
      var kept := Spared(front, t, a, wanted);
      assert (kept + [last])[..|kept + [last]| - 1] == kept;
      assert kept + [] == kept;
    }
  }

  lemma {:induction false} KeepIsSpared(items: seq<HandleObj>, spec: TypeSpec, wanted: Wanted)
    ensures Keep(items, spec, wanted) == Spared(items, spec.name, [spec], wanted)
    decreases |items|
  {
    hide Hit;
    if items != [] {
      KeepIsSpared(items[..|items| - 1], spec, wanted);
      HitByOne(spec, wanted, spec.name, items[|items| - 1]);
    }
  }

  lemma RemoveOneLists(view: View, spec: TypeSpec, wanted: Wanted, t: string)
    ensures ListOf(RemoveOne(view, spec, wanted), t) == Spared(ListOf(view, t), t, [spec], wanted)
  {
    hide Keep, Spared;
    KeepIsSpared(ListOf(view, t), spec, wanted);
    if t == spec.name { assert t !in view ==> Spared([], t, [spec], wanted) == [] by { SparedOfNone(t, [spec], wanted); } }
    else { SparedNone(ListOf(view, t), t, [spec], wanted); }
  }

  lemma SparedOfNone(t: string, words: seq<TypeSpec>, wanted: Wanted)
    ensures Spared([], t, words, wanted) == []
  {
  }

  /** Removal by a string of words: the final list of a type is the old one without the entries
      that some word for the type asks for. */
  lemma {:induction false} RemoveAllLists(view: View, specs: seq<TypeSpec>, wanted: Wanted, t: string)
    ensures ListOf(RemoveAll(view, specs, wanted), t) == Spared(ListOf(view, t), t, Live(specs), wanted)
    ensures NoEmptyList(view) ==> NoEmptyList(RemoveAll(view, specs, wanted))
    decreases |specs|
  {
    hide Spared, Keep, ListOf;
    if specs == [] || specs[0].IsBlank() {
      SparedNone(ListOf(view, t), t, [], wanted);
    } else {
      RemoveOneLists(view, specs[0], wanted, t);
      RemoveAllLists(RemoveOne(view, specs[0], wanted), specs[1..], wanted, t);
      SparedTwice(ListOf(view, t), t, [specs[0]], Live(specs[1..]), wanted);
    }
  }

  /** The entries that a string of words adds to the list of a type. */
  function EntriesFor(words: seq<TypeSpec>, t: string, handler: Handler, own: Option<nat>): seq<HandleObj> {
    if words == [] then []
    else (if words[0].name == t then [Entry(words[0], handler, own)] else []) + EntriesFor(words[1..], t, handler, own)
  }

  /** Binding by a string of words appends one entry for every word of the type, in order. */
  lemma {:induction false} AddAllLists(view: View, specs: seq<TypeSpec>, handler: Handler, own: Option<nat>, t: string)
    ensures ListOf(AddAll(view, specs, handler, own), t) == ListOf(view, t) + EntriesFor(Live(specs), t, handler, own)
    decreases |specs|
  {
    hide Entry, Appended, ListOf;
    if specs == [] || specs[0].IsBlank() {
      assert ListOf(view, t) + [] == ListOf(view, t);
    } else {
      var rest := EntriesFor(Live(specs[1..]), t, handler, own);
      AddAllLists(Appended(view, specs[0].name, Entry(specs[0], handler, own)), specs[1..], handler, own, t);
      AppendedLists(view, specs[0].name, Entry(specs[0], handler, own), t);
      var first := if specs[0].name == t then [Entry(specs[0], handler, own)] else [];
      assert ([specs[0]] + Live(specs[1..]))[1..] == Live(specs[1..]);
      assert (ListOf(view, t) + first) + rest == ListOf(view, t) + (first + rest);
    }
  }

  lemma AppendedLists(view: View, name: string, h: HandleObj, t: string)
    ensures ListOf(Appended(view, name, h), t) == ListOf(view, t) + if name == t then [h] else []
  {
  }

  lemma SameLists(a: View, b: View)
    requires NoEmptyList(a) && NoEmptyList(b) && forall t :: ListOf(a, t) == ListOf(b, t)
    ensures a == b
  {
    forall t ensures t in a <==> t in b { assert ListOf(a, t) == ListOf(b, t); }
    forall t | t in a ensures a[t] == b[t] { assert ListOf(a, t) == ListOf(b, t); }
  }

  lemma AddOneWord(view: View, spec: TypeSpec, handler: Handler, own: Option<nat>)
    requires !spec.IsBlank()
    ensures AddAll(view, [spec], handler, own) == Appended(view, spec.name, Entry(spec, handler, own))
  {
    hide Entry, Appended;
    assert [spec][1..] == [];
    var next := Appended(view, spec.name, Entry(spec, handler, own));
    assert AddAll(next, [], handler, own) == next;
  }

  // ---- what the lists mean ----

  /** Removal is a filter: nothing that was asked for stays, everything else keeps its
      multiplicity, and parts of a list are treated independently, in order. */
  lemma {:induction false} KeepIsFilter(items: seq<HandleObj>, spec: TypeSpec, wanted: Wanted, h: HandleObj)
    ensures multiset(Keep(items, spec, wanted))[h] == if Hit(spec, wanted, h) then 0 else multiset(items)[h]
    decreases |items|
  {
    hide Hit, Keep;
    if items == [] {
      KeepOfNone(spec, wanted);
    } else {
      var front, last := items[..|items| - 1], items[|items| - 1];
      KeepIsFilter(front, spec, wanted, h);
      KeepSnoc(front, last, spec, wanted);
      CountSnoc(front, last, h);
      CountSnoc(Keep(front, spec, wanted), last, h);
      assert items == front + [last];
    }
  }

  lemma CountSnoc(items: seq<HandleObj>, last: HandleObj, h: HandleObj)
    ensures multiset(items + [last])[h] == multiset(items)[h] + if last == h then 1 else 0
  {
  }

  lemma {:induction false} KeepConcat(a: seq<HandleObj>, b: seq<HandleObj>, spec: TypeSpec, wanted: Wanted)
    ensures Keep(a + b, spec, wanted) == Keep(a, spec, wanted) + Keep(b, spec, wanted)
    decreases |b|
  {
    hide Hit;
    if b == [] {
      assert a + b == a;
    } else {
      KeepConcat(a, b[..|b| - 1], spec, wanted);
      assert (a + b)[..|a + b| - 1] == a + b[..|b| - 1];
    }
  }

  /** Which handlers a namespaced removal reaches. */
  lemma HitByNamespaces(spec: TypeSpec, bound: TypeSpec, handler: Handler, own: Option<nat>)
    requires spec.dotted && bound.dotted && spec.namespaces != []
    requires AllNames(spec.namespaces) && AllNames(bound.namespaces)
    ensures InNamespaces(spec, Entry(bound, handler, own))
            <==> multiset(spec.namespaces) <= multiset(bound.namespaces)
  {
    NamespaceTest(spec.namespaces, bound.namespaces);
  }

  /** Unbinding undoes binding when nothing else in that list is known under the same guid. */
  lemma RemoveUndoesAdd(view: View, spec: TypeSpec, handler: Handler)
    requires !spec.dotted || (spec.namespaces != [] && AllNames(spec.namespaces))
    requires spec.name in view ==> view[spec.name] != [] && forall h :: h in view[spec.name] ==> h.guid != handler.guid
    ensures RemoveOne(Appended(view, spec.name, Entry(spec, handler, None)), spec, WithGuid(Some(handler.guid))) == view
  {
    var e, w := Entry(spec, handler, None), WithGuid(Some(handler.guid));
    OwnEntryHit(spec, handler);
    hide Hit, InNamespaces, Entry;
    KeepsStrangers(ListOf(view, spec.name), spec, handler.guid);
    LastGoes(ListOf(view, spec.name), e, spec, w);
    hide Keep, WithList, ListOf;
    BackToList(view, spec.name, e);
    AppendedLists(view, spec.name, e, spec.name);
    InAppended(view, spec.name, e);
    hide Appended;
  }

  lemma BackToList(view: View, name: string, e: HandleObj)
    requires name in view ==> view[name] != []
    ensures WithList(Appended(view, name, e), name, ListOf(view, name)) == view
  {
  }

  lemma InAppended(view: View, name: string, e: HandleObj)
    ensures name in Appended(view, name, e) && Appended(view, name, e)[name] == ListOf(view, name) + [e]
  {
  }

  lemma OwnEntryHit(spec: TypeSpec, handler: Handler)
    requires !spec.dotted || (spec.namespaces != [] && AllNames(spec.namespaces))
    ensures Hit(spec, WithGuid(Some(handler.guid)), Entry(spec, handler, None))
  {
    if spec.dotted { HitByNamespaces(spec, spec, handler, None); }
    hide Test, Pattern, Sort, Join;
  }

  lemma LastGoes(items: seq<HandleObj>, e: HandleObj, spec: TypeSpec, wanted: Wanted)
    requires Hit(spec, wanted, e)
    ensures Keep(items + [e], spec, wanted) == Keep(items, spec, wanted)
  {
    hide Hit;
    assert (items + [e])[..|items|] == items;
  }

  lemma {:induction false} KeepsStrangers(items: seq<HandleObj>, spec: TypeSpec, guid: nat)
    requires forall h :: h in items ==> h.guid != guid
    ensures Keep(items, spec, WithGuid(Some(guid))) == items
    decreases |items|
  {
    hide InNamespaces, Keep;
    if items == [] {
      KeepOfNone(spec, WithGuid(Some(guid)));
    } else {
      var front, last := items[..|items| - 1], items[|items| - 1];
      assert last in items && forall h :: h in front ==> h in items;
      KeepsStrangers(front, spec, guid);
      KeepSnoc(front, last, spec, WithGuid(Some(guid)));
      assert items == front + [last];
    }
  }

  // ---- words without a dot, and what is bound ----

  /** The entries that are not known under a guid. */
  function WithoutGuid(items: seq<HandleObj>, guid: Option<nat>): seq<HandleObj> {
    if items == [] then []
    else
      var last := items[|items| - 1];
      WithoutGuid(items[..|items| - 1], guid) + if Some(last.guid) == guid then [] else [last]
  }

  lemma {:induction false} KeepUndotted(items: seq<HandleObj>, name: string, wanted: Wanted)
    ensures Keep(items, TypeSpec(name, [], false), wanted) == if wanted.AnyHandler? then [] else WithoutGuid(items, wanted.guid)
    decreases |items|
  {
    if items != [] { KeepUndotted(items[..|items| - 1], name, wanted); }
    hide Test, Pattern;
  }

  /** A word without a dot reaches the entries of all namespaces: without a handler nothing stays of
      the type, and with one exactly the entries of other guids, in order.  Other types stay. */
  lemma UndottedReachesAll(view: View, name: string, wanted: Wanted, t: string)
    requires name != ""
    ensures var after := RemoveAll(view, [TypeSpec(name, [], false)], wanted);
            && (wanted.AnyHandler? ==> name !in after)
            && (wanted.WithGuid? ==> ListOf(after, name) == WithoutGuid(ListOf(view, name), wanted.guid))
            && (t != name ==> ListOf(after, t) == ListOf(view, t))
  {
    var spec := TypeSpec(name, [], false);
    RemoveOneWord(view, spec, wanted);
    KeepUndotted(ListOf(view, name), name, wanted);
    hide Keep, WithoutGuid, RemoveAll;
    if wanted.WithGuid? { WithoutGuidOfNone(wanted.guid); }
  }

  lemma WithoutGuidOfNone(guid: Option<nat>)
    ensures WithoutGuid([], guid) == []
  {
  }

  lemma RemoveOneWord(view: View, spec: TypeSpec, wanted: Wanted)
    requires !spec.IsBlank()
    ensures RemoveAll(view, [spec], wanted) == RemoveOne(view, spec, wanted)
  {
    hide RemoveOne;
    assert [spec][1..] == [];
    assert RemoveAll(RemoveOne(view, spec, wanted), [], wanted) == RemoveOne(view, spec, wanted);
  }

  lemma {:induction false} WithoutGuidHas(items: seq<HandleObj>, guid: Option<nat>, h: HandleObj)
    ensures h in WithoutGuid(items, guid) <==> h in items && Some(h.guid) != guid
    decreases |items|
  {
    if items != [] {
      WithoutGuidHas(items[..|items| - 1], guid, h);
      assert items == items[..|items| - 1] + [items[|items| - 1]];
    }
  }

  /** A handler that was bound with namespaces goes when its type is unbound without any. */
  lemma UndottedUndoesDotted(view: View, bound: TypeSpec, handler: Handler, t: string)
    requires bound.name != ""
    ensures var after := RemoveAll(AddAll(view, [bound], handler, None), [TypeSpec(bound.name, [], false)], WithGuid(Some(handler.guid)));
            && (forall h :: h in ListOf(after, bound.name) <==> h in ListOf(view, bound.name) && h.guid != handler.guid)
            && (t != bound.name ==> ListOf(after, t) == ListOf(view, t))
  {
    var with := AddAll(view, [bound], handler, None);
    var guid := Some(handler.guid);
    LastAdded(view, bound, handler, None);
    if t != bound.name { AddedElsewhere(view, bound, handler, None, t); }
    UndottedReachesAll(with, bound.name, WithGuid(guid), t);
    hide AddAll, RemoveAll, WithoutGuid;
    forall h ensures h in WithoutGuid(ListOf(with, bound.name), guid) <==> h in ListOf(view, bound.name) && h.guid != handler.guid {
      WithoutGuidHas(ListOf(with, bound.name), guid, h);
    }
  }

  /** The entry that binding adds holds the function that was bound, under a guid of its own if
      there is one and otherwise under the function's. */
  lemma LastAdded(view: View, spec: TypeSpec, handler: Handler, own: Option<nat>)
    requires !spec.IsBlank()
    ensures var items := ListOf(AddAll(view, [spec], handler, own), spec.name);
            && items != [] && items[..|items| - 1] == ListOf(view, spec.name)
            && var last := items[|items| - 1];
               && last.handler == handler
               && (own.None? ==> last.guid == handler.guid) && (own.Some? ==> Some(last.guid) == own)
  {
    AddOneWord(view, spec, handler, own);
    AppendedLists(view, spec.name, Entry(spec, handler, own), spec.name);
    hide AddAll, Appended, Join, Sort;
  }

  lemma AddedElsewhere(view: View, spec: TypeSpec, handler: Handler, own: Option<nat>, t: string)
    requires !spec.IsBlank() && t != spec.name
    ensures ListOf(AddAll(view, [spec], handler, own), t) == ListOf(view, t)
  {
    AddOneWord(view, spec, handler, own);
    AppendedLists(view, spec.name, Entry(spec, handler, own), t);
    hide AddAll, Appended, Entry;
    assert ListOf(view, t) + [] == ListOf(view, t);
  }

  /** A word with namespaces spares what was bound without any. */
  lemma DottedSparesPlain(spec: TypeSpec, name: string, handler: Handler, own: Option<nat>)
    requires spec.dotted && spec.namespaces != [] && AllNames(spec.namespaces)
    ensures !InNamespaces(spec, Entry(TypeSpec(name, [], false), handler, own))
  {
    NamespaceTest(spec.namespaces, []);
    assert spec.namespaces[0] in multiset(spec.namespaces);
    assert Sort([]) == [] && Join([]) == "";
    hide Test, Pattern;
  }

  /** The loops over words end before the first empty word. */
  lemma {:induction false} LiveIsBeginning(specs: seq<TypeSpec>, k: nat)
    requires k <= |specs| && (k < |specs| ==> specs[k].IsBlank()) && forall i :: 0 <= i < k ==> !specs[i].IsBlank()
    ensures Live(specs) == specs[..k]
    decreases k
  {
    if k > 0 {
      LiveIsBeginning(specs[1..], k - 1);
      assert specs[..k] == [specs[0]] + specs[1..][..k - 1];
    }
  }
}
