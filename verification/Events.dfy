/** The event registry of one DOM element: `jQuery.event.add` and `jQuery.event.remove` for
    ordinary event types. */
module Events {
  import opened Wrappers
  import opened Namespaces
  import opened HandlerLists
  import opened Removal

  class Element {
    /** `elemData.events`; not `bound` stands for the property being absent. */
    var events: View
    var bound: bool
    /** The one native handler function of this element; each new one is a new function. */
    var handle: Option<nat>
    var nextHandle: nat
    /** The native listeners: event type and function. */
    var listeners: set<(string, nat)>

    /** Exactly the bound types are listened to, all with the current handler function. */
    ghost predicate Attached()
      reads this
    {
      forall p :: p in listeners <==> p.0 in events && Some(p.1) == handle
    }

    /** The state between calls: besides, no handler list is empty. */
    ghost predicate Valid()
      reads this
    {
      && Attached()
      && (handle.Some? <==> bound)
      && (!bound ==> events == map[])
      && (forall t :: t in events ==> events[t] != [])
    }

    constructor ()
      ensures Valid() && events == map[] && !bound
    {
      events, bound, handle, nextHandle, listeners := map[], false, None, 0, {};
    }

    /** `add`: bind a handler to every word; the first entry of a type attaches the native listener. */
    method Add(specs: seq<TypeSpec>, handler: Handler, own: Option<nat>)
      requires Valid()
      modifies this
      ensures Valid() && bound
      ensures events == AddAll(old(events), specs, handler, own)
    {
      hide Appended, Entry;
      bound := true;
      if handle.None? {
        handle := Some(nextHandle);
        nextHandle := nextHandle + 1;
      }
      var i := 0;
      while i < |specs| && !specs[i].IsBlank()
        invariant 0 <= i <= |specs|
        invariant Valid() && bound
        invariant AddAll(events, specs[i..], handler, own) == AddAll(old(events), specs, handler, own)
      {
        assert specs[i..][0] == specs[i] && specs[i..][1..] == specs[i + 1..];
        AddOne(specs[i], handler, own);
        i := i + 1;
      }
    }

    method AddOne(spec: TypeSpec, handler: Handler, own: Option<nat>)
      requires Valid() && bound
      modifies this
      ensures Valid() && bound && events == Appended(old(events), spec.name, Entry(spec, handler, own))
    {
      if spec.name !in events {
        events := events[spec.name := []];
        listeners := listeners + {(spec.name, handle.value)};
      }
      events := events[spec.name := events[spec.name] + [Entry(spec, handler, own)]];
      assert events == Appended(old(events), spec.name, Entry(spec, handler, own));
    }

    /** The end of the source's loop body: a type whose list is gone loses its native listener. */
    method Detach(name: string)
      requires Attached() && handle.Some?
      modifies this
      ensures Attached() && events == old(events) - {name}
      ensures bound == old(bound) && handle == old(handle) && nextHandle == old(nextHandle)
    {
      listeners := listeners - {(name, handle.value)};
      events := events - {name};
    }

    /** The end of `remove`: with no type left the element forgets its handler function. */
    method Forget()
      requires Attached() && (handle.Some? <==> bound)
      modifies this
      ensures events == old(events) && Attached()
      ensures if events == map[] then !bound && handle == None else bound == old(bound) && handle == old(handle)
      ensures nextHandle == old(nextHandle)
    {
      if events == map[] {
        bound, handle := false, None;
      }
    }

    /** `remove`.  `pos` is the list position that the route without a handler passes to itself;
        `enum` is the order in which `for in` goes through the bound types. */
    method Remove(words: seq<TypeSpec>, wanted: Wanted, pos: Option<nat>, enum: View -> seq<string>)
      requires Valid() && words != [] && Enumerates(enum)
      requires pos.None? ==> Finishes(events, words, wanted)
      requires pos.Some? ==> wanted.WithGuid? && |words| == 1 && words[0].name != "" && words[0].name in events
      modifies this
      ensures Valid()
      ensures !IsEverywhere(words) ==> (bound <==> events != map[])
      ensures pos.None? ==> events == Removed(old(events), words, wanted)
      ensures pos.Some? ==> events == DropSingle(old(events), words[0].name)
      decreases if IsEverywhere(words) then 3 else if wanted.AnyHandler? then 2 else 0, 9
    {
      if IsEverywhere(words) {
        RemoveEverywhere(words, enum);
      } else {
        RemoveWords(words, wanted, pos, enum);
      }
    }

    /** Without types, or with namespaces first: one call for every type, without the handler. */
    method RemoveEverywhere(words: seq<TypeSpec>, enum: View -> seq<string>)
      requires Valid() && words != [] && Enumerates(enum) && IsEverywhere(words) && "" !in events
      modifies this
      ensures Valid()
      ensures events == Unbound(old(events), words, AnyHandler)
      decreases 3, 5
    {
      hide Spared, RemoveAll, Enumerates, SweptTo, Untouched, Unbound;
      ghost var before := events;
      var names := enum(events);
      SweepStarts(events, words);
      FirstIsBound(events, enum);
      var k := 0;
      while k < |names|
        invariant 0 <= k <= |names| && Valid() && "" !in events
        invariant SweptTo(before, events, words, Visited(names[..k]), k > 0)
        invariant k == 0 && names != [] ==> names[0] in events
      {
        var name := names[k];
        assert names[..k + 1] == names[..k] + [name];
        SweepNext(before, events, words, names[..k], name, k > 0);
        if name in events {
          UntouchedUnbound(events, ForType(words, name));
          Remove(ForType(words, name), AnyHandler, None, enum);
        }
        k := k + 1;
      }
      assert names[..k] == names;
      SweepEnds(before, events, words, enum);
    }

    static lemma FirstIsBound(view: View, enum: View -> seq<string>)
      requires Enumerates(enum)
      ensures enum(view) != [] ==> enum(view)[0] in view
    {
    }

    /** The loop over the words of a type string.  A positional call deletes no entry. */
    method RemoveWords(specs: seq<TypeSpec>, wanted: Wanted, pos: Option<nat>, enum: View -> seq<string>)
      requires Valid() && Enumerates(enum)
      requires wanted.AnyHandler? ==> pos.None? && Untouched(events, specs)
      requires pos.Some? ==> |specs| == 1 && !specs[0].IsBlank() && specs[0].name in events
      modifies this
      ensures Valid() && (bound <==> events != map[])
      ensures pos.None? ==> events == RemoveAll(old(events), specs, wanted)
      ensures pos.Some? ==> events == DropSingle(old(events), specs[0].name)
      decreases if wanted.AnyHandler? then 2 else 0, 5
    {
      hide Untouched, InNamespaces, RemoveOne, DropSingle, ListOf, Enumerates;
      if !bound {
        NothingToRemove(specs, wanted);
        return;
      }
      assert specs[0..] == specs;
      var i := 0;
      while i < |specs| && !specs[i].IsBlank()
        invariant 0 <= i <= |specs| && Valid()
        invariant pos.None? ==> RemoveAll(events, specs[i..], wanted) == RemoveAll(old(events), specs, wanted)
        invariant pos.Some? ==> events == if i == 0 then old(events) else DropSingle(old(events), specs[0].name)
        invariant wanted.AnyHandler? ==> Untouched(events, specs[i..])
      {
        var spec := specs[i];
        assert specs[i..][0] == spec && specs[i..][1..] == specs[i + 1..];
        if wanted.AnyHandler? {
          UntouchedCons(events, specs[i..]);
          BlankKept(events, spec);
          UntouchedSame(events, RemoveOne(events, spec, AnyHandler), specs[i + 1..]);
        }
        if spec.name in events {
          if wanted.AnyHandler? {
            RemoveEach(spec, enum);
          } else {
            RemoveByGuid(spec, wanted.guid, pos);
          }
        } else {
          NotBound(events, spec, wanted);
        }
        i := i + 1;
      }
      Forget();
    }

    static lemma NotBound(view: View, spec: TypeSpec, wanted: Wanted)
      requires spec.name !in view
      ensures RemoveOne(view, spec, wanted) == view && DropSingle(view, spec.name) == view
    {
    }

    /** Without a handler: each matching entry goes through the positional call, then is spliced out. */
    method RemoveEach(spec: TypeSpec, enum: View -> seq<string>)
      requires Valid() && Enumerates(enum) && spec.name in events && !spec.IsBlank()
      requires spec.name == "" ==> forall h :: h in ListOf(events, "") ==> !InNamespaces(spec, h)
      modifies this
      ensures Valid() && events == RemoveOne(old(events), spec, AnyHandler)
      decreases 2, 3
    {
      hide Keep, InNamespaces, WithList, Enumerates, Sieved, ListOf;
      // the source's local variable stays the same array as the registry's list
      var eventType := events[spec.name];
      ghost var all, k := eventType, 0;
      SieveStarts(all, spec, AnyHandler);
      StartsWhole(events, spec);
      var j: nat := 0;
      while j < |eventType|
        invariant Sieved(all, k, eventType, j, spec, AnyHandler) && k <= |all|
        invariant Valid() && events == WithList(old(events), spec.name, eventType)
        decreases |all| - k
      {
        var h := eventType[j];
        if InNamespaces(spec, h) {
          SieveDrops(all, k, eventType, j, spec, AnyHandler);
          assert h in all && spec.name != "";
          StillThere(old(events), spec.name, eventType);
          ghost var longer := eventType;
          eventType := RemoveAt(spec, h, j, eventType, enum);
          Shorter(old(events), spec.name, longer, eventType);
        } else {
          SieveKeeps(all, k, eventType, j, spec, AnyHandler);
          j := j + 1;
        }
        k := k + 1;
      }
      SieveEnds(all, k, eventType, j, spec, AnyHandler);
    }

    static lemma StartsWhole(view: View, spec: TypeSpec)
      requires spec.name in view && view[spec.name] != []
      ensures view == WithList(view, spec.name, view[spec.name]) && ListOf(view, spec.name) == view[spec.name]
    {
    }

    static lemma StillThere(view: View, name: string, items: seq<HandleObj>)
      requires items != []
      ensures name in WithList(view, name, items) && WithList(view, name, items)[name] == items
    {
    }

    static lemma Shorter(view: View, name: string, longer: seq<HandleObj>, items: seq<HandleObj>)
      ensures WithList(WithList(view, name, longer), name, items) == WithList(view, name, items)
    {
    }

    /** One matching entry of the route without a handler. */
    method RemoveAt(spec: TypeSpec, h: HandleObj, j: nat, eventType: seq<HandleObj>, enum: View -> seq<string>)
      returns (rest: seq<HandleObj>)
      requires Valid() && Enumerates(enum) && spec.name != ""
      requires spec.name in events && events[spec.name] == eventType && j < |eventType|
      modifies this
      ensures rest == eventType[..j] + eventType[j + 1..]
      ensures Valid() && events == WithList(old(events), spec.name, rest)
      decreases 2, 2
    {
      Remove([spec], WithGuid(Some(h.handler.guid)), Some(j), enum);
      rest := eventType[..j] + eventType[j + 1..];
      if spec.name in events {
        events := events[spec.name := rest];
      }
    }

    /** With a handler: direct, or at a position. */
    method RemoveByGuid(spec: TypeSpec, guid: Option<nat>, pos: Option<nat>)
      requires Valid() && spec.name in events
      modifies this
      ensures Valid() && bound == old(bound)
      ensures pos.None? ==> events == RemoveOne(old(events), spec, WithGuid(guid))
      ensures pos.Some? ==> events == DropSingle(old(events), spec.name)
      decreases 0, 1
    {
      hide Keep, InNamespaces, Sieved, WithList;
      ghost var wanted := WithGuid(guid);
      var eventType := events[spec.name];
      ghost var all, k := eventType, 0;
      SieveStarts(all, spec, wanted);
      var j: nat := if pos.Some? then pos.value else 0;
      while j < |eventType|
        invariant if pos.Some? then eventType == all else Sieved(all, k, eventType, j, spec, wanted) && k <= |all|
        invariant events == old(events)[spec.name := eventType]
        invariant listeners == old(listeners) && handle == old(handle) && bound == old(bound)
        decreases if pos.None? then |all| - k else |all| - j
      {
        var h := eventType[j];
        if pos.None? {
          if Hit(spec, wanted, h) { SieveDrops(all, k, eventType, j, spec, wanted); }
          else { SieveKeeps(all, k, eventType, j, spec, wanted); }
        }
        var spliced := false;
        if guid == Some(h.guid) {
          if InNamespaces(spec, h) {
            if pos.None? {
              eventType := eventType[..j] + eventType[j + 1..];
              events := events[spec.name := eventType];
              spliced := true;
            }
          }
          if pos.Some? { break; }
        }
        if !spliced { j := j + 1; }
        k := k + 1;
      }
      assert Attached();
      if pos.None? { SieveEnds(all, k, eventType, j, spec, wanted); }
      if |eventType| == 0 || (pos.Some? && |eventType| == 1) {
        Detach(spec.name);
        assert events == old(events) - {spec.name};
      }
      ListPut(old(events), spec.name, eventType);
    }

    static lemma ListPut(view: View, name: string, items: seq<HandleObj>)
      ensures WithList(view, name, items) == if items == [] then view - {name} else view[name := items]
    {
    }
  }

  // ---- runs ----

  datatype Call = Bind(specs: seq<TypeSpec>, handler: Handler, own: Option<nat>) | Unbind(words: seq<TypeSpec>, wanted: Wanted)

  /** The lists after a run of calls, oldest first. */
  function ViewAfter(calls: seq<Call>): View
    requires forall i :: 0 <= i < |calls| && calls[i].Unbind? ==> calls[i].words != []
  {
    if calls == [] then map[]
    else
      var before := ViewAfter(calls[..|calls| - 1]);
      match calls[|calls| - 1]
      case Bind(specs, handler, own) => AddAll(before, specs, handler, own)
      case Unbind(words, wanted) => Removed(before, words, wanted)
  }

  /** The run does not contain a removal without end. */
  predicate AllEnd(calls: seq<Call>) {
    && (forall i :: 0 <= i < |calls| && calls[i].Unbind? ==> calls[i].words != [])
    && forall i :: 0 <= i < |calls| && calls[i].Unbind? ==>
         Finishes(ViewAfter(calls[..i]), calls[i].words, calls[i].wanted)
  }

  /** Over every run of `add` and `remove` a native listener is attached exactly for the types
      that have a handler list, and no list is empty. */
  method Play(calls: seq<Call>, enum: View -> seq<string>) returns (e: Element)
    requires Enumerates(enum) && AllEnd(calls)
    ensures fresh(e) && e.Valid() && e.events == ViewAfter(calls)
    ensures forall t :: t in e.events <==> exists h :: (t, h) in e.listeners
    ensures forall t :: t in e.events ==> e.events[t] != []
  {
    e := new Element();
    assert calls[..0] == [];
    for i := 0 to |calls|
      invariant e.Valid() && e.events == ViewAfter(calls[..i])
    {
      assert calls[..i + 1][..i] == calls[..i];
      match calls[i]
      case Bind(specs, handler, own) => e.Add(specs, handler, own);
      case Unbind(words, wanted) => e.Remove(words, wanted, None, enum);
    }
    assert calls[..|calls|] == calls;
    forall t ensures t in e.events <==> exists h :: (t, h) in e.listeners {
      if t in e.events { assert (t, e.handle.value) in e.listeners; }
    }
  }
}
