/** `cache(rule)`: a rule that remembers its outcomes in a plain object keyed by the input. */
module Memo {
  import opened Wrappers

  /** What a call can do: return, throw the parser's own exception, or throw something else. */
  datatype Outcome<+V> = Returned(value: V) | ParseError(at: string) | ForeignError(error: string)

  /** The values that a cache slot can hold: a result, either kind of caught exception, or a
      member that every JavaScript object inherits, such as `constructor`. */
  datatype Slot<+V> = Outcome(of: Outcome<V>) | Inherited(name: string)

  /** What a call through the cache does: it returns whatever the slot holds, unless that is
      the parser's own exception. */
  datatype Answer<+V> = Gives(slot: Slot<V>) | Throws(at: string)

  /** The answer that calling the rule itself would give. */
  function Direct<V>(o: Outcome<V>): Option<Answer<V>> {
    match o
    case Returned(_) => Some(Gives(Slot.Outcome(o)))
    case ParseError(at) => Some(Throws(at))
    case ForeignError(_) => None  // the exception would propagate
  }

  class Cache<V(==)> {
    const rule: string -> Outcome<V>
    /** The names every object inherits (`Object.prototype`). */
    const inherited: set<string>
    var slots: map<string, Slot<V>>

    ghost predicate Valid()
      reads this
    {
      forall s :: s in slots ==> slots[s] == if s in inherited then Inherited(s) else Slot.Outcome(rule(s))
    }

    constructor (rule: string -> Outcome<V>, inherited: set<string>)
      ensures Valid() && this.rule == rule && this.inherited == inherited && slots == map[]
    {
      this.rule, this.inherited, this.slots := rule, inherited, map[];
    }

    /** One call.  A stored or inherited slot wins over running the rule; a thrown exception is stored. */
    method Call(s: string) returns (a: Answer<V>)
      requires Valid()
      modifies this`slots
      ensures Valid() && s in slots && (forall t :: t != s ==> (t in slots <==> t in old(slots)))
      ensures a == Through(rule, inherited, s)
    {
      var held: Slot<V>;
      if s in slots {
        held := slots[s];
      } else if s in inherited {
        held := Inherited(s);
      } else {
        held := Slot.Outcome(rule(s));
      }
      slots := slots[s := held];
      if held.Outcome? && held.of.ParseError? {
        return Throws(held.of.at);
      }
      return Gives(held);
    }
  }

  /** The answer of any call through the cache, whatever was asked before. */
  function Through<V>(rule: string -> Outcome<V>, inherited: set<string>, s: string): Answer<V> {
    if s in inherited then Gives(Inherited(s))
    else if rule(s).ParseError? then Throws(rule(s).at)
    else Gives(Slot.Outcome(rule(s)))
  }

  /** The cache is transparent on an input exactly when the input is not the name of an inherited
      member and the rule does not fail with a foreign exception, which the cache turns into a value. */
  lemma TransparentExactly<V>(rule: string -> Outcome<V>, inherited: set<string>, s: string)
    ensures Direct(rule(s)) == Some(Through(rule, inherited, s)) <==> s !in inherited && !rule(s).ForeignError?
  {
  }

  /** A cached rule never runs on the text `constructor`. */
  lemma ConstructorIsInherited<V>(rule: string -> Outcome<V>, inherited: set<string>)
    requires "constructor" in inherited
    ensures Through(rule, inherited, "constructor") == Gives(Inherited("constructor"))
    ensures Direct(rule("constructor")) != Some(Through(rule, inherited, "constructor"))
  {
  }

  /** A foreign exception comes back as a value: the call does not throw. */
  lemma ForeignIsReturned<V>(rule: string -> Outcome<V>, inherited: set<string>, s: string, error: string)
    requires rule(s) == ForeignError(error)
    ensures !Through(rule, inherited, s).Throws?
    ensures s !in inherited ==> Through(rule, inherited, s) == Gives(Slot.Outcome(ForeignError(error)))
  {
  }

  /** A whole history of calls on one cache. */
  method CallAll<V(==)>(cache: Cache<V>, inputs: seq<string>) returns (answers: seq<Answer<V>>)
    requires cache.Valid()
    modifies cache`slots
    ensures cache.Valid() && |answers| == |inputs|
    ensures forall i :: 0 <= i < |inputs| ==> answers[i] == Through(cache.rule, cache.inherited, inputs[i])
  {
    answers := [];
    for i := 0 to |inputs|
      invariant cache.Valid() && |answers| == i
      invariant forall k :: 0 <= k < i ==> answers[k] == Through(cache.rule, cache.inherited, inputs[k])
    {
      var a := cache.Call(inputs[i]);
      answers := answers + [a];
    }
  }
}
