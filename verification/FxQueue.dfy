/** The fx queue of one element: `jQuery.queue`, `jQuery.dequeue` and the `"inprogress"` sentinel. */
module FxQueue {

  /** What the queue array holds: the sentinel string or a queued function. */
  datatype Entry = Sentinel | Fn(id: nat)

  /** The queue, and the record of the functions that were started, oldest first. */
  datatype State = State(queue: seq<Entry>, started: seq<nat>)

  // ---- the operations on values ----

  /** `dequeue`: drop the sentinel if it is there, and start the next function behind a new one. */
  function Dequeued(st: State): State {
    var rest := if st.queue != [] && st.queue[0] == Sentinel then st.queue[1..] else st.queue;
    if rest == [] then st.(queue := rest)
    else if rest[0] == Sentinel then st.(queue := [Sentinel] + rest[1..])  // calling the string throws
    else State([Sentinel] + rest[1..], st.started + [rest[0].id])
  }

  /** `queue(fn)`: append, and dequeue at once when no function holds the queue. */
  function Queued(st: State, f: nat): State {
    var st1 := st.(queue := st.queue + [Fn(f)]);
    if st1.queue[0] != Sentinel then Dequeued(st1) else st1
  }

  // ---- the imperative queue ----

  class Queue {
    var q: seq<Entry>
    var started: seq<nat>

    constructor ()
      ensures Now() == State([], [])
    {
      q, started := [], [];
    }

    function Now(): State
      reads this
    {
      State(q, started)
    }

    /** `jQuery.dequeue`.  The call of the function is the last thing it does, so a function that
        signals completion from inside itself just makes the next call of this method. */
    method Dequeue()
      modifies this
      ensures Now() == Dequeued(old(Now()))
    {
      if |q| == 0 { return; }
      var fn := q[0];
      q := q[1..];
      if fn == Sentinel {
        if |q| == 0 { return; }
        fn := q[0];
        q := q[1..];
      }
      q := [Sentinel] + q;
      if fn.Fn? { started := started + [fn.id]; }
    }

    /** `jQuery.fn.queue` with a function. */
    method Enqueue(f: nat)
      modifies this
      ensures Now() == Queued(old(Now()), f)
    {
      q := q + [Fn(f)];
      if q[0] != Sentinel { Dequeue(); }
    }
  }

  // ---- runs ----

  /** One atomic step of the page's code: queue a function, or let a started function signal. */
  datatype Step = Enqueue(id: nat) | Signal(start: nat)

  /** A run also remembers the enqueue order and which starts have signalled. */
  datatype Run = Run(state: State, enqueued: seq<nat>, signalled: set<nat>)

  const EMPTY := Run(State([], []), [], {})

  function After(r: Run, s: Step): Run {
    match s
    case Enqueue(f) => Run(Queued(r.state, f), r.enqueued + [f], r.signalled)
    case Signal(k) => Run(Dequeued(r.state), r.enqueued, r.signalled + {k})
  }

  /** The protocol: only a function that was started signals, and only once. */
  predicate Allowed(r: Run, s: Step) {
    s.Signal? ==> s.start < |r.state.started| && s.start !in r.signalled
  }

  /** The run after a list of steps, oldest first. */
  function RunOf(steps: seq<Step>): Run {
    if steps == [] then EMPTY else After(RunOf(steps[..|steps| - 1]), steps[|steps| - 1])
  }

  predicate Protocol(steps: seq<Step>) {
    steps == [] ||
    (Protocol(steps[..|steps| - 1]) && Allowed(RunOf(steps[..|steps| - 1]), steps[|steps| - 1]))
  }

  predicate Running(r: Run) {
    exists k :: 0 <= k < |r.state.started| && k !in r.signalled
  }

  function Pending(q: seq<Entry>): seq<nat> {
    if q == [] then []
    else if q[0] == Sentinel then Pending(q[1..])
    else [q[0].id] + Pending(q[1..])
  }

  lemma {:induction false} PendingOfFunctions(q: seq<Entry>, f: nat)
    ensures Pending(q + [Fn(f)]) == Pending(q) + [f]
  {
    if q == [] {
      assert [Fn(f)][1..] == [];
    } else {
      PendingOfFunctions(q[1..], f);
      assert (q + [Fn(f)])[1..] == q[1..] + [Fn(f)];
    }
  }

  function Below(n: nat): (s: set<nat>)
    ensures forall k: int :: k in s <==> 0 <= k < n
  {
    if n == 0 then {} else Below(n - 1) + {n - 1}
  }

  ghost predicate Invariant(r: Run) {
    var q := r.state.queue;
    && (forall i :: 1 <= i < |q| ==> q[i] != Sentinel)
    && (q != [] ==> q[0] == Sentinel)
    && r.state.started + Pending(q) == r.enqueued
    && (q != [] ==> r.state.started != [])
    && r.signalled == Below(|r.state.started| - if q != [] then 1 else 0)
  }

  lemma StepKeeps(r: Run, s: Step)
    requires Invariant(r) && Allowed(r, s)
    ensures Invariant(After(r, s))
  {
    var q := r.state.queue;
    match s
    case Enqueue(f) =>
      PendingOfFunctions(q, f);
      if q == [] {
        var q1 := q + [Fn(f)];
        assert q1[0] == Fn(f) && q1[1..] == [];
        assert [Sentinel] + q1[1..] == [Sentinel];
        assert Pending([Sentinel]) == Pending([Sentinel][1..]) == [];
      }
    case Signal(k) =>
      // only the function started last has not signalled, so the queue is held
      assert q != [] && k == |r.state.started| - 1;
      var rest := q[1..];
      if rest == [] {
        assert Pending(q) == Pending(rest) == [];
      } else {
        assert rest[0] == q[1] && rest[0] != Sentinel;
        var q2 := [Sentinel] + rest[1..];
        assert q2[1..] == rest[1..];
        assert Pending(q) == Pending(rest) == [rest[0].id] + Pending(rest[1..]);
        assert Pending(q2) == Pending(rest[1..]);
        assert r.state.started + [rest[0].id] + Pending(q2) == r.enqueued;
      }
  }

  lemma {:induction false} InvariantHolds(steps: seq<Step>)
    requires Protocol(steps)
    ensures Invariant(RunOf(steps))
    decreases |steps|
  {
    if steps != [] {
      InvariantHolds(steps[..|steps| - 1]);
      StepKeeps(RunOf(steps[..|steps| - 1]), steps[|steps| - 1]);
    }
  }

  /** Over every run in which each started function signals at most once: the sentinel is only
      ever at the head and there exactly while a function runs, never two functions run at
      once, and the functions start in the order in which they were queued, none lost. */
  lemma QueueProtocol(steps: seq<Step>)
    requires Protocol(steps)
    ensures var r := RunOf(steps); var q := r.state.queue;
            && (forall i :: 1 <= i < |q| ==> q[i] != Sentinel)
            && (q != [] && q[0] == Sentinel <==> Running(r))
            && (forall j, k | 0 <= j < |r.state.started| && 0 <= k < |r.state.started| ::
                  j !in r.signalled && k !in r.signalled ==> j == k)
            && r.state.started + Pending(q) == r.enqueued
            && (!Running(r) ==> q == [] && r.state.started == r.enqueued)
  {
    InvariantHolds(steps);
    var r := RunOf(steps);
    var q := r.state.queue;
    if q != [] {
      var k := |r.state.started| - 1;
      assert 0 <= k && k !in r.signalled;
    } else {
      assert Pending(q) == [];
    }
  }

  /** Whatever is queued gets its turn: if every started function has signalled, the queue has
      drained; and a signal with functions pending starts exactly the oldest of them. */
  lemma SignalStartsNext(steps: seq<Step>, k: nat)
    requires Protocol(steps) && Allowed(RunOf(steps), Signal(k))
    ensures var r := RunOf(steps); var r' := After(r, Signal(k));
            if Pending(r.state.queue) == [] then r'.state.queue == [] && r'.state.started == r.state.started
            else r'.state.started == r.state.started + [Pending(r.state.queue)[0]]
                 && Pending(r'.state.queue) == Pending(r.state.queue)[1..]
  {
    InvariantHolds(steps);
    var r := RunOf(steps);
    var q := r.state.queue;
    var rest := q[1..];
    assert Pending(q) == Pending(rest);
    if rest != [] {
      assert rest[0] == q[1];
      assert ([Sentinel] + rest[1..])[1..] == rest[1..];
    }
  }

  /** The protocol is needed: a function that signals twice starts two at once. */
  lemma SecondSignalBreaks()
    ensures var r := After(After(RunOf([Enqueue(1), Enqueue(2), Enqueue(3)]), Signal(0)), Signal(0));
            r.state.started == [1, 2, 3] && 1 !in r.signalled && 2 !in r.signalled
  {
    RunSnoc([], Enqueue(1));
    RunSnoc([Enqueue(1)], Enqueue(2));
    RunSnoc([Enqueue(1), Enqueue(2)], Enqueue(3));
    assert RunOf([Enqueue(1)]) == Run(State([Sentinel], [1]), [1], {});
    assert RunOf([Enqueue(1), Enqueue(2)]) == Run(State([Sentinel, Fn(2)], [1]), [1, 2], {});
    assert RunOf([Enqueue(1), Enqueue(2), Enqueue(3)]) == Run(State([Sentinel, Fn(2), Fn(3)], [1]), [1, 2, 3], {});
  }

  lemma RunSnoc(steps: seq<Step>, s: Step)
    ensures RunOf(steps + [s]) == After(RunOf(steps), s)
  {
    assert (steps + [s])[..|steps|] == steps;
  }

  /** The invariant survives a signal exactly when the signal is allowed, or when it comes too
      often but finds the queue drained. */
  lemma AllowedExactly(r: Run, k: nat)
    requires Invariant(r) && k < |r.state.started|
    ensures Invariant(After(r, Signal(k))) <==> Allowed(r, Signal(k)) || r.state.queue == []
  {
    if Allowed(r, Signal(k)) { StepKeeps(r, Signal(k)); }
    else if r.state.queue != [] {
      var r' := After(r, Signal(k));
      assert r'.signalled == r.signalled;
      var n := |r.state.started|;
      assert n - 1 !in r.signalled;
      if r'.state.queue == [] { assert n - 1 in Below(n); }
      else { assert n - 1 in Below(n); assert n == |r'.state.started| - 1; }
    }
  }

  /** A run on a real queue: its state is that of the run on values, so all of the above holds of
      it.  `r` also keeps the enqueue order and the signals. */
  method Play(steps: seq<Step>) returns (queue: Queue, r: Run)
    ensures fresh(queue) && r == RunOf(steps) && queue.Now() == r.state
    ensures Protocol(steps) ==>
              && queue.started + Pending(queue.q) == r.enqueued
              && (Running(r) <==> queue.q != [] && queue.q[0] == Sentinel)
              && forall i :: 1 <= i < |queue.q| ==> queue.q[i] != Sentinel
  {
    queue := new Queue();
    var enqueued, signalled := [], {};
    assert steps[..0] == [];
    for i := 0 to |steps|
      invariant Run(queue.Now(), enqueued, signalled) == RunOf(steps[..i])
    {
      assert steps[..i + 1] == steps[..i] + [steps[i]];
      RunSnoc(steps[..i], steps[i]);
      match steps[i]
      case Enqueue(f) =>
        queue.Enqueue(f);
        enqueued := enqueued + [f];
      case Signal(k) =>
        queue.Dequeue();
        signalled := signalled + {k};
    }
    assert steps[..|steps|] == steps;
    r := Run(queue.Now(), enqueued, signalled);
    if Protocol(steps) { QueueProtocol(steps); }
  }
}
