/** The single-flight guard of insertArXivLinks: at most one pass runs; a
    request that arrives meanwhile is remembered in one flag and served by
    exactly one follow-up pass when the running pass ends. */
module Scheduling {

  /** The module-level flags `activeInjection` and `pendingInjection`. */
  datatype Flags = Flags(active: bool, pending: bool)

  /** The flags after a step, and whether the step started a pass. */
  datatype Step = Step(flags: Flags, started: bool)

  /** A call of insertArXivLinks, up to its first await: while a pass runs
      it only records the request; otherwise it starts a pass and clears
      any stale request. */
  function Enter(f: Flags): Step {
    if f.active then Step(Flags(true, true), false) else Step(Flags(true, false), true)
  }

  /** The `finally` block of a running pass: the pass is over, and a
      recorded request is cleared and served at once by a new call (which
      runs synchronously up to its first await, so it finds the guard
      free). */
  function Leave(f: Flags): Step {
    if f.pending then Enter(Flags(false, false)) else Step(Flags(false, false), false)
  }

  /** Something in the page calls insertArXivLinks, or the running pass
      ends. */
  datatype Event = Call | PassEnds

  /** The flags after a sequence of events, and how many passes started.
      A pass can only end while one runs, so PassEnds on idle flags
      changes nothing. */
  function Run(f: Flags, events: seq<Event>): (r: (Flags, nat))
    decreases |events|
  {
    if events == [] then (f, 0)
    else
      var s := if events[0] == Call then Enter(f) else if f.active then Leave(f) else Step(f, false);
      var rest := Run(s.flags, events[1..]);
      (rest.0, rest.1 + (if s.started then 1 else 0))
  }

  /** `n` calls in a row. */
  function Calls(n: nat): seq<Event> {
    seq(n, k => Call)
  }

  /** How many events of a trace are calls. */
  function CallCount(events: seq<Event>): nat
    decreases |events|
  {
    if events == [] then 0 else (if events[0] == Call then 1 else 0) + CallCount(events[1..])
  }

  /** A request is only ever pending while a pass runs. */
  predicate Consistent(f: Flags) { f.active || !f.pending }

  // ---------------------------------------------------------------------
  // Properties

  /** Calls while a pass runs start nothing; they only leave one request
      recorded, however many there are. */
  lemma {:induction false} CallsWhileActive(f: Flags, n: nat)
    requires f.active
    ensures Run(f, Calls(n)) == (Flags(true, f.pending || n > 0), 0)
    decreases n
  {
    if n > 0 {
      assert Calls(n)[1..] == Calls(n - 1);
      CallsWhileActive(Flags(true, true), n - 1);
    }
  }

  /** Any positive number of calls during a pass yields exactly one
      follow-up pass when it ends, and that pass runs with no request
      recorded. */
  lemma ExactlyOneFollowUp(f: Flags, n: nat)
    requires f.active && n > 0
    ensures Run(f, Calls(n) + [PassEnds]) == (Flags(true, false), 1)
  {
    RunAppend(f, Calls(n), [PassEnds]);
    CallsWhileActive(f, n);
  }

  /** A pass nobody asked to repeat leaves the guard free. */
  lemma QuietPassEndsIdle(f: Flags)
    requires f.active && !f.pending
    ensures Run(f, [PassEnds]) == (Flags(false, false), 0)
  {
  }

  /** A call on a free guard starts exactly one pass. */
  lemma CallWhenIdleStarts(f: Flags)
    requires !f.active
    ensures Run(f, [Call]) == (Flags(true, false), 1)
  {
  }

  /** Running a trace in two parts. */
  lemma {:induction false} RunAppend(f: Flags, a: seq<Event>, b: seq<Event>)
    ensures Run(f, a + b).0 == Run(Run(f, a).0, b).0
    ensures Run(f, a + b).1 == Run(f, a).1 + Run(Run(f, a).0, b).1
    decreases |a|
  {
    if a == [] {
      assert a + b == b;
    } else {
      assert (a + b)[0] == a[0] && (a + b)[1..] == a[1..] + b;
      var s := if a[0] == Call then Enter(f) else if f.active then Leave(f) else Step(f, false);
      RunAppend(s.flags, a[1..], b);
    }
  }

  /** Every reachable state is consistent. */
  lemma {:induction false} RunConsistent(f: Flags, events: seq<Event>)
    requires Consistent(f)
    ensures Consistent(Run(f, events).0)
    decreases |events|
  {
    if events != [] {
      var s := if events[0] == Call then Enter(f) else if f.active then Leave(f) else Step(f, false);
      RunConsistent(s.flags, events[1..]);
    }
  }

  /** No pass starts without a call: requests are coalesced, never
      multiplied. */
  lemma {:induction false} StartsAtMostCalls(f: Flags, events: seq<Event>)
    requires Consistent(f)
    ensures Run(f, events).1 + (if Run(f, events).0.pending then 1 else 0)
      <= CallCount(events) + (if f.pending then 1 else 0)
    decreases |events|
  {
    if events != [] {
      var s := if events[0] == Call then Enter(f) else if f.active then Leave(f) else Step(f, false);
      StartsAtMostCalls(s.flags, events[1..]);
    }
  }

  /** The flags as an object, as the script keeps them. */
  class Scheduler {
    var active: bool
    var pending: bool

    function State(): Flags
      reads this
    {
      Flags(active, pending)
    }

    constructor()
      ensures State() == Flags(false, false)
    {
      active := false;
      pending := false;
    }

    /** The guard at the top of insertArXivLinks. */
    method Call() returns (started: bool)
      modifies this
      ensures Step(State(), started) == Enter(old(State()))
      ensures started <==> !old(active)
    {
      if active {
        pending := true;
        return false;
      }
      active := true;
      pending := false;
      return true;
    }

    /** The `finally` block: a recorded request re-runs the pass at once. */
    method PassEnds() returns (rerun: bool)
      requires active
      modifies this
      ensures Step(State(), rerun) == Leave(old(State()))
      ensures rerun <==> old(pending)
    {
      active := false;
      rerun := false;
      if pending {
        pending := false;
        rerun := Call();
      }
    }
  }
}
