/**
  The pausable execution budget. `Budget` keeps one deadline on the run's clock; a stopwatch that
  simply adds up unpaused time is the specification it is proved to implement, over every run.
*/
module Limits {
  import opened Wrappers
  import opened Words

  datatype Trip = Rule | Run

  /** The two words an engine and its interrupt handler share. A deadline of zero is disarmed. */
  datatype State = State(deadline: u64, tripped: Option<Trip>)

  /** A paused invocation: what was left of it, and whether there was one. */
  datatype Paused = Paused(remaining: u64, wasArmed: bool)

  function AtLeastOne(n: u64): u64 {
    if n == 0 then 1 else n
  }

  function Armed(now: u64, timeout: u64): State {
    State(AtLeastOne(SaturatingAdd(now, timeout)), None)
  }

  function PausedAt(s: State, now: u64): (State, Paused) {
    (s.(deadline := 0), Paused(SaturatingSub(s.deadline, now), s.deadline != 0))
  }

  function ResumedAt(s: State, guard: Paused, now: u64): State {
    if guard.wasArmed then s.(deadline := AtLeastOne(SaturatingAdd(now, guard.remaining))) else s
  }

  function Polled(s: State, globalNanos: u64, now: u64): (State, bool) {
    if now >= globalNanos then (s.(tripped := Some(Run)), true)
    else if s.deadline != 0 && now >= s.deadline then (s.(tripped := Some(Rule)), true)
    else (s, false)
  }

  /** The enforcer, with every reading of the run clock passed in. */
  class Budget {
    const globalNanos: u64
    var deadline: u64
    var tripped: Option<Trip>

    function Now(): State
      reads this
    {
      State(deadline, tripped)
    }

    constructor (globalNanos: u64)
      ensures this.globalNanos == globalNanos
      ensures Now() == State(0, None)
    {
      this.globalNanos := globalNanos;
      deadline, tripped := 0, None;
    }

    method Arm(now: u64, timeout: u64)
      modifies this
      ensures Now() == Armed(now, timeout)
    {
      deadline := AtLeastOne(SaturatingAdd(now, timeout));
      tripped := None;
    }

    method Disarm()
      modifies this
      ensures Now() == old(Now()).(deadline := 0)
    {
      deadline := 0;
    }

    method Pause(now: u64) returns (guard: Paused)
      modifies this
      ensures (Now(), guard) == PausedAt(old(Now()), now)
    {
      var was := deadline;
      deadline := 0;
      guard := Paused(SaturatingSub(was, now), was != 0);
    }

    /** Dropping the guard. */
    method Resume(guard: Paused, now: u64)
      modifies this
      ensures Now() == ResumedAt(old(Now()), guard, now)
    {
      if !guard.wasArmed {
        return;
      }
      deadline := AtLeastOne(SaturatingAdd(now, guard.remaining));
    }

    method ShouldInterrupt(now: u64) returns (stop: bool)
      modifies this
      ensures (Now(), stop) == Polled(old(Now()), globalNanos, now)
    {
      if now >= globalNanos {
        tripped := Some(Run);
        return true;
      }
      if deadline != 0 && now >= deadline {
        tripped := Some(Rule);
        return true;
      }
      return false;
    }

    method TakeTrip() returns (trip: Option<Trip>)
      modifies this
      ensures trip == old(tripped) && Now() == old(Now()).(tripped := None)
    {
      trip := tripped;
      tripped := None;
    }
  }

  // ----- Runs -----

  datatype Event = Tick(nanos: nat) | Arm(timeout: u64) | Disarm | Pause | Resume | Poll | TakeTrip

  datatype Answer = Silent | Stop(stop: bool) | Took(trip: Option<Trip>)

  /** The enforcer inside a run: the clock, its words, and the open guards, innermost last. */
  datatype Machine = Machine(now: nat, state: State, guards: seq<Paused>)

  ghost predicate Possible(m: Machine, e: Event) {
    match e
    case Tick(nanos) => m.now + nanos < U64_MAX
    case Arm(_) => m.now < U64_MAX
    case Resume => m.now < U64_MAX && m.guards != []
    case _ => m.now < U64_MAX
  }

  ghost function Step(m: Machine, globalNanos: u64, e: Event): (Machine, Answer)
    requires Possible(m, e)
  {
    match e
    case Tick(nanos) => (m.(now := m.now + nanos), Silent)
    case Arm(timeout) => (m.(state := Armed(m.now, timeout)), Silent)
    case Disarm => (m.(state := m.state.(deadline := 0)), Silent)
    case Pause =>
      var (s, guard) := PausedAt(m.state, m.now);
      (m.(state := s, guards := m.guards + [guard]), Silent)
    case Resume =>
      var last := |m.guards| - 1;
      (m.(state := ResumedAt(m.state, m.guards[last], m.now), guards := m.guards[..last]), Silent)
    case Poll =>
      var (s, stop) := Polled(m.state, globalNanos, m.now);
      (m.(state := s), Stop(stop))
    case TakeTrip => (m.(state := m.state.(tripped := None)), Took(m.state.tripped))
  }

  /** The specification: how much unpaused time the invocation in flight has used. */
  datatype Stopwatch = Stopwatch(now: nat, limit: Option<nat>, used: nat, depth: nat, trip: Option<Trip>)

  ghost function Watch(w: Stopwatch, globalNanos: u64, e: Event): (Stopwatch, Answer) {
    match e
    case Tick(nanos) =>
      (w.(now := w.now + nanos, used := if w.depth == 0 then w.used + nanos else w.used), Silent)
    case Arm(timeout) => (w.(limit := Some(timeout), used := 0, trip := None), Silent)
    case Disarm => (w.(limit := None), Silent)
    case Pause => (w.(depth := w.depth + 1), Silent)
    case Resume => (w.(depth := if w.depth > 0 then w.depth - 1 else 0), Silent)
    case Poll =>
      if w.now >= globalNanos then (w.(trip := Some(Run)), Stop(true))
      else if w.depth == 0 && w.limit.Some? && w.used >= w.limit.value then (w.(trip := Some(Rule)), Stop(true))
      else (w, Stop(false))
    case TakeTrip => (w.(trip := None), Took(w.trip))
  }

  /**
    What engines do: never touch the budget under an open guard, and arm either with a nanosecond
    to spend or once the clock has moved. The clock stays short of its last value, centuries away.
  */
  ghost predicate Legal(w: Stopwatch, e: Event) {
    match e
    case Tick(nanos) => w.now + nanos < U64_MAX
    case Arm(timeout) => w.depth == 0 && (timeout >= 1 || w.now >= 1)
    case Disarm => w.depth == 0
    case Resume => w.depth > 0
    case _ => true
  }

  ghost predicate LegalRun(w: Stopwatch, globalNanos: u64, events: seq<Event>)
    decreases |events|
  {
    events == [] || (Legal(w, events[0]) && LegalRun(Watch(w, globalNanos, events[0]).0, globalNanos, events[1..]))
  }

  ghost function WatchRun(w: Stopwatch, globalNanos: u64, events: seq<Event>): (Stopwatch, seq<Answer>)
    decreases |events|
  {
    if events == [] then (w, [])
    else
      var (next, answer) := Watch(w, globalNanos, events[0]);
      var (end, answers) := WatchRun(next, globalNanos, events[1..]);
      (end, [answer] + answers)
  }

  ghost function MachineRun(m: Machine, globalNanos: u64, events: seq<Event>): Option<(Machine, seq<Answer>)>
    decreases |events|
  {
    if events == [] then Some((m, []))
    else if !Possible(m, events[0]) then None
    else
      var (next, answer) := Step(m, globalNanos, events[0]);
      match MachineRun(next, globalNanos, events[1..])
      case None => None
      case Some((end, answers)) => Some((end, [answer] + answers))
  }

  // ----- The deadline is the stopwatch -----

  ghost predicate SameTime(m: Machine, w: Stopwatch) {
    && m.now == w.now < U64_MAX
    && m.state.tripped == w.trip
    && |m.guards| == w.depth
    && (w.limit.Some? ==> w.used <= w.now && (w.limit.value >= 1 || w.now >= 1))
  }

  /** While running, the deadline is what is left of the limit, counted from now. */
  ghost predicate RunningDeadline(deadline: u64, w: Stopwatch) {
    match w.limit
    case None => deadline == 0
    case Some(limit) =>
      && deadline != 0
      && (if w.used < limit
          then deadline == (if w.now + limit - w.used > U64_MAX then U64_MAX else w.now + limit - w.used)
          else deadline <= w.now)
  }

  /** While paused, only the outermost guard holds what is left. */
  ghost predicate OutermostGuard(guards: seq<Paused>, w: Stopwatch)
    requires guards != []
  {
    && guards[0].wasArmed == w.limit.Some?
    && (forall i | 1 <= i < |guards| :: !guards[i].wasArmed)
    && (w.limit.Some? ==>
          var left := if w.used < w.limit.value then w.limit.value - w.used else 0;
          guards[0].remaining <= left && (guards[0].remaining < left ==> w.now + guards[0].remaining >= U64_MAX))
  }

  ghost predicate Simulates(m: Machine, w: Stopwatch) {
    && SameTime(m, w)
    && (if w.depth == 0 then RunningDeadline(m.state.deadline, w)
        else m.state.deadline == 0 && OutermostGuard(m.guards, w))
  }

  lemma StepSimulates(m: Machine, w: Stopwatch, globalNanos: u64, e: Event)
    requires Simulates(m, w) && Legal(w, e)
    ensures Possible(m, e)
    ensures Step(m, globalNanos, e).1 == Watch(w, globalNanos, e).1
    ensures Simulates(Step(m, globalNanos, e).0, Watch(w, globalNanos, e).0)
  {
    match e
    case Resume =>
      var last := |m.guards| - 1;
      assert last > 0 ==> !m.guards[last].wasArmed && m.guards[..last][0] == m.guards[0];
    case Pause =>
      var guard := PausedAt(m.state, m.now).1;
      assert (m.guards + [guard])[0] == if m.guards == [] then guard else m.guards[0];
    case _ =>
  }

  /** Every legal run gets from the enforcer exactly the answers of the stopwatch. */
  lemma {:induction false} RunsAgree(m: Machine, w: Stopwatch, globalNanos: u64, events: seq<Event>)
    requires Simulates(m, w) && LegalRun(w, globalNanos, events)
    ensures MachineRun(m, globalNanos, events).Some?
    ensures MachineRun(m, globalNanos, events).value.1 == WatchRun(w, globalNanos, events).1
    ensures Simulates(MachineRun(m, globalNanos, events).value.0, WatchRun(w, globalNanos, events).0)
    decreases |events|
  {
    if events != [] {
      StepSimulates(m, w, globalNanos, events[0]);
      RunsAgree(Step(m, globalNanos, events[0]).0, Watch(w, globalNanos, events[0]).0, globalNanos, events[1..]);
    }
  }

  const FRESH: State := State(0, None)

  /** From a fresh budget, after any legal run, a poll says what it should. */
  lemma PollAfterAnyRun(globalNanos: u64, start: nat, events: seq<Event>)
    requires start < U64_MAX
    requires LegalRun(Stopwatch(start, None, 0, 0, None), globalNanos, events)
    ensures var m := Machine(start, FRESH, []);
            MachineRun(m, globalNanos, events).Some?
            && var end := MachineRun(m, globalNanos, events).value.0;
            var w := WatchRun(Stopwatch(start, None, 0, 0, None), globalNanos, events).0;
            && Possible(end, Poll)
            && var polled := Step(end, globalNanos, Poll);
            && (polled.0.state.tripped == Some(Run) && polled.1 == Stop(true) <== end.now >= globalNanos)
            && (end.now < globalNanos ==>
                  (polled.1 == Stop(true) <==> w.depth == 0 && w.limit.Some? && w.used >= w.limit.value)
                  && (polled.1 == Stop(true) ==> polled.0.state.tripped == Some(Rule)))
            && (end.guards != [] ==> (polled.1 == Stop(true) <==> end.now >= globalNanos))
  {
    var m, w := Machine(start, FRESH, []), Stopwatch(start, None, 0, 0, None);
    RunsAgree(m, w, globalNanos, events);
    StepSimulates(MachineRun(m, globalNanos, events).value.0, WatchRun(w, globalNanos, events).0, globalNanos, Poll);
  }

  /** A nested guard changes nothing: opened and dropped, the outer pause is as it was. */
  lemma InnerGuardRestoresNothing(m: Machine, w: Stopwatch, globalNanos: u64, nanos: nat)
    requires Simulates(m, w) && w.depth > 0 && w.now + nanos < U64_MAX
    ensures var paused := Step(m, globalNanos, Pause).0;
            Possible(paused, Tick(nanos))
            && var later := Step(paused, globalNanos, Tick(nanos)).0;
            && Possible(later, Resume)
            && Step(later, globalNanos, Resume).0 == m.(now := m.now + nanos)
  {
    var guard := PausedAt(m.state, m.now).1;
    assert (m.guards + [guard])[..|m.guards|] == m.guards;
  }

  /**
    The one boundary where the deadline is not the stopwatch: a zero budget armed at the very
    first instant of the run is kept off the disarmed value, and so trips a nanosecond late.
  */
  lemma ZeroBudgetAtTheStart(globalNanos: u64, now: u64, timeout: u64)
    requires now < U64_MAX
    ensures Polled(Armed(now, timeout), globalNanos, now).1
            == (now >= globalNanos || 0 >= timeout)
            <==> timeout >= 1 || now >= 1 || globalNanos == 0
    ensures timeout == 0 ==> Polled(Armed(now, timeout), globalNanos, now + 1).1
  {
  }
}
