/**
 The ordered parallel window of the indexer: workers parse in any order, a
 reorder buffer holds finished results, and one caller consumes them in
 ascending index order, scheduling one replacement per consumed result.

 Worker timing is an adversary: `NextArrival` promises nothing except that the
 index it returns is outstanding, so everything proved about the caller holds
 for every arrival order. The caller's run is recorded as a ghost trace of
 events, and `IsRun` says the trace is a run of a small transition system.
 */
module OrderedWindow {
  import opened Results

  // ----- The sequential loop the protocol has to be indistinguishable from

  /** `for i in next..count { consume(i, parse(i)?)? }`, threading the consumer's state. */
  function Sequential<S, T, E>(count: nat, next: nat, parse: nat -> Result<T, E>,
                               consume: (S, nat, T) -> (S, Option<E>), state: S): (S, Result<(), E>)
    requires next <= count
    decreases count - next
  {
    if next == count then
      (state, Ok(()))
    else
      match parse(next)
      case Err(error) => (state, Err(error))
      case Ok(payload) =>
        var (after, failure) := consume(state, next, payload);
        if failure.Some? then (after, Err(failure.value))
        else Sequential(count, next + 1, parse, consume, after)
  }

  /** The error index `k` raises when its turn comes with the consumer in `state`. */
  function FailureAt<S, T, E>(k: nat, parse: nat -> Result<T, E>,
                              consume: (S, nat, T) -> (S, Option<E>), state: S): Option<E>
  {
    match parse(k)
    case Err(error) => Some(error)
    case Ok(payload) => consume(state, k, payload).1
  }

  /** The consumer's state when the turn of index `k` comes, if every earlier index succeeded. */
  function StateBefore<S, T, E>(k: nat, parse: nat -> Result<T, E>,
                                consume: (S, nat, T) -> (S, Option<E>), state: S): Option<S>
  {
    if k == 0 then
      Some(state)
    else
      var before := StateBefore(k - 1, parse, consume, state);
      if before.None? || FailureAt(k - 1, parse, consume, before.value).Some? then None
      else Some(consume(before.value, k - 1, parse(k - 1).value).0)
  }

  /** Index `k` is reached and is the first whose parse or consume fails. */
  ghost predicate FirstFailure<S, T, E>(k: nat, error: E, parse: nat -> Result<T, E>,
                                  consume: (S, nat, T) -> (S, Option<E>), state: S)
  {
    var before := StateBefore(k, parse, consume, state);
    before.Some? && FailureAt(k, parse, consume, before.value) == Some(error)
  }

  /** The sequential loop fails exactly when some index below `count` is the first to fail,
      and then with that index's error; no two indices can both be first. */
  lemma SequentialErrorIsTheFirstFailure<S, T, E>(count: nat, parse: nat -> Result<T, E>,
                                                  consume: (S, nat, T) -> (S, Option<E>), state: S)
    ensures var result := Sequential(count, 0, parse, consume, state).1;
            && (result.Ok? <==> StateBefore(count, parse, consume, state).Some?)
            && (result.Ok? ==>
                  Sequential(count, 0, parse, consume, state).0 == StateBefore(count, parse, consume, state).value)
            && (result.Err? ==>
                  exists k: nat :: k < count && FirstFailure(k, result.error, parse, consume, state))
  {
    SequentialFrom(count, 0, parse, consume, state);
  }

  lemma {:induction false} SequentialFrom<S, T, E>(count: nat, next: nat, parse: nat -> Result<T, E>,
                                                   consume: (S, nat, T) -> (S, Option<E>), state: S)
    requires next <= count
    requires StateBefore(next, parse, consume, state).Some?
    ensures var before := StateBefore(next, parse, consume, state).value;
            var (after, result) := Sequential(count, next, parse, consume, before);
            && (result.Ok? <==> StateBefore(count, parse, consume, state).Some?)
            && (result.Ok? ==> after == StateBefore(count, parse, consume, state).value)
            && (result.Err? ==>
                  exists k: nat :: next <= k < count && FirstFailure(k, result.error, parse, consume, state))
    decreases count - next
  {
    if next < count {
      var before := StateBefore(next, parse, consume, state).value;
      if FailureAt(next, parse, consume, before).None? {
        assert StateBefore(next + 1, parse, consume, state).Some?;
        SequentialFrom(count, next + 1, parse, consume, state);
      } else {
        assert FirstFailure(next, FailureAt(next, parse, consume, before).value, parse, consume, state);
        NothingAfterFailure(next, count, parse, consume, state);
      }
    }
  }

  lemma {:induction false} NothingAfterFailure<S, T, E>(k: nat, later: nat, parse: nat -> Result<T, E>,
                                                        consume: (S, nat, T) -> (S, Option<E>), state: S)
    requires k < later
    requires StateBefore(k, parse, consume, state).None?
             || FailureAt(k, parse, consume, StateBefore(k, parse, consume, state).value).Some?
    ensures StateBefore(later, parse, consume, state).None?
    decreases later
  {
    if k + 1 < later {
      NothingAfterFailure(k, later - 1, parse, consume, state);
    }
  }

  /** The consumer's state when index `k` fails: what parsing left it at, or what consuming made of it. */
  function StateAfterFailure<S, T, E>(k: nat, parse: nat -> Result<T, E>, consume: (S, nat, T) -> (S, Option<E>),
                                      before: S): S
  {
    match parse(k)
    case Err(_) => before
    case Ok(payload) => consume(before, k, payload).0
  }

  /** The sequential loop stops at the first failing index, with the state it fails in. */
  lemma {:induction false} SequentialStopsAt<S, T, E>(count: nat, next: nat, k: nat, error: E,
                                                      parse: nat -> Result<T, E>,
                                                      consume: (S, nat, T) -> (S, Option<E>), state: S)
    requires next <= k < count && FirstFailure(k, error, parse, consume, state)
    requires StateBefore(next, parse, consume, state).Some?
    ensures Sequential(count, next, parse, consume, StateBefore(next, parse, consume, state).value)
            == (StateAfterFailure(k, parse, consume, StateBefore(k, parse, consume, state).value), Err(error))
    decreases k - next
  {
    if next < k {
      if StateBefore(next + 1, parse, consume, state).None? {
        NothingBefore(next + 1, k, parse, consume, state);
      }
      SequentialStopsAt(count, next + 1, k, error, parse, consume, state);
    }
  }

  lemma {:induction false} NothingBefore<S, T, E>(j: nat, k: nat, parse: nat -> Result<T, E>,
                                                  consume: (S, nat, T) -> (S, Option<E>), state: S)
    requires j <= k && StateBefore(j, parse, consume, state).None?
    ensures StateBefore(k, parse, consume, state).None?
    decreases k
  {
    if j < k {
      NothingBefore(j, k - 1, parse, consume, state);
    }
  }

  /** First failures are unique, so "the smallest failing index" is well defined. */
  lemma FirstFailureIsUnique<S, T, E>(j: nat, k: nat, d: E, e: E, parse: nat -> Result<T, E>,
                                      consume: (S, nat, T) -> (S, Option<E>), state: S)
    requires FirstFailure(j, d, parse, consume, state) && FirstFailure(k, e, parse, consume, state)
    ensures j == k && d == e
  {
    if j < k {
      NothingAfterFailure(j, k, parse, consume, state);
    } else if k < j {
      NothingAfterFailure(k, j, parse, consume, state);
    }
  }

  // ----- What the caller does, as events

  datatype Event =
    | Scheduled(index: nat)             // on_schedule, then spawn
    | Received(index: nat)              // one result taken off the channel into the buffer
    | Held(size: nat)                   // on_buffered
    | Taken(index: nat)                 // one result taken out of the buffer
    | Consumed(index: nat)              // consume returned Ok
    | Rejected(index: nat)              // consume returned Err
    | Drained(index: nat)               // one result received and dropped after the terminal error

  /** What a run adds up to; `reported` if the buffer's size was reported since it last changed. */
  datatype Progress = Progress(scheduled: nat, outstanding: set<nat>, held: set<nat>, consumed: nat,
                               stopped: bool, failed: bool, reported: bool)

  const START := Progress(0, {}, {}, 0, false, false, true)

  function Advance(parseFails: nat -> bool, p: Progress, event: Event): Progress
  {
    match event
    case Scheduled(i) => p.(scheduled := p.scheduled + 1, outstanding := p.outstanding + {i})
    case Received(i) => p.(outstanding := p.outstanding - {i}, held := p.held + {i},
                           stopped := p.stopped || parseFails(i), reported := false)
    case Held(_) => p.(reported := true)
    case Taken(i) => p.(held := p.held - {i}, stopped := p.stopped || parseFails(i),
                        failed := p.failed || parseFails(i), reported := false)
    case Consumed(_) => p.(consumed := p.consumed + 1)
    case Rejected(_) => p.(stopped := true, failed := true)
    case Drained(i) => p.(outstanding := p.outstanding - {i})
  }

  function Min(a: int, b: int): int { if a <= b then a else b }

  /** What the caller may do next. `Received` is the only blocking step, so its
      guard is what holds whenever the caller waits: everything scheduled and
      not consumed is either running or buffered, the window is never exceeded,
      the next expected result is not yet here, and until an error has been
      seen the window is as full as the remaining work allows. Nothing happens
      between a change of the buffer and the report of its size. */
  predicate Allowed(count: nat, window: nat, parseFails: nat -> bool, p: Progress, event: Event)
  {
    match event
    case Scheduled(i) =>
      p.reported && i == p.scheduled < count && !p.stopped && p.consumed <= p.scheduled < p.consumed + window
    case Received(i) =>
      && p.reported && i in p.outstanding && !p.failed && p.consumed !in p.held
      && |p.outstanding| + |p.held| == p.scheduled - p.consumed <= window
      && (!p.stopped ==> p.scheduled - p.consumed == Min(window, count - p.consumed))
    case Held(size) => !p.reported && size == |p.held| && |p.outstanding| + size <= window
    case Taken(i) => p.reported && i == p.consumed && i in p.held && !p.failed
    case Consumed(i) =>
      && p.reported && i == p.consumed < p.scheduled && i !in p.outstanding && i !in p.held
      && !p.failed && !parseFails(i)
    case Rejected(i) =>
      && p.reported && i == p.consumed < p.scheduled && i !in p.outstanding && i !in p.held
      && !p.failed && !parseFails(i)
    case Drained(i) => p.reported && i in p.outstanding && p.failed
  }

  /** The events of a run, and the progress before each of them and after the last. */
  datatype Trace = Trace(events: seq<Event>, states: seq<Progress>)
  {
    function Last(): Progress
      requires states != []
    {
      states[|states| - 1]
    }
  }

  const NO_EVENTS := Trace([], [START])

  ghost predicate IsRun(count: nat, window: nat, parseFails: nat -> bool, trace: Trace)
  {
    && |trace.states| == |trace.events| + 1 && trace.states[0] == START
    && (forall k :: 0 <= k < |trace.events| ==>
          && Allowed(count, window, parseFails, trace.states[k], trace.events[k])
          && trace.states[k + 1] == Advance(parseFails, trace.states[k], trace.events[k]))
  }

  /** The run so far ends in `p`. */
  ghost predicate RunTo(count: nat, window: nat, parseFails: nat -> bool, trace: Trace, p: Progress)
  {
    IsRun(count, window, parseFails, trace) && trace.Last() == p
  }

  lemma Emit(count: nat, window: nat, parseFails: nat -> bool, trace: Trace, p: Progress, event: Event)
    returns (longer: Trace, next: Progress)
    requires RunTo(count, window, parseFails, trace, p) && Allowed(count, window, parseFails, p, event)
    ensures next == Advance(parseFails, p, event)
    ensures RunTo(count, window, parseFails, longer, next) && longer.events == trace.events + [event]
  {
    next := Advance(parseFails, p, event);
    longer := Trace(trace.events + [event], trace.states + [next]);
  }

  // ----- What holds of every run of the transition system

  /** At every point of every run: the window bounds what is scheduled and not consumed, and
      whatever is running or buffered was scheduled and not yet passed over. */
  lemma {:induction false} RunStaysInWindow(count: nat, window: nat, parseFails: nat -> bool, trace: Trace, k: nat)
    requires IsRun(count, window, parseFails, trace) && k < |trace.states|
    ensures var p := trace.states[k];
            && p.consumed <= p.scheduled <= count && p.scheduled <= p.consumed + window
            && (forall i :: i in p.outstanding || i in p.held ==> i < p.scheduled)
  {
    if k > 0 {
      RunStaysInWindow(count, window, parseFails, trace, k - 1);
      assert Allowed(count, window, parseFails, trace.states[k - 1], trace.events[k - 1]);
    }
  }

  /** What is running and what is buffered are apart, and lie between what is consumed and what is scheduled. */
  ghost predicate InFlight(p: Progress)
  {
    && p.outstanding !! p.held
    && (forall i :: i in p.outstanding || i in p.held ==> p.consumed <= i < p.scheduled)
  }

  /** Past the next expected index everything scheduled is running or buffered. */
  ghost predicate NoneMissing(p: Progress)
  {
    forall i :: p.consumed < i < p.scheduled ==> i in p.outstanding || i in p.held
  }

  lemma FlightStep(count: nat, window: nat, parseFails: nat -> bool, p: Progress, event: Event)
    requires Allowed(count, window, parseFails, p, event) && InFlight(p)
    ensures InFlight(Advance(parseFails, p, event))
  {
  }

  lemma NoneMissingStep(count: nat, window: nat, parseFails: nat -> bool, p: Progress, event: Event)
    requires Allowed(count, window, parseFails, p, event) && (!p.failed ==> NoneMissing(p))
    ensures !Advance(parseFails, p, event).failed ==> NoneMissing(Advance(parseFails, p, event))
  {
  }

  lemma StaysFailed(parseFails: nat -> bool, p: Progress, event: Event)
    ensures p.failed ==> Advance(parseFails, p, event).failed
  {
  }

  lemma {:induction false} RunIsInFlight(count: nat, window: nat, parseFails: nat -> bool, trace: Trace, k: nat)
    requires IsRun(count, window, parseFails, trace) && k < |trace.states|
    ensures InFlight(trace.states[k]) && (!trace.states[k].failed ==> NoneMissing(trace.states[k]))
  {
    if k > 0 {
      hide InFlight, NoneMissing, Allowed, Advance, IsRun;
      RunIsInFlight(count, window, parseFails, trace, k - 1);
      RunStep(count, window, parseFails, trace, k - 1);
      FlightStep(count, window, parseFails, trace.states[k - 1], trace.events[k - 1]);
      NoneMissingStep(count, window, parseFails, trace.states[k - 1], trace.events[k - 1]);
      StaysFailed(parseFails, trace.states[k - 1], trace.events[k - 1]);
    }
  }

  /** In every state of every run, failed ones included, running and buffered tasks together fit the window. */
  lemma TasksFitWindow(count: nat, window: nat, parseFails: nat -> bool, trace: Trace, k: nat)
    requires IsRun(count, window, parseFails, trace) && k < |trace.states|
    ensures var p := trace.states[k];
            |p.outstanding| + |p.held| == |p.outstanding + p.held| <= p.scheduled - p.consumed <= window
  {
    RunIsInFlight(count, window, parseFails, trace, k);
    RunStaysInWindow(count, window, parseFails, trace, k);
    hide IsRun;
    var p := trace.states[k];
    WithinBounds(p.outstanding + p.held, p.consumed, p.scheduled);
  }

  lemma {:induction false} WithinBounds(s: set<nat>, lo: nat, hi: nat)
    requires lo <= hi && forall i :: i in s ==> lo <= i < hi
    ensures |s| <= hi - lo
    decreases hi
  {
    if lo == hi {
      assert s == {};
    } else {
      WithinBounds(s - {hi - 1}, lo, hi - 1);
      assert |s| <= |s - {hi - 1}| + 1;
    }
  }

  /** In every state before a failure they are exactly what is scheduled and not consumed, less the one result
      that has been taken and not yet consumed, if there is one. */
  lemma TasksAreAccounted(count: nat, window: nat, parseFails: nat -> bool, trace: Trace, k: nat)
    requires IsRun(count, window, parseFails, trace) && k < |trace.states| && !trace.states[k].failed
    ensures var p := trace.states[k];
            var taken := p.consumed < p.scheduled && p.consumed !in p.outstanding && p.consumed !in p.held;
            |p.outstanding| + |p.held| == p.scheduled - p.consumed - if taken then 1 else 0
  {
    RunIsInFlight(count, window, parseFails, trace, k);
    RunStaysInWindow(count, window, parseFails, trace, k);
    hide IsRun;
    var p := trace.states[k];
    var taken := p.consumed < p.scheduled && p.consumed !in p.outstanding && p.consumed !in p.held;
    SplitSize(p.outstanding, p.held, if taken then p.consumed + 1 else p.consumed, p.scheduled);
  }

  /** The indices submitted by the first `k` events, in order. */
  function ScheduledIndices(events: seq<Event>, k: nat): seq<nat>
    requires k <= |events|
  {
    if k == 0 then []
    else ScheduledIndices(events, k - 1) + if events[k - 1].Scheduled? then [events[k - 1].index] else []
  }

  /** The indices consumed by the first `k` events, in order. */
  function ConsumedIndices(events: seq<Event>, k: nat): seq<nat>
    requires k <= |events|
  {
    if k == 0 then []
    else ConsumedIndices(events, k - 1) + if events[k - 1].Consumed? then [events[k - 1].index] else []
  }

  /** How many of the first `k` events took a result off the channel, to buffer or to drop it. */
  function Arrivals(events: seq<Event>, k: nat): nat
    requires k <= |events|
  {
    if k == 0 then 0
    else Arrivals(events, k - 1) + if events[k - 1].Received? || events[k - 1].Drained? then 1 else 0
  }

  /** 0, 1, ..., n - 1. */
  function Upto(n: nat): seq<nat>
  {
    if n == 0 then [] else Upto(n - 1) + [n - 1]
  }

  lemma RunStep(count: nat, window: nat, parseFails: nat -> bool, trace: Trace, k: nat)
    requires IsRun(count, window, parseFails, trace) && k < |trace.events|
    ensures Allowed(count, window, parseFails, trace.states[k], trace.events[k])
    ensures trace.states[k + 1] == Advance(parseFails, trace.states[k], trace.events[k])
  {
  }

  lemma NextInOrder(count: nat, window: nat, parseFails: nat -> bool, p: Progress, event: Event)
    requires Allowed(count, window, parseFails, p, event)
    ensures var q := Advance(parseFails, p, event);
            && (if event.Scheduled? then event.index == p.scheduled == q.scheduled - 1 else q.scheduled == p.scheduled)
            && (if event.Consumed? then event.index == p.consumed == q.consumed - 1 else q.consumed == p.consumed)
  {
  }

  lemma UptoOneMore(n: nat)
    ensures Upto(n + 1) == Upto(n) + [n]
  {
  }

  lemma {:induction false} SchedulesInOrder(count: nat, window: nat, parseFails: nat -> bool, trace: Trace, k: nat)
    requires IsRun(count, window, parseFails, trace) && k <= |trace.events|
    ensures ScheduledIndices(trace.events, k) == Upto(trace.states[k].scheduled)
  {
    if k > 0 {
      hide Allowed, Advance, Upto, IsRun;
      SchedulesInOrder(count, window, parseFails, trace, k - 1);
      var p, event := trace.states[k - 1], trace.events[k - 1];
      UptoOneMore(p.scheduled);
      RunStep(count, window, parseFails, trace, k - 1);
      NextInOrder(count, window, parseFails, p, event);
    }
  }

  lemma {:induction false} ConsumesInOrder(count: nat, window: nat, parseFails: nat -> bool, trace: Trace, k: nat)
    requires IsRun(count, window, parseFails, trace) && k <= |trace.events|
    ensures ConsumedIndices(trace.events, k) == Upto(trace.states[k].consumed)
  {
    if k > 0 {
      hide Allowed, Advance, Upto, IsRun;
      ConsumesInOrder(count, window, parseFails, trace, k - 1);
      var p, event := trace.states[k - 1], trace.events[k - 1];
      UptoOneMore(p.consumed);
      RunStep(count, window, parseFails, trace, k - 1);
      NextInOrder(count, window, parseFails, p, event);
    }
  }

  /** Indices are scheduled as 0, 1, 2, ... and consumed as 0, 1, 2, ..., each once. */
  lemma RunGoesInOrder(count: nat, window: nat, parseFails: nat -> bool, trace: Trace, k: nat)
    requires IsRun(count, window, parseFails, trace) && k <= |trace.events|
    ensures ScheduledIndices(trace.events, k) == Upto(trace.states[k].scheduled)
    ensures ConsumedIndices(trace.events, k) == Upto(trace.states[k].consumed)
  {
    SchedulesInOrder(count, window, parseFails, trace, k);
    ConsumesInOrder(count, window, parseFails, trace, k);
  }

  /** A result has arrived, exactly once, for every scheduled index that is not outstanding. */
  lemma {:induction false} ArrivalsAreCounted(count: nat, window: nat, parseFails: nat -> bool, trace: Trace, k: nat)
    requires IsRun(count, window, parseFails, trace) && k <= |trace.events|
    ensures Arrivals(trace.events, k) + |trace.states[k].outstanding| == trace.states[k].scheduled
  {
    if k > 0 {
      ArrivalsAreCounted(count, window, parseFails, trace, k - 1);
      RunStaysInWindow(count, window, parseFails, trace, k - 1);
      assert Allowed(count, window, parseFails, trace.states[k - 1], trace.events[k - 1]);
    }
  }

  /** What the events so far say of the indices: all up to the last scheduled were, what is buffered was received,
      what was taken was received, and before a failure what is neither running nor buffered was taken. */
  ghost predicate Recounts(events: seq<Event>, p: Progress)
  {
    && (forall i: nat :: i < p.scheduled ==> Scheduled(i) in events)
    && (forall i :: i in p.held ==> Received(i) in events)
    && (forall i: nat :: Taken(i) in events ==> Received(i) in events)
    && (!p.failed ==> forall i: nat :: i < p.scheduled && i !in p.outstanding && i !in p.held ==> Taken(i) in events)
  }

  lemma RecountStep(count: nat, window: nat, parseFails: nat -> bool, events: seq<Event>, p: Progress, event: Event)
    requires Recounts(events, p) && Allowed(count, window, parseFails, p, event)
    ensures Recounts(events + [event], Advance(parseFails, p, event))
  {
    assert forall e :: e in events + [event] <==> e in events || e == event;
  }

  lemma {:induction false} RunRecounts(count: nat, window: nat, parseFails: nat -> bool, trace: Trace, k: nat)
    requires IsRun(count, window, parseFails, trace) && k < |trace.states|
    ensures Recounts(trace.events[..k], trace.states[k])
  {
    if k == 0 {
      NothingToRecount(count, window, parseFails, trace);
    } else {
      hide Recounts, Allowed, Advance, IsRun;
      RunRecounts(count, window, parseFails, trace, k - 1);
      RunStep(count, window, parseFails, trace, k - 1);
      RecountStep(count, window, parseFails, trace.events[..k - 1], trace.states[k - 1], trace.events[k - 1]);
      assert trace.events[..k] == trace.events[..k - 1] + [trace.events[k - 1]];
    }
  }

  lemma NothingToRecount(count: nat, window: nat, parseFails: nat -> bool, trace: Trace)
    requires IsRun(count, window, parseFails, trace)
    ensures Recounts(trace.events[..0], trace.states[0])
  {
  }

  /** Whatever is consumed or rejected was scheduled, received and taken out of the buffer before. */
  lemma ConsumedWasTaken(count: nat, window: nat, parseFails: nat -> bool, trace: Trace, k: nat, i: nat)
    requires IsRun(count, window, parseFails, trace) && k < |trace.events|
    requires trace.events[k] == Consumed(i) || trace.events[k] == Rejected(i)
    ensures var before := trace.events[..k]; Scheduled(i) in before && Received(i) in before && Taken(i) in before
  {
    RunRecounts(count, window, parseFails, trace, k);
    RunStep(count, window, parseFails, trace, k);
    hide IsRun, Advance;
  }

  lemma NeverBack(count: nat, window: nat, parseFails: nat -> bool, p: Progress, event: Event)
    requires Allowed(count, window, parseFails, p, event)
    ensures var q := Advance(parseFails, p, event);
            && p.scheduled <= q.scheduled && p.consumed <= q.consumed
            && (p.stopped ==> q.stopped && q.scheduled == p.scheduled)
            && (p.failed ==> q.failed && q.consumed == p.consumed)
  {
  }

  /** What never goes back: the counters only grow, and stopping is final. */
  lemma {:induction false} RunIsMonotone(count: nat, window: nat, parseFails: nat -> bool, trace: Trace, j: nat, k: nat)
    requires IsRun(count, window, parseFails, trace) && j <= k < |trace.states|
    ensures var p, q := trace.states[j], trace.states[k];
            && p.scheduled <= q.scheduled && p.consumed <= q.consumed
            && (p.stopped ==> q.stopped && q.scheduled == p.scheduled)
            && (p.failed ==> q.failed && q.consumed == p.consumed)
    decreases k
  {
    if j < k {
      hide Allowed, Advance;
      RunIsMonotone(count, window, parseFails, trace, j, k - 1);
      NeverBack(count, window, parseFails, trace.states[k - 1], trace.events[k - 1]);
    }
  }

  /** Scheduling stops before the terminal error only because an error was received. */
  lemma {:induction false} StopHasACause(count: nat, window: nat, parseFails: nat -> bool, trace: Trace, k: nat)
    requires IsRun(count, window, parseFails, trace) && k < |trace.states|
    requires trace.states[k].stopped && !trace.states[k].failed
    ensures exists j :: 0 <= j < k && trace.events[j].Received? && parseFails(trace.events[j].index)
  {
    assert k > 0;
    var p, event := trace.states[k - 1], trace.events[k - 1];
    assert trace.states[k] == Advance(parseFails, p, event);
    if p.stopped {
      StopHasACause(count, window, parseFails, trace, k - 1);
    } else {
      assert event.Received? && parseFails(event.index);
    }
  }

  /** Whenever the caller waits, what is running and what is buffered make up exactly what is scheduled and
      not consumed, within the window; and the window is as full as the remaining work allows unless an
      error has been received. */
  lemma WaitingIsFull(count: nat, window: nat, parseFails: nat -> bool, trace: Trace, k: nat)
    requires IsRun(count, window, parseFails, trace) && k < |trace.events| && trace.events[k].Received?
    ensures var p := trace.states[k];
            && |p.outstanding| + |p.held| == p.scheduled - p.consumed <= window
            && ((forall j :: 0 <= j < k && trace.events[j].Received? ==> !parseFails(trace.events[j].index))
                ==> p.scheduled - p.consumed == Min(window, count - p.consumed))
  {
    assert Allowed(count, window, parseFails, trace.states[k], trace.events[k]);
    if trace.states[k].stopped {
      StopHasACause(count, window, parseFails, trace, k);
    }
  }

  /** Whenever a result enters or leaves the buffer, the next thing that happens is the report of its new size, and
      sizes are reported at no other time. */
  lemma ChangesAreReported(count: nat, window: nat, parseFails: nat -> bool, trace: Trace, k: nat)
    requires IsRun(count, window, parseFails, trace) && trace.Last().reported && k < |trace.events|
    ensures trace.events[k].Received? || trace.events[k].Taken? <==> k + 1 < |trace.events| && trace.events[k + 1].Held?
    ensures trace.events[k].Held? ==> trace.events[k].size == |trace.states[k].held|
  {
    RunStep(count, window, parseFails, trace, k);
    if k + 1 < |trace.events| {
      RunStep(count, window, parseFails, trace, k + 1);
    }
    hide IsRun;
  }

  /** Once any received result is an error, nothing more is scheduled. */
  lemma ErrorStopsScheduling(count: nat, window: nat, parseFails: nat -> bool, trace: Trace, j: nat, k: nat)
    requires IsRun(count, window, parseFails, trace) && j < k < |trace.events|
    requires trace.events[j].Received? && parseFails(trace.events[j].index)
    ensures !trace.events[k].Scheduled?
  {
    RunIsMonotone(count, window, parseFails, trace, j + 1, k);
    assert trace.states[j + 1] == Advance(parseFails, trace.states[j], trace.events[j]);
    assert Allowed(count, window, parseFails, trace.states[k], trace.events[k]);
  }

  /** An index that fails, in parse or in consume, is never passed. */
  lemma {:induction false} FailureIsNotPassed(count: nat, window: nat, parseFails: nat -> bool, trace: Trace,
                                              failing: nat, k: nat)
    requires IsRun(count, window, parseFails, trace) && k < |trace.states|
    requires parseFails(failing) || Rejected(failing) in trace.events
    ensures trace.states[k].consumed <= failing
  {
    if parseFails(failing) {
      if k > 0 {
        FailureIsNotPassed(count, window, parseFails, trace, failing, k - 1);
        assert Allowed(count, window, parseFails, trace.states[k - 1], trace.events[k - 1]);
      }
    } else {
      var r :| 0 <= r < |trace.events| && trace.events[r] == Rejected(failing);
      assert Allowed(count, window, parseFails, trace.states[r], trace.events[r]);
      assert trace.states[r + 1] == Advance(parseFails, trace.states[r], trace.events[r]);
      if k <= r {
        RunIsMonotone(count, window, parseFails, trace, k, r);
      } else {
        RunIsMonotone(count, window, parseFails, trace, r + 1, k);
      }
    }
  }

  /** A failed run stands at the index that failed, in parse or in consume. */
  lemma {:induction false} FailureIsTheHead(count: nat, window: nat, parseFails: nat -> bool, trace: Trace, k: nat)
    requires IsRun(count, window, parseFails, trace) && k < |trace.states| && trace.states[k].failed
    ensures parseFails(trace.states[k].consumed) || Rejected(trace.states[k].consumed) in trace.events[..k]
  {
    assert k > 0;
    assert Allowed(count, window, parseFails, trace.states[k - 1], trace.events[k - 1]);
    assert trace.events[..k] == trace.events[..k - 1] + [trace.events[k - 1]];
    if trace.states[k - 1].failed {
      FailureIsTheHead(count, window, parseFails, trace, k - 1);
    }
  }

  /** A failed run has scheduled nothing a whole window past the index it failed at, and consumed nothing from it on. */
  lemma FailedRunIsBounded(count: nat, window: nat, parseFails: nat -> bool, trace: Trace, i: nat)
    requires IsRun(count, window, parseFails, trace) && trace.Last().failed
    ensures Scheduled(i) in trace.events ==> i < trace.Last().consumed + window
    ensures Consumed(i) in trace.events ==> i < trace.Last().consumed
  {
    var last := |trace.events|;
    FailureIsTheHead(count, window, parseFails, trace, last);
    assert trace.events[..last] == trace.events;
    if Scheduled(i) in trace.events {
      FailureBoundsScheduling(count, window, parseFails, trace, trace.Last().consumed, i);
    }
    if k :| 0 <= k < last && trace.events[k] == Consumed(i) {
      assert Allowed(count, window, parseFails, trace.states[k], trace.events[k]);
      assert trace.states[k + 1] == Advance(parseFails, trace.states[k], trace.events[k]);
      RunIsMonotone(count, window, parseFails, trace, k + 1, last);
    }
  }

  /** No index a whole window past a failing one is ever scheduled. */
  lemma FailureBoundsScheduling(count: nat, window: nat, parseFails: nat -> bool, trace: Trace, failing: nat, i: nat)
    requires IsRun(count, window, parseFails, trace)
    requires parseFails(failing) || Rejected(failing) in trace.events
    requires Scheduled(i) in trace.events
    ensures i < failing + window
  {
    var k :| 0 <= k < |trace.events| && trace.events[k] == Scheduled(i);
    FailureIsNotPassed(count, window, parseFails, trace, failing, k);
    assert Allowed(count, window, parseFails, trace.states[k], trace.events[k]);
  }

  // ----- The protocol itself

  /** Results that have arrived and whose turn has not come yet, by index. */
  class ReorderBuffer<T> {
    var pending: map<nat, T>

    constructor ()
      ensures pending == map[]
    {
      pending := map[];
    }

    method Insert(index: nat, payload: T)
      modifies this
      ensures pending == old(pending)[index := payload]
      ensures pending.Keys == old(pending.Keys) + {index}
    {
      pending := pending[index := payload];
    }

    method Take(index: nat) returns (taken: Option<T>)
      modifies this
      ensures taken == if index in old(pending) then Some(old(pending)[index]) else None
      ensures pending == old(pending) - {index}
      ensures pending.Keys == old(pending.Keys) - {index}
    {
      if index in pending {
        taken := Some(pending[index]);
        pending := pending - {index};
      } else {
        taken := None;
      }
    }
  }

  /** The adversary: whichever outstanding task finishes first. */
  method NextArrival(outstanding: set<nat>) returns (index: nat)
    requires outstanding != {}
    ensures index in outstanding
  {
    index :| index in outstanding;
  }

  /** `a` and `b` split the indices from `lo` up to `hi` between them. */
  ghost predicate Split(a: set<nat>, b: set<nat>, lo: nat, hi: nat)
  {
    && (forall i :: i in a ==> lo <= i < hi && i !in b)
    && (forall i :: i in b ==> lo <= i < hi)
    && (forall i: nat :: lo <= i < hi && i !in a ==> i in b)
  }

  lemma {:induction false} SplitSize(a: set<nat>, b: set<nat>, lo: nat, hi: nat)
    requires lo <= hi && Split(a, b, lo, hi)
    ensures |a| + |b| == hi - lo
    decreases hi - lo
  {
    if lo < hi {
      SplitSize(a - {lo}, b - {lo}, lo + 1, hi);
    } else {
      assert a == {} && b == {};
    }
  }

  /** No terminal error yet: exactly the indices from `consumed` up to `scheduled` are
      running or buffered, within the window; a stop is due to a buffered failure. */
  ghost predicate Steady(count: nat, window: nat, parseFails: nat -> bool, p: Progress)
  {
    && !p.failed
    && p.consumed <= p.scheduled <= count && p.scheduled <= p.consumed + window
    && Split(p.outstanding, p.held, p.consumed, p.scheduled)
    && (p.stopped ==> exists i :: i in p.held && parseFails(i))
  }

  /** Until an error has been seen the window is as full as the remaining work allows. */
  predicate Full(count: nat, window: nat, p: Progress)
  {
    !p.stopped ==> p.scheduled == Min(count, p.consumed + window)
  }

  lemma ScheduleStep(count: nat, window: nat, parseFails: nat -> bool, p: Progress)
    requires Steady(count, window, parseFails, p) && !p.stopped
    requires p.reported && p.scheduled < count && p.scheduled < p.consumed + window
    ensures Allowed(count, window, parseFails, p, Scheduled(p.scheduled))
    ensures Steady(count, window, parseFails, Advance(parseFails, p, Scheduled(p.scheduled)))
    ensures p.scheduled !in p.outstanding
  {
  }

  lemma ReceiveStep(count: nat, window: nat, parseFails: nat -> bool, p: Progress, i: nat)
    requires Steady(count, window, parseFails, p) && Full(count, window, p)
    requires p.reported && i in p.outstanding && p.consumed !in p.held
    ensures Allowed(count, window, parseFails, p, Received(i))
    ensures var q := Advance(parseFails, p, Received(i));
            && Steady(count, window, parseFails, q) && Full(count, window, q)
            && Allowed(count, window, parseFails, q, Held(|q.held|))
  {
    SplitSize(p.outstanding, p.held, p.consumed, p.scheduled);
    var q := Advance(parseFails, p, Received(i));
    if q.stopped {
      assert i in q.held;
      assert exists j :: j in q.held && parseFails(j);
    }
    SplitSize(q.outstanding, q.held, q.consumed, q.scheduled);
  }

  lemma TakeStep(count: nat, window: nat, parseFails: nat -> bool, p: Progress)
    requires p.reported && Steady(count, window, parseFails, p) && p.consumed in p.held
    ensures Allowed(count, window, parseFails, p, Taken(p.consumed))
    ensures var q := Advance(parseFails, p, Taken(p.consumed));
            var r := Advance(parseFails, q, Held(|q.held|));
            && Allowed(count, window, parseFails, q, Held(|q.held|))
            && (!parseFails(p.consumed) ==>
                  && Allowed(count, window, parseFails, r, Consumed(p.consumed))
                  && Allowed(count, window, parseFails, r, Rejected(p.consumed))
                  && Steady(count, window, parseFails, Advance(parseFails, r, Consumed(p.consumed))))
  {
    var q := Advance(parseFails, p, Taken(p.consumed));
    SplitSize(q.outstanding, q.held, p.consumed + 1, p.scheduled);
    if !parseFails(p.consumed) && p.stopped {
      var i :| i in p.held && parseFails(i);
      assert i in q.held;
    }
  }

  datatype RunError<+E> =
    | Task(error: E)                              // an error of parse or consume
    | ZeroWindow                                  // "parallel parse window must be at least one"
    | StoppedShort(next: nat, count: nat)         // "... without an ordered error"

  function Lift<E>(result: Result<(), E>): Result<(), RunError<E>>
  {
    match result
    case Ok(_) => Ok(())
    case Err(error) => Err(Task(error))
  }

  function ParseFails<T, E>(parse: nat -> Result<T, E>): nat -> bool
  {
    (i: nat) => parse(i).Err?
  }

  ghost predicate Delivered<T, E>(parse: nat -> Result<T, E>, pending: map<nat, Result<T, E>>)
  {
    forall i :: i in pending ==> pending[i] == parse(i)
  }

  /** A failing run ends failed, with everything before the first failing index consumed and that index's error. */
  ghost predicate EndsAtFirstFailure<S, T, E>(result: Result<(), RunError<E>>, trace: Trace, parse: nat -> Result<T, E>,
                                              consume: (S, nat, T) -> (S, Option<E>), initial: S)
    requires trace.states != [] && result.Err?
  {
    && trace.Last().failed && result.error.Task?
    && FirstFailure(trace.Last().consumed, result.error.error, parse, consume, initial)
  }

  /** For every arrival order: the same final consumer state and the same result as the sequential loop, along a run
      of the transition system that receives all it schedules and, if it fails, ends at the first failing index. */
  method RunOrderedParallelWindow<S, T, E>(count: nat, window: nat, parse: nat -> Result<T, E>,
                                           consume: (S, nat, T) -> (S, Option<E>), initial: S)
    returns (state: S, result: Result<(), RunError<E>>, ghost trace: Trace)
    ensures window == 0 ==> state == initial && result == Err(ZeroWindow) && trace == NO_EVENTS
    ensures window > 0 ==> state == Sequential(count, 0, parse, consume, initial).0
    ensures window > 0 ==> result == Lift(Sequential(count, 0, parse, consume, initial).1)
    ensures IsRun(count, window, ParseFails(parse), trace)
    ensures trace.Last().outstanding == {} && trace.Last().reported
    ensures result.Ok? ==> trace.Last().consumed == count
    ensures window > 0 && result.Err? ==> EndsAtFirstFailure(result, trace, parse, consume, initial)
  {
    if window == 0 {
      return initial, Err(ZeroWindow), NO_EVENTS;
    }
    if count == 0 {
      return initial, Ok(()), NO_EVENTS;
    }
    state, result, trace := RunScoped(count, window, parse, consume, initial);
  }

  /** The local variables of the scheduling function, the buffer apart. */
  datatype Caller<+S, +E> = Caller(state: S, nextToSchedule: nat, nextExpected: nat, awaitingReceive: nat,
                                   outstanding: set<nat>, schedulingStopped: bool, terminalError: Option<E>)

  /** The variables are what the run adds up to. */
  ghost predicate Mirrors<S, E>(p: Progress, c: Caller<S, E>, held: set<nat>)
  {
    && p == Progress(c.nextToSchedule, c.outstanding, held, c.nextExpected, c.schedulingStopped,
                     c.terminalError.Some?, true)
    && c.awaitingReceive == |c.outstanding|
  }

  /** The caller stands where the sequential loop stands before the next expected index, with what is left of
      that loop still ahead; or it holds the error of the first index to fail, as the loop would. */
  ghost predicate OnTrack<S, T, E>(initial: S, count: nat, parse: nat -> Result<T, E>,
                                   consume: (S, nat, T) -> (S, Option<E>), c: Caller<S, E>)
  {
    var goal := Sequential(count, 0, parse, consume, initial);
    match c.terminalError
    case Some(error) =>
      goal == (c.state, Err(error)) && FirstFailure(c.nextExpected, error, parse, consume, initial)
    case None =>
      && c.nextExpected <= count && goal == Sequential(count, c.nextExpected, parse, consume, c.state)
      && StateBefore(c.nextExpected, parse, consume, initial) == Some(c.state)
  }

  /** Submit the next index. */
  method Schedule<S, E>(c: Caller<S, E>, count: nat, window: nat,
                        ghost fails: nat -> bool, ghost trace: Trace, ghost p: Progress, ghost held: set<nat>)
    returns (d: Caller<S, E>, ghost longer: Trace, ghost q: Progress)
    requires Steady(count, window, fails, p) && RunTo(count, window, fails, trace, p) && Mirrors(p, c, held)
    requires !c.schedulingStopped && c.nextToSchedule < count && c.nextToSchedule < c.nextExpected + window
    ensures Steady(count, window, fails, q) && RunTo(count, window, fails, longer, q) && Mirrors(q, d, held)
    ensures longer.events == trace.events + [Scheduled(c.nextToSchedule)]
    ensures d == c.(nextToSchedule := c.nextToSchedule + 1, awaitingReceive := c.awaitingReceive + 1,
                    outstanding := d.outstanding)
  {
    ScheduleStep(count, window, fails, p);
    longer, q := Emit(count, window, fails, trace, p, Scheduled(c.nextToSchedule));
    d := c.(nextToSchedule := c.nextToSchedule + 1, awaitingReceive := c.awaitingReceive + 1,
            outstanding := c.outstanding + {c.nextToSchedule});
  }

  /** Consume one payload whose turn has come; after a success submit its one replacement. */
  method ConsumePayload<S, T, E>(c: Caller<S, E>, payload: T, count: nat, window: nat, ghost parse: nat -> Result<T, E>,
                                 consume: (S, nat, T) -> (S, Option<E>), ghost initial: S,
                                 ghost trace: Trace, ghost p: Progress, ghost held: set<nat>)
    returns (d: Caller<S, E>, ghost longer: Trace, ghost q: Progress)
    requires c.terminalError.None? && parse(c.nextExpected) == Ok(payload)
    requires c.nextExpected < c.nextToSchedule <= count && Full(count, window, p)
    requires Mirrors(p, c, held) && RunTo(count, window, ParseFails(parse), trace, p)
    requires Steady(count, window, ParseFails(parse), Advance(ParseFails(parse), p, Consumed(c.nextExpected)))
    requires OnTrack(initial, count, parse, consume, c)
    ensures Mirrors(q, d, held) && RunTo(count, window, ParseFails(parse), longer, q)
    ensures trace.events <= longer.events
    ensures OnTrack(initial, count, parse, consume, d)
    ensures d.terminalError.None? ==>
        && Steady(count, window, ParseFails(parse), q) && Full(count, window, q)
        && d.nextExpected == c.nextExpected + 1
        && d.awaitingReceive - d.nextToSchedule == c.awaitingReceive - c.nextToSchedule
  {
    ghost var fails := ParseFails(parse);
    var (after, failure) := consume(c.state, c.nextExpected, payload);
    if failure.Some? {
      longer, q := Emit(count, window, fails, trace, p, Rejected(c.nextExpected));
      d := c.(state := after, schedulingStopped := true, terminalError := failure);
    } else {
      longer, q := Emit(count, window, fails, trace, p, Consumed(c.nextExpected));
      d := c.(state := after, nextExpected := c.nextExpected + 1);
      if !d.schedulingStopped && d.nextToSchedule < count {
        d, longer, q := Schedule(d, count, window, fails, longer, q, held);
      }
    }
  }

  /** Take the next expected result out of the buffer, if it is there. */
  method TakeNext<S, T, E>(c: Caller<S, E>, buffer: ReorderBuffer<Result<T, E>>, count: nat, window: nat,
                           ghost parse: nat -> Result<T, E>, ghost trace: Trace, ghost p: Progress)
    returns (taken: Option<Result<T, E>>, ghost longer: Trace, ghost q: Progress)
    requires Delivered(parse, buffer.pending) && Mirrors(p, c, buffer.pending.Keys)
    requires Steady(count, window, ParseFails(parse), p) && RunTo(count, window, ParseFails(parse), trace, p)
    modifies buffer
    ensures Delivered(parse, buffer.pending) && RunTo(count, window, ParseFails(parse), longer, q)
    ensures trace.events <= longer.events
    ensures var error := taken.Some? && taken.value.Err?;
            q == p.(held := buffer.pending.Keys, stopped := p.stopped || error, failed := error)
    ensures taken.None? ==> q == p && c.nextExpected !in buffer.pending
    ensures taken.Some? ==> taken.value == parse(c.nextExpected) && c.nextExpected < c.nextToSchedule
    ensures taken.Some? && taken.value.Ok? ==>
        Steady(count, window, ParseFails(parse), Advance(ParseFails(parse), q, Consumed(c.nextExpected)))
  {
    ghost var fails := ParseFails(parse);
    longer, q := trace, p;
    taken := buffer.Take(c.nextExpected);
    if taken.Some? {
      TakeStep(count, window, fails, p);
      longer, q := Emit(count, window, fails, longer, q, Taken(c.nextExpected));
      longer, q := Emit(count, window, fails, longer, q, Held(|buffer.pending.Keys|));
    }
  }

  /** Consume everything that is ready, in index order, until the head is missing or has failed. */
  method ConsumeReady<S, T, E>(c: Caller<S, E>, buffer: ReorderBuffer<Result<T, E>>, count: nat, window: nat,
                               ghost parse: nat -> Result<T, E>, consume: (S, nat, T) -> (S, Option<E>),
                               ghost initial: S, ghost trace: Trace, ghost p: Progress)
    returns (d: Caller<S, E>, ghost longer: Trace, ghost q: Progress)
    requires Delivered(parse, buffer.pending) && Mirrors(p, c, buffer.pending.Keys) && c.terminalError.None?
    requires Steady(count, window, ParseFails(parse), p) && Full(count, window, p)
    requires RunTo(count, window, ParseFails(parse), trace, p) && OnTrack(initial, count, parse, consume, c)
    modifies buffer
    ensures Delivered(parse, buffer.pending) && Mirrors(q, d, buffer.pending.Keys)
    ensures RunTo(count, window, ParseFails(parse), longer, q) && OnTrack(initial, count, parse, consume, d)
    ensures trace.events <= longer.events
    ensures d.terminalError.None? ==>
        && Steady(count, window, ParseFails(parse), q) && Full(count, window, q)
        && d.nextExpected !in buffer.pending
        && d.awaitingReceive - d.nextToSchedule == c.awaitingReceive - c.nextToSchedule
  {
    ghost var fails := ParseFails(parse);
    d, longer, q := c, trace, p;
    while d.terminalError.None?
      invariant Delivered(parse, buffer.pending) && Mirrors(q, d, buffer.pending.Keys)
      invariant RunTo(count, window, fails, longer, q) && OnTrack(initial, count, parse, consume, d)
      invariant trace.events <= longer.events
      invariant d.terminalError.None? ==>
          && Steady(count, window, fails, q) && Full(count, window, q)
          && d.awaitingReceive - d.nextToSchedule == c.awaitingReceive - c.nextToSchedule
      decreases d.terminalError.None?, count - d.nextExpected
    {
      var taken;
      taken, longer, q := TakeNext(d, buffer, count, window, parse, longer, q);
      if taken.None? {
        break;
      }
      match taken.value {
        case Ok(payload) =>
          d, longer, q := ConsumePayload(d, payload, count, window, parse, consume, initial, longer, q,
                                         buffer.pending.Keys);
        case Err(error) =>
          d := d.(schedulingStopped := true, terminalError := Some(error));
      }
    }
  }

  /** Wait for one result, in whatever order the workers produce them, and buffer it. */
  method Receive<S, T, E>(c: Caller<S, E>, buffer: ReorderBuffer<Result<T, E>>, count: nat, window: nat,
                          parse: nat -> Result<T, E>, ghost trace: Trace, ghost p: Progress)
    returns (d: Caller<S, E>, ghost longer: Trace, ghost q: Progress)
    requires Delivered(parse, buffer.pending) && Mirrors(p, c, buffer.pending.Keys)
    requires Steady(count, window, ParseFails(parse), p) && Full(count, window, p)
    requires RunTo(count, window, ParseFails(parse), trace, p)
    requires c.awaitingReceive > 0 && c.nextExpected !in buffer.pending
    modifies buffer
    ensures Delivered(parse, buffer.pending) && Mirrors(q, d, buffer.pending.Keys)
    ensures Steady(count, window, ParseFails(parse), q) && Full(count, window, q)
    ensures RunTo(count, window, ParseFails(parse), longer, q) && trace.events <= longer.events
    ensures d == c.(awaitingReceive := c.awaitingReceive - 1, outstanding := d.outstanding,
                    schedulingStopped := d.schedulingStopped)
  {
    hide Steady, Full, Allowed, RunTo, Mirrors, Delivered, Advance;
    ghost var fails, held := ParseFails(parse), buffer.pending.Keys;
    MirroredFields(p, c, held);
    var index := NextArrival(c.outstanding);
    var arrived := parse(index);
    ReceiveStep(count, window, fails, p, index);
    longer, q := Emit(count, window, fails, trace, p, Received(index));
    d := c.(awaitingReceive := c.awaitingReceive - 1, outstanding := c.outstanding - {index},
            schedulingStopped := c.schedulingStopped || arrived.Err?);
    DeliveredOneMore(parse, buffer.pending, index);
    buffer.Insert(index, arrived);
    ReceivedMirrors(fails, p, c, held, index, |buffer.pending.Keys|);
    HeldKeeps(count, window, fails, q, |buffer.pending.Keys|);
    longer, q := Emit(count, window, fails, longer, q, Held(|buffer.pending.Keys|));
  }

  lemma MirroredFields<S, E>(p: Progress, c: Caller<S, E>, held: set<nat>)
    requires Mirrors(p, c, held)
    ensures p == Progress(c.nextToSchedule, c.outstanding, held, c.nextExpected, c.schedulingStopped,
                          c.terminalError.Some?, true)
    ensures c.awaitingReceive == |c.outstanding|
  {
  }

  lemma ReceivedMirrors<S, E>(parseFails: nat -> bool, p: Progress, c: Caller<S, E>, held: set<nat>, index: nat,
                              size: nat)
    requires Mirrors(p, c, held) && index in c.outstanding
    ensures c.awaitingReceive > 0 && Advance(parseFails, p, Received(index)).held == held + {index}
    ensures Mirrors(Advance(parseFails, Advance(parseFails, p, Received(index)), Held(size)),
                    c.(awaitingReceive := c.awaitingReceive - 1, outstanding := c.outstanding - {index},
                       schedulingStopped := c.schedulingStopped || parseFails(index)), held + {index})
  {
  }

  lemma DeliveredOneMore<T, E>(parse: nat -> Result<T, E>, pending: map<nat, Result<T, E>>, index: nat)
    requires Delivered(parse, pending)
    ensures Delivered(parse, pending[index := parse(index)])
  {
  }

  lemma HeldKeeps(count: nat, window: nat, parseFails: nat -> bool, p: Progress, size: nat)
    requires Steady(count, window, parseFails, p) && Full(count, window, p)
    ensures Steady(count, window, parseFails, Advance(parseFails, p, Held(size)))
    ensures Full(count, window, Advance(parseFails, p, Held(size)))
  {
  }

  /** Receive and drop one result per task still running. */
  method DrainRest<S, E>(c: Caller<S, E>, count: nat, window: nat,
                         ghost fails: nat -> bool, ghost trace: Trace, ghost p: Progress, ghost held: set<nat>)
    returns (ghost longer: Trace, ghost q: Progress)
    requires p.failed && Mirrors(p, c, held) && RunTo(count, window, fails, trace, p)
    ensures RunTo(count, window, fails, longer, q) && q == p.(outstanding := {})
    ensures trace.events <= longer.events
  {
    longer, q := trace, p;
    var outstanding, awaitingReceive := c.outstanding, c.awaitingReceive;
    while awaitingReceive > 0
      invariant awaitingReceive == |outstanding| && RunTo(count, window, fails, longer, q)
      invariant trace.events <= longer.events
      invariant q == p.(outstanding := outstanding)
    {
      var dropped := NextArrival(outstanding);
      longer, q := Emit(count, window, fails, longer, q, Drained(dropped));
      outstanding := outstanding - {dropped};
      awaitingReceive := awaitingReceive - 1;
    }
  }

  method RunScoped<S, T, E>(count: nat, window: nat, parse: nat -> Result<T, E>,
                            consume: (S, nat, T) -> (S, Option<E>), initial: S)
    returns (state: S, result: Result<(), RunError<E>>, ghost trace: Trace)
    requires count > 0 && window > 0
    ensures state == Sequential(count, 0, parse, consume, initial).0
    ensures result == Lift(Sequential(count, 0, parse, consume, initial).1)
    ensures IsRun(count, window, ParseFails(parse), trace)
    ensures trace.Last().outstanding == {} && trace.Last().reported
    ensures result.Ok? ==> trace.Last().consumed == count
    ensures result.Err? ==> EndsAtFirstFailure(result, trace, parse, consume, initial)
  {
    ghost var fails := ParseFails(parse);
    ghost var p := START;
    trace := NO_EVENTS;
    var buffer := new ReorderBuffer<Result<T, E>>();
    var c := Caller(initial, 0, 0, 0, {}, false, None);

    while c.nextToSchedule < count && c.awaitingReceive < window
      invariant buffer.pending == map[]
      invariant c == Caller(initial, c.nextToSchedule, 0, c.nextToSchedule, c.outstanding, false, None)
      invariant Steady(count, window, fails, p) && RunTo(count, window, fails, trace, p) && Mirrors(p, c, {})
    {
      c, trace, p := Schedule(c, count, window, fails, trace, p, {});
    }

    while c.awaitingReceive > 0
      invariant Steady(count, window, fails, p) && Full(count, window, p) && RunTo(count, window, fails, trace, p)
      invariant Delivered(parse, buffer.pending) && Mirrors(p, c, buffer.pending.Keys)
      invariant c.terminalError.None? && c.nextExpected !in buffer.pending
      invariant OnTrack(initial, count, parse, consume, c)
      decreases count - c.nextToSchedule + c.awaitingReceive
    {
      c, trace, p := Receive(c, buffer, count, window, parse, trace, p);
      c, trace, p := ConsumeReady(c, buffer, count, window, parse, consume, initial, trace, p);
      if c.terminalError.Some? {
        trace, p := DrainRest(c, count, window, fails, trace, p, buffer.pending.Keys);
        return c.state, Err(Task(c.terminalError.value)), trace;
      }
    }
    state := c.state;
    result := if c.nextExpected != count then Err(StoppedShort(c.nextExpected, count)) else Ok(());
  }
}
