/**
 The indexer's progress tracker: per-file stage timing with slow-file reports,
 and counters updated by the callbacks of the ordered window and by workers.
 Clock readings are parameters, in nanoseconds, and never go back.
 */
module Diagnostics {
  import opened Results
  import opened OrderedWindow

  const MILLI: nat := 1_000_000
  const SLOW_FILE_AFTER: nat := 5_000 * MILLI
  const SLOW_FILE_REPEAT: nat := 30_000 * MILLI

  // ----- Sums over stage durations

  ghost function Sum(m: map<string, nat>): nat
    decreases |m|
  {
    if m == map[] then 0
    else
      var k :| k in m;
      m[k] + Sum(m - {k})
  }

  lemma {:induction false} SumWithout(m: map<string, nat>, k: string)
    requires k in m
    ensures Sum(m) == m[k] + Sum(m - {k})
    decreases |m|
  {
    var j :| j in m && Sum(m) == m[j] + Sum(m - {j});
    if j != k {
      SumWithout(m - {j}, k);
      SumWithout(m - {k}, j);
      assert m - {j} - {k} == m - {k} - {j};
    }
  }

  /** `*stage_ms.entry(stage).or_default() += ms` */
  function Credit(stageMs: map<string, nat>, stage: string, ms: nat): map<string, nat>
  {
    stageMs[stage := (if stage in stageMs then stageMs[stage] else 0) + ms]
  }

  /** The stage named gets that much more, every other one keeps what it has, and so the sum grows by as much. */
  lemma CreditAdds(stageMs: map<string, nat>, stage: string, ms: nat)
    ensures Credit(stageMs, stage, ms).Keys == stageMs.Keys + {stage}
    ensures Credit(stageMs, stage, ms)[stage] == ms + if stage in stageMs then stageMs[stage] else 0
    ensures forall other :: other in stageMs && other != stage ==> Credit(stageMs, stage, ms)[other] == stageMs[other]
    ensures Sum(Credit(stageMs, stage, ms)) == Sum(stageMs) + ms
  {
    var credited := Credit(stageMs, stage, ms);
    SumWithout(credited, stage);
    assert credited - {stage} == stageMs - {stage};
    if stage in stageMs {
      SumWithout(stageMs, stage);
    } else {
      assert stageMs - {stage} == stageMs;
    }
  }

  // ----- One file

  /** A slow report: the monitor pass it belongs to and the reading of the stage's elapsed time. */
  datatype Report = Report(pass: nat, at: nat)

  /** Reports of one stage: none before five seconds into it, and thirty seconds from pass to pass. */
  ghost predicate WellSpaced(reports: seq<Report>, entered: nat)
  {
    && (forall k :: 0 <= k < |reports| ==> entered + SLOW_FILE_AFTER <= reports[k].at)
    && (forall j, k :: 0 <= j < k < |reports| ==> reports[j].pass + SLOW_FILE_REPEAT <= reports[k].pass)
  }

  class FileTrace {
    var stage: string
    const started: nat
    var stageStarted: nat
    var stageMs: map<string, nat>
    var lastSlowReport: Option<nat>
    ghost var clock: nat            // the latest reading
    ghost var entered: nat          // when the stage was entered
    ghost var reports: seq<Report>  // the slow reports since the stage was entered

    /** The stages credited so far fit into the time up to the start of the current one, and the
        reports of the current stage are well spaced. */
    ghost predicate Valid()
      reads this
    {
      && started <= entered <= stageStarted <= clock
      && MILLI * Sum(stageMs) <= stageStarted - started
      && WellSpaced(reports, entered)
      && (forall k :: 0 <= k < |reports| ==> reports[k].pass <= clock)
      && lastSlowReport == if reports == [] then None else Some(reports[|reports| - 1].pass)
    }

    constructor (now: nat)
      ensures Valid() && started == now && clock == now && stage == "scheduled"
      ensures stageMs == map[] && reports == []
    {
      stage, started, stageStarted, stageMs, lastSlowReport := "scheduled", now, now, map[], None;
      clock, entered, reports := now, now, [];
    }

    /** Credit the stage that ends, reading the clock twice: for its elapsed time and for the new start. */
    method Enter(next: string, elapsedAt: nat, now: nat)
      requires Valid() && clock <= elapsedAt <= now
      modifies this
      ensures Valid() && clock == now && stage == next && stageStarted == now
      ensures stageMs == Credit(old(stageMs), old(stage), (elapsedAt - old(stageStarted)) / MILLI)
      ensures reports == [] && lastSlowReport == None
    {
      var elapsed := (elapsedAt - stageStarted) / MILLI;
      CreditAdds(stageMs, stage, elapsed);
      FloorFits(elapsedAt - stageStarted);
      stageMs := Credit(stageMs, stage, elapsed);
      stage := next;
      stageStarted := now;
      lastSlowReport := None;
      clock, entered, reports := now, now, [];
    }

    /** Credit the current stage without leaving it; its reports are not forgotten. */
    method FinishStage(elapsedAt: nat, now: nat)
      requires Valid() && clock <= elapsedAt <= now
      modifies this
      ensures Valid() && clock == now && stage == old(stage) && stageStarted == now && reports == old(reports)
      ensures stageMs == Credit(old(stageMs), old(stage), (elapsedAt - old(stageStarted)) / MILLI)
    {
      var elapsed := (elapsedAt - stageStarted) / MILLI;
      CreditAdds(stageMs, stage, elapsed);
      FloorFits(elapsedAt - stageStarted);
      stageMs := Credit(stageMs, stage, elapsed);
      stageStarted := now;
      clock := now;
    }

    /** Five seconds into the stage, and thirty seconds after the last report of it if there was one. */
    ghost predicate IsSlow(pass: nat, at: nat)
      reads this
    {
      && at - stageStarted >= SLOW_FILE_AFTER
      && (reports == [] || pass - reports[|reports| - 1].pass >= SLOW_FILE_REPEAT)
    }

    /** One monitor pass that began at `pass` looks at this file at `at`. */
    method Probe(pass: nat, at: nat) returns (report: bool)
      requires Valid() && clock <= pass <= at
      modifies this`lastSlowReport, this`clock, this`reports
      ensures Valid() && clock == at && entered == old(entered) && WellSpaced(reports, entered)
      ensures report == old(IsSlow(pass, at))
      ensures reports == if report then old(reports) + [Report(pass, at)] else old(reports)
    {
      var elapsed := at - stageStarted;
      report := elapsed >= SLOW_FILE_AFTER
                && (lastSlowReport.None? || pass - lastSlowReport.value >= SLOW_FILE_REPEAT);
      if report {
        ReportSpaced(reports, entered, Report(pass, at));
        lastSlowReport := Some(pass);
        reports := reports + [Report(pass, at)];
      }
      clock := at;
    }

    /** Enter the last stage and finish it at once; the readings are those of the two calls and of
        the duration, in that order. */
    method Close(enterElapsedAt: nat, enteredAt: nat, finishElapsedAt: nat, finishedAt: nat, now: nat)
      returns (durationMs: nat)
      requires Valid() && clock <= enterElapsedAt <= enteredAt <= finishElapsedAt <= finishedAt <= now
      modifies this
      ensures durationMs == (now - started) / MILLI && Sum(stageMs) <= durationMs
      ensures stageMs == Credit(Credit(old(stageMs), old(stage), (enterElapsedAt - old(stageStarted)) / MILLI),
                                "persisted", (finishElapsedAt - enteredAt) / MILLI)
    {
      hide Credit;
      Enter("persisted", enterElapsedAt, enteredAt);
      FinishStage(finishElapsedAt, finishedAt);
      StagesFitElapsed(now);
      durationMs := (now - started) / MILLI;
    }

    /** The stage durations sum to at most the milliseconds elapsed since the file was scheduled. */
    lemma StagesFitElapsed(now: nat)
      requires Valid() && clock <= now
      ensures Sum(stageMs) <= (now - started) / MILLI
    {
      assert MILLI * Sum(stageMs) <= now - started;
    }
  }

  lemma FloorFits(elapsed: nat)
    ensures MILLI * (elapsed / MILLI) <= elapsed
  {
  }

  lemma ReportSpaced(reports: seq<Report>, entered: nat, report: Report)
    requires WellSpaced(reports, entered) && entered + SLOW_FILE_AFTER <= report.at
    requires reports != [] ==> reports[|reports| - 1].pass + SLOW_FILE_REPEAT <= report.pass
    ensures WellSpaced(reports + [report], entered)
  {
    var longer := reports + [report];
    forall j, k | 0 <= j < k < |longer|
      ensures longer[j].pass + SLOW_FILE_REPEAT <= longer[k].pass
    {
      if k == |reports| && j < |reports| - 1 {
        assert reports[j].pass + SLOW_FILE_REPEAT <= reports[|reports| - 1].pass;
      }
    }
  }

  // ----- The tracker: one set of counters, updated by every callback

  datatype Counters = Counters(scheduled: nat, parsed: nat, persisted: nat, buffered: nat, nextExpected: nat,
                               files: set<nat>, bar: nat)

  const NOTHING_YET := Counters(0, 0, 0, 0, 0, {}, 0)

  datatype Callback =
    | OnScheduled(index: nat)
    | OnStage(index: nat, stage: string)
    | OnParsed(index: nat)
    | OnBuffered(size: nat)
    | OnPersisted(index: nat)

  /** What a callback does to the counters; with tracking off only the bar moves. */
  function Apply(tracking: bool, c: Counters, call: Callback): Counters
  {
    if !tracking then
      if call.OnPersisted? then c.(bar := c.bar + 1) else c
    else
      match call
      case OnScheduled(i) => c.(scheduled := c.scheduled + 1, files := c.files + {i})
      case OnStage(_, _) => c
      case OnParsed(_) => c.(parsed := c.parsed + 1)
      case OnBuffered(size) => c.(buffered := size)
      case OnPersisted(i) =>
        c.(persisted := c.persisted + 1, nextExpected := i + 1, files := c.files - {i}, bar := c.bar + 1)
  }

  /** The `file_complete` event. */
  datatype FileComplete = FileComplete(index: nat, durationMs: nat, stageMs: map<string, nat>)

  class IndexTracker {
    const sink: bool
    const tracking: bool
    var scheduled: nat
    var parsed: nat
    var persisted: nat
    var buffered: nat
    var nextExpected: nat
    var files: map<nat, FileTrace>
    var bar: nat

    /** Every file's trace is its own and valid, and was last read no later than `now`. */
    ghost predicate Valid(now: nat)
      reads this, files.Values
    {
      && (forall i :: i in files ==> files[i].Valid() && files[i].clock <= now)
      && (forall i, j :: i in files && j in files && i != j ==> files[i] != files[j])
    }

    ghost function Snapshot(): Counters
      reads this
    {
      Counters(scheduled, parsed, persisted, buffered, nextExpected, files.Keys, bar)
    }

    constructor (sink: bool, barHidden: bool)
      ensures Valid(0) && Snapshot() == NOTHING_YET
      ensures this.sink == sink && (tracking <==> sink || !barHidden)
    {
      this.sink, tracking := sink, sink || !barHidden;
      scheduled, parsed, persisted, buffered, nextExpected, files, bar := 0, 0, 0, 0, 0, map[], 0;
    }

    method Scheduled(index: nat, now: nat)
      requires Valid(now)
      modifies this
      ensures Valid(now) && Snapshot() == Apply(tracking, old(Snapshot()), OnScheduled(index))
      ensures forall i :: i in old(files) && i != index ==> i in files && files[i] == old(files[i])
      ensures tracking ==> fresh(files[index]) && files[index].started == now && files[index].stage == "scheduled"
    {
      if !tracking {
        return;
      }
      var file := new FileTrace(now);
      scheduled := scheduled + 1;
      files := files[index := file];
    }

    method Stage(index: nat, stage: string, elapsedAt: nat, now: nat)
      requires Valid(elapsedAt) && elapsedAt <= now
      modifies files.Values
      ensures Valid(now) && Snapshot() == Apply(tracking, old(Snapshot()), OnStage(index, stage))
      ensures tracking && index in files ==> files[index].stage == stage && files[index].reports == []
      ensures forall i :: i in files && i != index ==> unchanged(files[i])
    {
      if tracking && index in files {
        files[index].Enter(stage, elapsedAt, now);
      }
    }

    method Parsed(index: nat, elapsedAt: nat, now: nat)
      requires Valid(elapsedAt) && elapsedAt <= now
      modifies this`parsed, files.Values
      ensures Valid(now) && Snapshot() == Apply(tracking, old(Snapshot()), OnParsed(index))
      ensures tracking && index in files ==> files[index].stage == "buffered" && files[index].reports == []
      ensures forall i :: i in files && i != index ==> unchanged(files[i])
    {
      if !tracking {
        return;
      }
      parsed := parsed + 1;
      if index in files {
        files[index].Enter("buffered", elapsedAt, now);
      }
    }

    method Buffered(size: nat)
      modifies this`buffered
      ensures Snapshot() == Apply(tracking, old(Snapshot()), OnBuffered(size))
    {
      if tracking {
        buffered := size;
      }
    }

    /** Forget the file and, with a sink, report it. */
    method Persisted(index: nat, enterElapsedAt: nat, enteredAt: nat, finishElapsedAt: nat, finishedAt: nat, now: nat)
      returns (complete: Option<FileComplete>)
      requires Valid(enterElapsedAt) && enterElapsedAt <= enteredAt <= finishElapsedAt <= finishedAt <= now
      modifies this, files.Values
      ensures Valid(enterElapsedAt) && Snapshot() == Apply(tracking, old(Snapshot()), OnPersisted(index))
      ensures forall i :: i in files ==> files[i] == old(files[i]) && unchanged(files[i])
      ensures complete.Some? <==> sink && tracking && index in old(files)
      ensures complete.Some? ==>
          && complete.value.index == index
          && Sum(complete.value.stageMs) <= complete.value.durationMs
          && complete.value.durationMs == (now - old(files[index].started)) / MILLI
          && complete.value.stageMs ==
               Credit(Credit(old(files[index].stageMs), old(files[index].stage),
                             (enterElapsedAt - old(files[index].stageStarted)) / MILLI),
                      "persisted", (finishElapsedAt - enteredAt) / MILLI)
    {
      hide Credit, Sum, FileTrace.Valid;
      complete := None;
      if !tracking {
        bar := bar + 1;
        return;
      }
      persisted := persisted + 1;
      nextExpected := index + 1;
      var removed := if index in files then Some(files[index]) else None;
      files := files - {index};
      bar := bar + 1;
      if sink && removed.Some? {
        var trace := removed.value;
        var durationMs := trace.Close(enterElapsedAt, enteredAt, finishElapsedAt, finishedAt, now);
        complete := Some(FileComplete(index, durationMs, trace.stageMs));
      }
    }

    /** The slow-file part of one monitor pass begun at `pass`; `at` is when each file is looked at. */
    method ReportSlow(pass: nat, at: nat -> nat, now: nat) returns (slow: set<nat>)
      requires Valid(pass) && forall i :: i in files ==> pass <= at(i) <= now
      modifies files.Values
      ensures Valid(now) && Snapshot() == old(Snapshot())
      ensures forall i :: i in files ==> (i in slow <==> old(files[i].IsSlow(pass, at(i))))
      ensures forall i :: i in slow ==> i in files && files[i].reports == old(files[i].reports) + [Report(pass, at(i))]
      ensures forall i :: i in files && i !in slow ==> files[i].reports == old(files[i].reports)
    {
      hide FileTrace.Valid, FileTrace.IsSlow, WellSpaced;
      slow := {};
      var left := files.Keys;
      while left != {}
        invariant left <= files.Keys && Valid(now)
        invariant forall i :: i in left ==> unchanged(files[i])
        invariant slow <= files.Keys - left
        invariant forall i :: i in files && i !in left ==> (i in slow <==> old(files[i].IsSlow(pass, at(i))))
        invariant forall i :: i in slow ==> files[i].reports == old(files[i].reports) + [Report(pass, at(i))]
        invariant forall i :: i in files && i !in left && i !in slow ==> files[i].reports == old(files[i].reports)
      {
        var i :| i in left;
        var report := files[i].Probe(pass, at(i));
        if report {
          slow := slow + {i};
        }
        left := left - {i};
      }
    }
  }

  // ----- The counters under the ordered window

  /** A call on the tracker: one that goes with an event of the window's caller, or a worker's `parsed`. */
  datatype Call = FromCaller(event: Event) | FromWorker(index: nat)

  /** How many of the first `k` calls go with events of the caller. */
  function Position(calls: seq<Call>, k: nat): (n: nat)
    requires k <= |calls|
    ensures n <= k
  {
    if k == 0 then 0 else Position(calls, k - 1) + if calls[k - 1].FromCaller? then 1 else 0
  }

  /** The indices workers have parsed within the first `k` calls. */
  function ParsedBy(calls: seq<Call>, k: nat): set<nat>
    requires k <= |calls|
  {
    if k == 0 then {}
    else ParsedBy(calls, k - 1) + if calls[k - 1].FromWorker? then {calls[k - 1].index} else {}
  }

  /** An interleaving of the caller's events, in order, with workers reporting `parsed` at most
      once each, while their task is outstanding. */
  ghost predicate Interleaves(trace: Trace, calls: seq<Call>)
  {
    forall k :: 0 <= k < |calls| ==> Next(trace, calls, k)
  }

  ghost predicate Next(trace: Trace, calls: seq<Call>, k: nat)
    requires k < |calls|
  {
    var n := Position(calls, k);
    match calls[k]
    case FromCaller(event) => n < |trace.events| && event == trace.events[n]
    case FromWorker(i) => n < |trace.states| && i in trace.states[n].outstanding && i !in ParsedBy(calls, k)
  }

  /** The callbacks passed to the window, and the workers' one. */
  function Effect(tracking: bool, c: Counters, call: Call): Counters
  {
    match call
    case FromWorker(i) => Apply(tracking, c, OnParsed(i))
    case FromCaller(Scheduled(i)) => Apply(tracking, c, OnScheduled(i))
    case FromCaller(Held(size)) => Apply(tracking, c, OnBuffered(size))
    case FromCaller(Consumed(i)) => Apply(tracking, c, OnPersisted(i))
    case FromCaller(_) => c
  }

  function After(tracking: bool, calls: seq<Call>, k: nat): Counters
    requires k <= |calls|
  {
    if k == 0 then NOTHING_YET else Effect(tracking, After(tracking, calls, k - 1), calls[k - 1])
  }

  /** The counters describe the window's progress. */
  ghost predicate Follows(c: Counters, p: Progress, parsed: set<nat>, window: nat)
  {
    && c.scheduled == p.scheduled && c.persisted == c.nextExpected == c.bar == p.consumed
    && (forall i :: i in c.files <==> p.consumed <= i < p.scheduled)
    && c.parsed == |parsed| && (forall i :: i in parsed ==> i < p.scheduled)
    && c.buffered <= window && (p.reported ==> c.buffered == |p.held|)
  }

  lemma CallerStepFollows(count: nat, window: nat, parseFails: nat -> bool, c: Counters, p: Progress,
                          parsed: set<nat>, event: Event)
    requires Follows(c, p, parsed, window) && Allowed(count, window, parseFails, p, event)
    requires p.consumed <= p.scheduled
    ensures Follows(Effect(true, c, FromCaller(event)), Advance(parseFails, p, event), parsed, window)
  {
  }

  lemma WorkerStepFollows(c: Counters, p: Progress, parsed: set<nat>, window: nat, i: nat)
    requires Follows(c, p, parsed, window) && i < p.scheduled && i !in parsed
    ensures Follows(Effect(true, c, FromWorker(i)), p, parsed + {i}, window)
  {
  }

  lemma {:induction false} CountersFollow(count: nat, window: nat, parseFails: nat -> bool, trace: Trace,
                                          calls: seq<Call>, k: nat)
    requires IsRun(count, window, parseFails, trace) && Interleaves(trace, calls) && k <= |calls|
    ensures Position(calls, k) < |trace.states|
    ensures Follows(After(true, calls, k), trace.states[Position(calls, k)], ParsedBy(calls, k), window)
  {
    hide Follows, Effect, Advance, Allowed;
    if k == 0 {
      NothingFollows(window);
    } else {
      CountersFollow(count, window, parseFails, trace, calls, k - 1);
      assert Next(trace, calls, k - 1);
      var c, n, parsed := After(true, calls, k - 1), Position(calls, k - 1), ParsedBy(calls, k - 1);
      RunStaysInWindow(count, window, parseFails, trace, n);
      match calls[k - 1] {
        case FromCaller(event) =>
          CallerStepFollows(count, window, parseFails, c, trace.states[n], parsed, event);
          assert ParsedBy(calls, k) == parsed;
        case FromWorker(i) =>
          WorkerStepFollows(c, trace.states[n], parsed, window, i);
      }
    }
  }

  lemma NothingFollows(window: nat)
    ensures Follows(NOTHING_YET, START, {}, window)
  {
  }

  lemma {:induction false} BelowBound(s: set<nat>, n: nat)
    requires forall i :: i in s ==> i < n
    ensures |s| <= n
  {
    if n == 0 {
      assert s == {};
    } else {
      BelowBound(s - {n - 1}, n - 1);
      assert |s| <= |s - {n - 1}| + 1;
    }
  }

  /** At every callback boundary of every interleaving of every run: the files in the table are
      exactly those scheduled and not persisted, there are no more of them than the window, the next
      expected index is the number persisted, no more was parsed than scheduled, and the size shown for the buffer
      is its size, but for the moment between a change and its report. */
  lemma TrackerMatchesWindow(count: nat, window: nat, parseFails: nat -> bool, trace: Trace,
                             calls: seq<Call>, k: nat)
    requires IsRun(count, window, parseFails, trace) && Interleaves(trace, calls) && k <= |calls|
    ensures var c := After(true, calls, k);
            && |c.files| == c.scheduled - c.persisted <= window
            && (c.files != {} <==> c.nextExpected in c.files)
            && c.nextExpected == c.persisted == c.bar
            && c.parsed <= c.scheduled <= count
            && c.buffered <= window
            && Position(calls, k) < |trace.states|
            && var p := trace.states[Position(calls, k)];
               p.reported ==> c.buffered == |p.held|
  {
    CountersFollow(count, window, parseFails, trace, calls, k);
    var c, n := After(true, calls, k), Position(calls, k);
    var p := trace.states[n];
    RunStaysInWindow(count, window, parseFails, trace, n);
    SplitSize(c.files, {}, p.consumed, p.scheduled);
    BelowBound(ParsedBy(calls, k), p.scheduled);
    if c.files != {} {
      var i :| i in c.files;
      assert p.consumed <= i < p.scheduled;
    }
  }

  /** With tracking off nothing but the bar moves, and it still counts what was persisted. */
  lemma {:induction false} BarAlwaysCounts(count: nat, window: nat, parseFails: nat -> bool, trace: Trace,
                                           calls: seq<Call>, k: nat)
    requires IsRun(count, window, parseFails, trace) && Interleaves(trace, calls) && k <= |calls|
    ensures After(false, calls, k) == NOTHING_YET.(bar := After(true, calls, k).bar)
  {
    if k > 0 {
      BarAlwaysCounts(count, window, parseFails, trace, calls, k - 1);
    }
  }
}
