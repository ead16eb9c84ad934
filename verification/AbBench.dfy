/**
 The A/B benchmark: two binaries timed alternately on one corpus, one canonical
 graph per binary, and the statistics and budget drawn from the samples.
 Spawning and timing a run is a parameter.
 */
module AbBench {
  import opened Results
  import Metrics

  datatype Arm = Baseline | Candidate

  datatype PerArm<T> = PerArm(baseline: T, candidate: T)
  {
    function Get(arm: Arm): T
    {
      match arm case Baseline => baseline case Candidate => candidate
    }

    function Put(arm: Arm, value: T): PerArm<T>
    {
      match arm case Baseline => this.(baseline := value) case Candidate => this.(candidate := value)
    }
  }

  /** The hash of a canonical graph, its surface hashes in order, and its row count. */
  datatype Fingerprint = Fingerprint(hash: string, surfaces: seq<string>, rows: nat)

  datatype Outcome = Outcome(wallMs: real, peakRssKb: Option<nat>, graph: Fingerprint)

  datatype RunSample = RunSample(run: nat, warmup: bool, wallMs: real, peakRssKb: Option<nat>, canonicalHash: string)

  datatype AbError =
    | RunFailed(cell: nat, arm: Arm, run: nat)
    | NonDeterministicGraph(cell: nat, arm: Arm, run: nat)
    | NoMeasuredRuns

  /** What timing a binary's run in a cell gives; a cell is one thread count, by its position. */
  type Measure = (nat, Arm, nat) -> Result<Outcome, AbError>

  // ----- The order of runs

  /** Who goes first alternates, beginning with the baseline. */
  function Order(run: nat): seq<Arm>
  {
    if run % 2 == 0 then [Baseline, Candidate] else [Candidate, Baseline]
  }

  /** The binaries in the order a cell of `runs` runs times them. */
  function CellOrder(runs: nat): seq<Arm>
  {
    if runs == 0 then [] else CellOrder(runs - 1) + Order(runs - 1)
  }

  /** How often `arm` was timed. */
  function Times(arm: Arm, timed: seq<Arm>): nat
  {
    if timed == [] then 0 else Times(arm, timed[..|timed| - 1]) + if timed[|timed| - 1] == arm then 1 else 0
  }

  lemma TimesOneMore(timed: seq<Arm>, arm: Arm)
    ensures forall a :: Times(a, timed + [arm]) == Times(a, timed) + if a == arm then 1 else 0
  {
    assert (timed + [arm])[..|timed|] == timed;
  }

  lemma {:induction false} CellOrderTimes(runs: nat)
    ensures |CellOrder(runs)| == 2 * runs
    ensures Times(Baseline, CellOrder(runs)) == runs == Times(Candidate, CellOrder(runs))
  {
    hide *;
    if runs == 0 {
      NothingTimed();
    } else {
      CellOrderTimes(runs - 1);
      BothOnce(runs);
      var before, order := CellOrder(runs - 1), Order(runs - 1);
      TimesOneMore(before, order[0]);
      TimesOneMore(before + [order[0]], order[1]);
    }
  }

  lemma NothingTimed()
    ensures CellOrder(0) == [] && forall arm :: Times(arm, []) == 0
  {
  }

  lemma BothOnce(runs: nat)
    requires runs > 0
    ensures var order := Order(runs - 1);
            && |order| == 2 && (order == [Baseline, Candidate] || order == [Candidate, Baseline])
            && CellOrder(runs) == CellOrder(runs - 1) + [order[0]] + [order[1]]
  {
  }

  lemma OneMoreRun(runs: nat)
    requires runs > 0
    ensures var before, order := CellOrder(runs - 1), Order(runs - 1);
            && CellOrder(runs) == before + [order[0]] + [order[1]]
            && |CellOrder(runs)| == 2 * runs && |before| == 2 * (runs - 1)
            && Times(Baseline, before) == Times(Candidate, before)
            && Times(Baseline, CellOrder(runs)) == Times(Candidate, CellOrder(runs))
  {
    CellOrderTimes(runs);
    CellOrderTimes(runs - 1);
  }

  /** At every point in a cell the two binaries' run counts differ by at most one. */
  lemma {:induction false} RunsStayBalanced(runs: nat, k: nat)
    requires k <= |CellOrder(runs)|
    ensures -1 <= Times(Baseline, CellOrder(runs)[..k]) - Times(Candidate, CellOrder(runs)[..k]) <= 1
    decreases runs
  {
    CellOrderTimes(runs);
    hide CellOrder, Times;
    if runs > 0 {
      OneMoreRun(runs);
      var before, first := CellOrder(runs - 1), Order(runs - 1)[0];
      if k <= |before| {
        RunsStayBalanced(runs - 1, k);
        assert CellOrder(runs)[..k] == before[..k];
      } else if k == |before| + 1 {
        TimesOneMore(before, first);
        assert CellOrder(runs)[..k] == before + [first];
      } else {
        assert CellOrder(runs)[..k] == CellOrder(runs);
      }
    } else {
      assert CellOrder(runs)[..k] == CellOrder(runs);
    }
  }

  function FirstOf(arm: Arm, runs: nat): nat
  {
    if runs == 0 then 0 else FirstOf(arm, runs - 1) + if Order(runs - 1)[0] == arm then 1 else 0
  }

  /** Over any number of runs each binary goes first in half of them, the baseline in the odd one out. */
  lemma {:induction false} EachGoesFirstHalfTheTime(runs: nat)
    ensures FirstOf(Candidate, runs) == runs / 2 && FirstOf(Baseline, runs) == runs - runs / 2
    ensures runs % 2 == 0 ==> FirstOf(Baseline, runs) == FirstOf(Candidate, runs)
  {
    if runs > 0 {
      EachGoesFirstHalfTheTime(runs - 1);
    }
  }

  // ----- One canonical graph per binary

  /** The first graph of a binary is kept; a later one must have its hash. */
  function CheckSameGraph(first: Option<Fingerprint>, graph: Fingerprint, cell: nat, arm: Arm, run: nat)
    : Result<Option<Fingerprint>, AbError>
  {
    match first
    case None => Ok(Some(graph))
    case Some(expected) => if expected.hash == graph.hash then Ok(first) else Err(NonDeterministicGraph(cell, arm, run))
  }

  // ----- What can go wrong, and where it does first

  /** The graph of the binary's very first run. */
  function FirstGraph(measure: Measure, arm: Arm): Option<Fingerprint>
  {
    match measure(0, arm, 0) case Ok(outcome) => Some(outcome.graph) case Err(_) => None
  }

  /** A run goes wrong if it fails, or if its hash is not that of the binary's first run. */
  function Trouble(measure: Measure, cell: nat, arm: Arm, run: nat): Option<AbError>
  {
    match measure(cell, arm, run)
    case Err(error) => Some(error)
    case Ok(outcome) =>
      var first := FirstGraph(measure, arm);
      if first.Some? && first.value.hash != outcome.graph.hash then Some(NonDeterministicGraph(cell, arm, run))
      else None
  }

  predicate CellClean(measure: Measure, cell: nat, runs: nat)
  {
    forall run: nat :: run < runs ==> RunClean(measure, cell, run)
  }

  predicate RunClean(measure: Measure, cell: nat, run: nat)
  {
    Trouble(measure, cell, Baseline, run).None? && Trouble(measure, cell, Candidate, run).None?
  }

  /** `error` is what goes wrong first in the run, in the order the binaries go. */
  predicate RunTrouble(measure: Measure, cell: nat, run: nat, error: AbError)
  {
    var first := Trouble(measure, cell, Order(run)[0], run);
    Some(error) == if first.Some? then first else Trouble(measure, cell, Order(run)[1], run)
  }

  /** `error` is what goes wrong first in the cell. */
  ghost predicate FirstTrouble(measure: Measure, cell: nat, runs: nat, error: AbError)
  {
    exists run: nat :: run < runs && CellClean(measure, cell, run) && RunTrouble(measure, cell, run, error)
  }

  // ----- The samples of a cell

  /** One sample per run, with what the run measured. */
  ghost predicate Recorded(samples: seq<RunSample>, measure: Measure, cell: nat, arm: Arm)
  {
    forall k :: 0 <= k < |samples| ==>
        && measure(cell, arm, k).Ok?
        && var outcome := measure(cell, arm, k).value;
           samples[k] == RunSample(k + 1, k == 0, outcome.wallMs, outcome.peakRssKb, outcome.graph.hash)
  }

  /** Samples numbered from one, only the first a warm-up, all with the hash of the binary's one graph. */
  ghost predicate Series(samples: seq<RunSample>, graph: Option<Fingerprint>)
  {
    forall k :: 0 <= k < |samples| ==>
        && samples[k].run == k + 1 && (samples[k].warmup <==> k == 0)
        && graph.Some? && samples[k].canonicalHash == graph.value.hash
  }

  /** The graph kept for a binary is that of its first run, once it has run. */
  ghost predicate Kept(measure: Measure, arm: Arm, hasRun: bool, graph: Option<Fingerprint>)
  {
    if hasRun then graph.Some? && graph == FirstGraph(measure, arm) else graph == None
  }

  ghost predicate ArmSoFar(measure: Measure, cell: nat, arm: Arm, runs: nat, samples: seq<RunSample>,
                           graph: Option<Fingerprint>)
  {
    && |samples| == runs && Recorded(samples, measure, cell, arm) && Series(samples, graph)
    && Kept(measure, arm, cell > 0 || runs > 0, graph)
  }

  ghost predicate CellSoFar(measure: Measure, cell: nat, timed: seq<Arm>, series: PerArm<seq<RunSample>>,
                            graphs: PerArm<Option<Fingerprint>>)
  {
    forall arm :: ArmSoFar(measure, cell, arm, Times(arm, timed), series.Get(arm), graphs.Get(arm))
  }

  /** One timed run, checked and recorded: it is refused exactly for its trouble. */
  method TimeOne(cell: nat, run: nat, arm: Arm, measure: Measure, graphs: PerArm<Option<Fingerprint>>,
                 series: PerArm<seq<RunSample>>, ghost timed: seq<Arm>)
    returns (r: Result<(), AbError>, graphs': PerArm<Option<Fingerprint>>, series': PerArm<seq<RunSample>>)
    requires CellSoFar(measure, cell, timed, series, graphs) && Times(arm, timed) == run
    ensures Trouble(measure, cell, arm, run) == match r case Ok(_) => None case Err(error) => Some(error)
    ensures r.Ok? ==> CellSoFar(measure, cell, timed + [arm], series', graphs')
  {
    hide Recorded, Series, Times;
    graphs', series' := graphs, series;
    assert ArmSoFar(measure, cell, arm, run, series.Get(arm), graphs.Get(arm));
    var outcome := measure(cell, arm, run);
    if outcome.Err? {
      return Err(outcome.error), graphs', series';
    }
    var kept := CheckSameGraph(graphs.Get(arm), outcome.value.graph, cell, arm, run);
    if kept.Err? {
      return Err(kept.error), graphs', series';
    }
    var sample := RunSample(run + 1, run == 0, outcome.value.wallMs, outcome.value.peakRssKb, outcome.value.graph.hash);
    graphs' := graphs.Put(arm, kept.value);
    series' := series.Put(arm, series.Get(arm) + [sample]);
    r := Ok(());
    OneMoreSample(measure, cell, arm, series.Get(arm), graphs.Get(arm), kept.value);
    OneMoreTimed(measure, cell, timed, arm, series, graphs, series', graphs');
  }

  /** The next sample keeps a binary's samples in order, under the graph kept or, for its first run, its own. */
  lemma OneMoreSample(measure: Measure, cell: nat, arm: Arm, samples: seq<RunSample>, graph: Option<Fingerprint>,
                      kept: Option<Fingerprint>)
    requires ArmSoFar(measure, cell, arm, |samples|, samples, graph) && measure(cell, arm, |samples|).Ok?
    requires var outcome := measure(cell, arm, |samples|).value;
             CheckSameGraph(graph, outcome.graph, cell, arm, |samples|) == Ok(kept)
    ensures var outcome := measure(cell, arm, |samples|).value;
            var sample := RunSample(|samples| + 1, |samples| == 0, outcome.wallMs, outcome.peakRssKb,
                                    outcome.graph.hash);
            ArmSoFar(measure, cell, arm, |samples| + 1, samples + [sample], kept)
  {
  }

  lemma OneMoreTimed(measure: Measure, cell: nat, timed: seq<Arm>, arm: Arm,
                     series: PerArm<seq<RunSample>>, graphs: PerArm<Option<Fingerprint>>,
                     series': PerArm<seq<RunSample>>, graphs': PerArm<Option<Fingerprint>>)
    requires CellSoFar(measure, cell, timed, series, graphs)
    requires series' == series.Put(arm, series'.Get(arm)) && graphs' == graphs.Put(arm, graphs'.Get(arm))
    requires ArmSoFar(measure, cell, arm, Times(arm, timed) + 1, series'.Get(arm), graphs'.Get(arm))
    ensures CellSoFar(measure, cell, timed + [arm], series', graphs')
  {
    hide ArmSoFar, Times;
    TimesOneMore(timed, arm);
    forall a
      ensures ArmSoFar(measure, cell, a, Times(a, timed + [arm]), series'.Get(a), graphs'.Get(a))
    {
      assert ArmSoFar(measure, cell, a, Times(a, timed), series.Get(a), graphs.Get(a));
    }
  }

  /** Before a cell a binary's graph is kept exactly if there was an earlier cell. */
  ghost predicate KeptBefore(measure: Measure, cell: nat, graphs: PerArm<Option<Fingerprint>>)
  {
    forall arm :: Kept(measure, arm, cell > 0, graphs.Get(arm))
  }

  lemma StartCell(measure: Measure, cell: nat, graphs: PerArm<Option<Fingerprint>>)
    requires KeptBefore(measure, cell, graphs)
    ensures CellSoFar(measure, cell, [], PerArm([], []), graphs)
  {
    forall arm
      ensures ArmSoFar(measure, cell, arm, 0, PerArm([], []).Get(arm), graphs.Get(arm))
    {
      match arm case Baseline => case Candidate =>
    }
  }

  lemma EachOnce(timed: seq<Arm>, run: nat)
    requires Times(Baseline, timed) == run == Times(Candidate, timed)
    ensures Times(Order(run)[0], timed) == run == Times(Order(run)[1], timed + [Order(run)[0]])
    ensures Order(run)[0] != Order(run)[1]
  {
    TimesOneMore(timed, Order(run)[0]);
  }

  lemma RunIsClean(measure: Measure, cell: nat, run: nat)
    ensures RunClean(measure, cell, run) <==>
        Trouble(measure, cell, Order(run)[0], run).None? && Trouble(measure, cell, Order(run)[1], run).None?
  {
  }

  lemma CleanOneMore(measure: Measure, cell: nat, run: nat)
    ensures CellClean(measure, cell, run + 1) <==> CellClean(measure, cell, run) && RunClean(measure, cell, run)
  {
    hide RunClean;
  }

  lemma EndCell(measure: Measure, cell: nat, runs: nat, series: PerArm<seq<RunSample>>,
                graphs: PerArm<Option<Fingerprint>>)
    requires CellSoFar(measure, cell, CellOrder(runs), series, graphs)
    ensures forall arm :: ArmSoFar(measure, cell, arm, runs, series.Get(arm), graphs.Get(arm))
  {
    CellOrderTimes(runs);
    hide ArmSoFar;
    forall arm
      ensures ArmSoFar(measure, cell, arm, runs, series.Get(arm), graphs.Get(arm))
    {
      assert ArmSoFar(measure, cell, arm, Times(arm, CellOrder(runs)), series.Get(arm), graphs.Get(arm));
      match arm case Baseline => case Candidate =>
    }
  }

  /** The runs of one cell, the binaries interleaved: it ends well exactly if no run goes wrong, and otherwise
      with what goes wrong first. */
  method TimeCell(cell: nat, runs: nat, measure: Measure, graphs: PerArm<Option<Fingerprint>>)
    returns (r: Result<PerArm<seq<RunSample>>, AbError>, graphs': PerArm<Option<Fingerprint>>, ghost timed: seq<Arm>)
    requires KeptBefore(measure, cell, graphs)
    ensures r.Ok? <==> CellClean(measure, cell, runs)
    ensures r.Err? ==> FirstTrouble(measure, cell, runs, r.error)
    ensures r.Ok? ==> timed == CellOrder(runs)
    ensures r.Ok? ==> forall arm :: ArmSoFar(measure, cell, arm, runs, r.value.Get(arm), graphs'.Get(arm))
  {
    hide CellSoFar, ArmSoFar, Times, CellOrder, CellClean, RunClean, Trouble, KeptBefore;
    graphs', timed := graphs, CellOrder(0);
    var series: PerArm<seq<RunSample>> := PerArm([], []);
    StartCell(measure, cell, graphs);
    NoRuns(measure, cell);
    for run := 0 to runs
      invariant timed == CellOrder(run) && CellSoFar(measure, cell, timed, series, graphs')
      invariant CellClean(measure, cell, run)
    {
      CellOrderTimes(run);
      EachOnce(timed, run);
      OneMoreRun(run + 1);
      RunIsClean(measure, cell, run);
      CleanOneMore(measure, cell, run);
      var order := Order(run);
      var one;
      one, graphs', series := TimeOne(cell, run, order[0], measure, graphs', series, timed);
      if one.Ok? {
        one, graphs', series := TimeOne(cell, run, order[1], measure, graphs', series, timed + [order[0]]);
      }
      if one.Err? {
        assert RunTrouble(measure, cell, run, one.error);
        UncleanStays(measure, cell, run, runs);
        return Err(one.error), graphs', timed;
      }
      timed := timed + [order[0]] + [order[1]];
    }
    EndCell(measure, cell, runs, series, graphs');
    r := Ok(series);
  }

  lemma UncleanStays(measure: Measure, cell: nat, run: nat, runs: nat)
    requires run < runs && !RunClean(measure, cell, run)
    ensures !CellClean(measure, cell, runs)
  {
  }

  lemma NoRuns(measure: Measure, cell: nat)
    ensures CellOrder(0) == [] && CellClean(measure, cell, 0)
  {
  }

  // ----- Statistics and budget

  datatype Summary = Summary(median: real, mad: real, samples: nat)

  datatype ArmSeries = ArmSeries(runs: seq<RunSample>, wallMs: Summary, peakRssKb: Option<Summary>,
                                 rowsPerSecond: Option<real>)

  function Summarize(samples: seq<real>): Option<Summary>
  {
    match Metrics.Median(samples)
    case None => None
    case Some(median) =>
      match Metrics.Mad(samples)
      case None => None
      case Some(mad) => Some(Summary(median, mad, |samples|))
  }

  function Measured(runs: seq<RunSample>): seq<RunSample>
  {
    if runs == [] then []
    else Measured(runs[..|runs| - 1]) + if runs[|runs| - 1].warmup then [] else [runs[|runs| - 1]]
  }

  function Walls(runs: seq<RunSample>): seq<real>
  {
    seq(|runs|, k requires 0 <= k < |runs| => runs[k].wallMs)
  }

  function Rss(runs: seq<RunSample>): seq<real>
  {
    if runs == [] then []
    else Rss(runs[..|runs| - 1]) + match runs[|runs| - 1].peakRssKb case None => [] case Some(kb) => [kb as real]
  }

  function NewSeries(runs: seq<RunSample>, rows: Option<nat>): Result<ArmSeries, AbError>
  {
    var measured := Measured(runs);
    match Summarize(Walls(measured))
    case None => Err(NoMeasuredRuns)
    case Some(wall) =>
      var rss := Rss(measured);
      var peak := if |rss| == |measured| then Summarize(rss) else None;
      var rate := if rows.Some? && wall.median > 0.0 then Some(rows.value as real / (wall.median / 1000.0)) else None;
      Ok(ArmSeries(runs, wall, peak, rate))
  }

  datatype Ratios = Ratios(wallMs: Option<real>, peakRssKb: Option<real>, canonicalRows: Option<real>,
                           rowsPerSecond: Option<real>)

  /** Candidate over baseline, when both are there and the baseline is positive. */
  function Ratio(numerator: Option<real>, denominator: Option<real>): Option<real>
  {
    if numerator.Some? && denominator.Some? && denominator.value > 0.0
    then Some(numerator.value / denominator.value) else None
  }

  function MedianOf(summary: Option<Summary>): Option<real>
  {
    match summary case None => None case Some(s) => Some(s.median)
  }

  function RealOf(rows: Option<nat>): Option<real>
  {
    match rows case None => None case Some(n) => Some(n as real)
  }

  function Between(baseline: ArmSeries, candidate: ArmSeries, baselineRows: Option<nat>, candidateRows: Option<nat>)
    : Ratios
  {
    Ratios(Ratio(Some(candidate.wallMs.median), Some(baseline.wallMs.median)),
           Ratio(MedianOf(candidate.peakRssKb), MedianOf(baseline.peakRssKb)),
           Ratio(RealOf(candidateRows), RealOf(baselineRows)),
           Ratio(candidate.rowsPerSecond, baseline.rowsPerSecond))
  }

  datatype BudgetLimits = BudgetLimits(initWallRatioMax: real, rowsPerSecondRatioMin: real, peakRssRatioMax: real)

  const PROJECT_LIMITS := BudgetLimits(1.10, 0.90, 1.15)

  datatype BudgetVerdict = BudgetVerdict(initWallOk: Option<bool>, peakRssOk: Option<bool>)

  function Evaluate(ratio: Ratios, limits: BudgetLimits): BudgetVerdict
  {
    BudgetVerdict(
      match ratio.wallMs
      case None => None
      case Some(wall) =>
        var rowsGrew := ratio.canonicalRows.Some? && ratio.canonicalRows.value > 1.0;
        var throughputHeld := ratio.rowsPerSecond.Some? && ratio.rowsPerSecond.value >= limits.rowsPerSecondRatioMin;
        Some(wall <= limits.initWallRatioMax || (rowsGrew && throughputHeld)),
      match ratio.peakRssKb
      case None => None
      case Some(rss) => Some(rss <= limits.peakRssRatioMax))
  }

  /** All but the warm-up are measured, so statistics exist exactly from two runs on. */
  lemma {:induction false} SeriesMeasured(samples: seq<RunSample>, graph: Option<Fingerprint>)
    requires Series(samples, graph)
    ensures Measured(samples) == if samples == [] then [] else samples[1..]
    ensures forall rows :: NewSeries(samples, rows).Ok? <==> |samples| >= 2
  {
    if samples != [] {
      var before := samples[..|samples| - 1];
      SeriesMeasured(before, graph);
      assert samples[|samples| - 1].warmup <==> |samples| == 1;
      assert |samples| > 1 ==> before[1..] + [samples[|samples| - 1]] == samples[1..];
    }
  }

  lemma Quotients(a: real, b: real, c: real, d: real)
    requires b > 0.0 && c > 0.0 && d > 0.0
    ensures c / (d / 1000.0) > 0.0
    ensures (a / (b / 1000.0)) / (c / (d / 1000.0)) == (a / c) / (b / d)
  {
    RateOf(a, b);
    RateOf(c, d);
    var x, y := a / (b / 1000.0), c / (d / 1000.0);
    assert x == a * 1000.0 / b && y == c * 1000.0 / d;
    QuotientOfQuotients(a, b, c, d);
  }

  lemma RateOf(rows: real, wall: real)
    requires wall > 0.0
    ensures rows / (wall / 1000.0) == rows * 1000.0 / wall
    ensures rows > 0.0 ==> rows / (wall / 1000.0) > 0.0
  {
    var rate := rows / (wall / 1000.0);
    assert rate * (wall / 1000.0) == rows;
    assert rate * wall == rows * 1000.0;
    assert rate <= 0.0 ==> rate * wall <= 0.0;
  }

  lemma QuotientOfQuotients(a: real, b: real, c: real, d: real)
    requires b > 0.0 && c > 0.0 && d > 0.0
    ensures c * 1000.0 / d > 0.0
    ensures (a * 1000.0 / b) / (c * 1000.0 / d) == (a / c) / (b / d)
  {
    var x, y, p, q := a * 1000.0 / b, c * 1000.0 / d, a / c, b / d;
    assert x * b == a * 1000.0 && y * d == c * 1000.0 && p * c == a && q * d == b;
    assert x * q * d == p * c * 1000.0 == p * y * d;
    assert x * q == p * y;
  }

  /** The throughput ratio is the row ratio over the wall ratio. */
  lemma ThroughputIsRowsOverWall(baseRuns: seq<RunSample>, newRuns: seq<RunSample>, baseRows: nat, newRows: nat,
                                 baseline: ArmSeries, candidate: ArmSeries)
    requires NewSeries(baseRuns, Some(baseRows)) == Ok(baseline) && NewSeries(newRuns, Some(newRows)) == Ok(candidate)
    requires baseline.wallMs.median > 0.0 && candidate.wallMs.median > 0.0 && baseRows > 0
    ensures var ratios := Between(baseline, candidate, Some(baseRows), Some(newRows));
            && ratios.wallMs.Some? && ratios.canonicalRows.Some? && ratios.wallMs.value > 0.0
            && ratios.rowsPerSecond == Some(ratios.canonicalRows.value / ratios.wallMs.value)
  {
    hide Summarize, Measured, Walls, Rss;
    Quotients(newRows as real, candidate.wallMs.median, baseRows as real, baseline.wallMs.median);
    var wall := candidate.wallMs.median / baseline.wallMs.median;
    assert wall * baseline.wallMs.median == candidate.wallMs.median;
  }

  // ----- What a cell has to report

  /** The middle of the samples, and the middle of their distances from it. */
  ghost predicate SummaryOf(summary: Summary, samples: seq<real>)
  {
    && summary.samples == |samples| && Metrics.IsMiddle(samples, summary.median)
    && exists distances ::
         Metrics.AreDistances(distances, samples, summary.median) && Metrics.IsMiddle(distances, summary.mad)
  }

  /** What runs 2 and on took. */
  function WallsAfterFirst(runs: seq<RunSample>): seq<real>
    requires runs != []
  {
    seq(|runs| - 1, k requires 0 <= k < |runs| - 1 => runs[k + 1].wallMs)
  }

  predicate RssThroughout(runs: seq<RunSample>)
  {
    forall k :: 1 <= k < |runs| ==> runs[k].peakRssKb.Some?
  }

  /** What runs 2 and on peaked at. */
  function RssAfterFirst(runs: seq<RunSample>): seq<real>
    requires runs != [] && RssThroughout(runs)
  {
    seq(|runs| - 1, k requires 0 <= k < |runs| - 1 => runs[k + 1].peakRssKb.value as real)
  }

  /** The wall times of all runs but the first are summarised, their peaks too if each of them has one; and rows per
      second are the rows of the binary's graph over the median time. */
  ghost predicate StatisticsOf(series: ArmSeries, rows: nat)
    requires series.runs != []
  {
    && SummaryOf(series.wallMs, WallsAfterFirst(series.runs))
    && (series.peakRssKb.Some? <==> RssThroughout(series.runs))
    && (series.peakRssKb.Some? ==> SummaryOf(series.peakRssKb.value, RssAfterFirst(series.runs)))
    && (series.rowsPerSecond.Some? <==> series.wallMs.median > 0.0)
    && (series.rowsPerSecond.Some? ==> series.rowsPerSecond.value * series.wallMs.median == rows as real * 1000.0)
  }

  /** `q` is the quotient if there are both numbers and the denominator is positive. */
  ghost predicate IsQuotient(q: Option<real>, numerator: Option<real>, denominator: Option<real>)
  {
    && (q.Some? <==> numerator.Some? && denominator.Some? && denominator.value > 0.0)
    && (q.Some? ==> q.value * denominator.value == numerator.value)
  }

  ghost predicate RatiosOf(ratio: Ratios, baseline: ArmSeries, candidate: ArmSeries, baseRows: nat, newRows: nat)
  {
    && IsQuotient(ratio.wallMs, Some(candidate.wallMs.median), Some(baseline.wallMs.median))
    && IsQuotient(ratio.peakRssKb, MedianOf(candidate.peakRssKb), MedianOf(baseline.peakRssKb))
    && IsQuotient(ratio.canonicalRows, Some(newRows as real), Some(baseRows as real))
    && IsQuotient(ratio.rowsPerSecond, candidate.rowsPerSecond, baseline.rowsPerSecond)
  }

  /** At most 1.10 times the baseline's wall time, or more rows and at least 0.90 times its rows per time. */
  predicate WallFits(b: real, c: real, baseRows: nat, newRows: nat)
  {
    c <= 1.10 * b || (newRows > baseRows > 0 && 0.90 * (baseRows as real * c) <= newRows as real * b)
  }

  /** The wall time fits if the baseline's is positive, and the peak is at most 1.15 times the baseline's. */
  ghost predicate VerdictOf(budget: BudgetVerdict, baseline: ArmSeries, candidate: ArmSeries,
                            baseRows: nat, newRows: nat)
  {
    var b, c, p, q := baseline.wallMs.median, candidate.wallMs.median, baseline.peakRssKb, candidate.peakRssKb;
    && budget.initWallOk == (if b > 0.0 then Some(WallFits(b, c, baseRows, newRows)) else None)
    && budget.peakRssOk
       == (if p.Some? && q.Some? && p.value.median > 0.0 then Some(q.value.median <= 1.15 * p.value.median) else None)
  }

  /** What a new series reports. */
  lemma NewSeriesReports(samples: seq<RunSample>, graph: Option<Fingerprint>, rows: nat, series: ArmSeries)
    requires Series(samples, graph) && NewSeries(samples, Some(rows)) == Ok(series)
    ensures series.runs == samples != [] && StatisticsOf(series, rows)
  {
    hide *;
    SeriesMeasured(samples, graph);
    assert NewSeries(samples, Some(rows)).Ok? && |samples| >= 2;
    NewSeriesParts(samples, rows, series);
    WallsReport(samples);
    RssReports(samples);
    RateReports(rows, series.wallMs.median);
    StatisticsParts(series, rows);
  }

  lemma NewSeriesParts(samples: seq<RunSample>, rows: nat, series: ArmSeries)
    requires NewSeries(samples, Some(rows)) == Ok(series)
    ensures series.runs == samples && Summarize(Walls(Measured(samples))) == Some(series.wallMs)
    ensures var rss := Rss(Measured(samples));
            series.peakRssKb == if |rss| == |Measured(samples)| then Summarize(rss) else None
    ensures series.rowsPerSecond == if series.wallMs.median > 0.0
                                    then Some(rows as real / (series.wallMs.median / 1000.0)) else None
  {
    hide Summarize, Walls, Measured, Rss;
  }

  lemma StatisticsParts(series: ArmSeries, rows: nat)
    requires series.runs != [] && SummaryOf(series.wallMs, WallsAfterFirst(series.runs))
    requires series.peakRssKb.Some? <==> RssThroughout(series.runs)
    requires series.peakRssKb.Some? ==> SummaryOf(series.peakRssKb.value, RssAfterFirst(series.runs))
    requires series.rowsPerSecond.Some? <==> series.wallMs.median > 0.0
    requires series.rowsPerSecond.Some? ==>
        series.rowsPerSecond.value * series.wallMs.median == rows as real * 1000.0
    ensures StatisticsOf(series, rows)
  {
    hide SummaryOf, RssThroughout, WallsAfterFirst, RssAfterFirst;
  }

  lemma WallsReport(samples: seq<RunSample>)
    requires |samples| >= 2
    ensures var wall := Summarize(Walls(samples[1..])); wall.Some? && SummaryOf(wall.value, WallsAfterFirst(samples))
  {
    hide Summarize, SummaryOf;
    SummarizeReports(Walls(samples[1..]));
    assert Walls(samples[1..]) == WallsAfterFirst(samples);
  }

  lemma RateReports(rows: nat, wall: real)
    ensures wall > 0.0 ==> rows as real / (wall / 1000.0) * wall == rows as real * 1000.0
  {
    if wall > 0.0 {
      RateOf(rows as real, wall);
    }
  }

  lemma SummarizeReports(samples: seq<real>)
    ensures Summarize(samples).Some? <==> samples != []
    ensures Summarize(samples).Some? ==> SummaryOf(Summarize(samples).value, samples)
  {
    hide Metrics.Median, Metrics.Mad, Metrics.IsMiddle, Metrics.AreDistances;
    if samples != [] {
      Metrics.MedianIsMiddle(samples);
      Metrics.MadIsMiddle(samples);
    } else {
      assert Metrics.Median(samples) == None by { NoMedian(); }
    }
  }

  lemma NoMedian()
    ensures Metrics.Median([]) == None
  {
  }

  /** Peaks are listed one per sample exactly if each sample has one. */
  lemma {:induction false} RssOf(samples: seq<RunSample>)
    ensures |Rss(samples)| <= |samples|
    ensures |Rss(samples)| == |samples| <==> forall k :: 0 <= k < |samples| ==> samples[k].peakRssKb.Some?
    ensures |Rss(samples)| == |samples| ==>
        forall k :: 0 <= k < |samples| ==> Rss(samples)[k] == samples[k].peakRssKb.value as real
  {
    if samples != [] {
      RssOf(samples[..|samples| - 1]);
    }
  }

  lemma RssReports(samples: seq<RunSample>)
    requires samples != []
    ensures var rss, measured := Rss(samples[1..]), samples[1..];
            && (|rss| == |measured| <==> RssThroughout(samples))
            && (|rss| == |measured| > 0 ==>
                  RssThroughout(samples) && Summarize(rss).Some?
                  && SummaryOf(Summarize(rss).value, RssAfterFirst(samples)))
  {
    hide Summarize, SummaryOf;
    RssOf(samples[1..]);
    if |Rss(samples[1..])| == |samples[1..]| {
      forall k | 1 <= k < |samples|
        ensures samples[k].peakRssKb.Some?
      {
        assert samples[1..][k - 1] == samples[k];
      }
      assert Rss(samples[1..]) == RssAfterFirst(samples);
    }
    SummarizeReports(Rss(samples[1..]));
  }

  lemma RatioIsQuotient(numerator: Option<real>, denominator: Option<real>)
    ensures IsQuotient(Ratio(numerator, denominator), numerator, denominator)
  {
  }

  lemma BetweenReports(baseline: ArmSeries, candidate: ArmSeries, baseRows: nat, newRows: nat)
    ensures var ratio := Between(baseline, candidate, Some(baseRows), Some(newRows));
            RatiosOf(ratio, baseline, candidate, baseRows, newRows)
  {
    hide Ratio, IsQuotient;
    RatioIsQuotient(Some(candidate.wallMs.median), Some(baseline.wallMs.median));
    RatioIsQuotient(MedianOf(candidate.peakRssKb), MedianOf(baseline.peakRssKb));
    RatioIsQuotient(Some(newRows as real), Some(baseRows as real));
    RatioIsQuotient(candidate.rowsPerSecond, baseline.rowsPerSecond);
  }

  lemma Scaled(x: real, y: real, factor: real)
    requires factor > 0.0
    ensures x <= y <==> x * factor <= y * factor
  {
    if x <= y {
      assert (y - x) * factor >= 0.0;
    } else {
      assert (x - y) * factor > 0.0;
    }
  }

  /** The wall budget in terms of what was measured. */
  lemma WallBudgetMeaning(b: real, c: real, baseRows: nat, newRows: nat, ratio: Ratios,
                          baseRate: Option<real>, newRate: Option<real>)
    requires IsQuotient(ratio.wallMs, Some(c), Some(b))
    requires IsQuotient(ratio.canonicalRows, Some(newRows as real), Some(baseRows as real))
    requires IsQuotient(ratio.rowsPerSecond, newRate, baseRate)
    requires (baseRate.Some? <==> b > 0.0) && (baseRate.Some? ==> baseRate.value * b == baseRows as real * 1000.0)
    requires (newRate.Some? <==> c > 0.0) && (newRate.Some? ==> newRate.value * c == newRows as real * 1000.0)
    ensures Evaluate(ratio, PROJECT_LIMITS).initWallOk
            == if b > 0.0 then Some(WallFits(b, c, baseRows, newRows)) else None
  {
    if b > 0.0 {
      WallHeld(b, c, ratio.wallMs);
      RowsGrew(ratio.canonicalRows, baseRows, newRows);
      hide IsQuotient;
      if baseRows > 0 && c > 0.0 {
        ThroughputHeld(b, c, baseRows, newRows, ratio.rowsPerSecond, baseRate.value, newRate.value);
      } else if c <= 0.0 {
        assert c <= 1.10 * b;
      }
    }
  }

  lemma WallHeld(b: real, c: real, q: Option<real>)
    requires b > 0.0 && IsQuotient(q, Some(c), Some(b))
    ensures q.Some? && (q.value <= 1.10 <==> c <= 1.10 * b)
  {
    Scaled(q.value, 1.10, b);
  }

  lemma RowsGrew(q: Option<real>, baseRows: nat, newRows: nat)
    requires IsQuotient(q, Some(newRows as real), Some(baseRows as real))
    ensures q.Some? && q.value > 1.0 <==> newRows > baseRows > 0
  {
    if baseRows > 0 {
      Scaled(q.value, 1.0, baseRows as real);
    }
  }

  lemma ThroughputHeld(b: real, c: real, baseRows: nat, newRows: nat, q: Option<real>, baseRate: real, newRate: real)
    requires b > 0.0 && c > 0.0 && baseRows > 0
    requires baseRate * b == baseRows as real * 1000.0 && newRate * c == newRows as real * 1000.0
    requires IsQuotient(q, Some(newRate), Some(baseRate))
    ensures q.Some? && (q.value >= 0.90 <==> 0.90 * (baseRows as real * c) <= newRows as real * b)
  {
    Scaled(baseRate, 0.0, b);
    Scaled(0.90, q.value, baseRate);
    Scaled(0.90 * baseRate, newRate, b * c);
    assert 0.90 * baseRate * (b * c) == 0.90 * (baseRate * b) * c;
    assert newRate * (b * c) == (newRate * c) * b;
  }

  lemma PeakBudgetMeaning(ratio: Ratios, p: Option<Summary>, q: Option<Summary>)
    requires IsQuotient(ratio.peakRssKb, MedianOf(q), MedianOf(p))
    ensures Evaluate(ratio, PROJECT_LIMITS).peakRssOk
            == if p.Some? && q.Some? && p.value.median > 0.0
               then Some(q.value.median <= 1.15 * p.value.median) else None
  {
    if ratio.peakRssKb.Some? {
      Scaled(ratio.peakRssKb.value, 1.15, p.value.median);
    }
  }

  // ----- One corpus

  datatype Cell = Cell(threads: nat, baseline: ArmSeries, candidate: ArmSeries, ratio: Ratios, budget: BudgetVerdict)
  {
    function Of(arm: Arm): ArmSeries
    {
      match arm case Baseline => baseline case Candidate => candidate
    }
  }

  datatype CorpusAb = CorpusAb(graphs: PerArm<Fingerprint>, identical: bool, cells: seq<Cell>)

  /** Every run of the cell is a sample, in order, with what it measured and its binary's one hash; and the cell's
      statistics, ratios and verdict are those of its samples and of the two graphs. */
  ghost predicate CellAgrees(measure: Measure, i: nat, cell: Cell, threads: nat, runs: nat)
  {
    && cell.threads == threads && FirstGraph(measure, Baseline).Some? && FirstGraph(measure, Candidate).Some?
    && (forall arm :: ArmSoFar(measure, i, arm, runs, cell.Of(arm).runs, FirstGraph(measure, arm)))
    && var baseRows, newRows := FirstGraph(measure, Baseline).value.rows, FirstGraph(measure, Candidate).value.rows;
       && cell.baseline.runs != [] && StatisticsOf(cell.baseline, baseRows)
       && cell.candidate.runs != [] && StatisticsOf(cell.candidate, newRows)
       && RatiosOf(cell.ratio, cell.baseline, cell.candidate, baseRows, newRows)
       && VerdictOf(cell.budget, cell.baseline, cell.candidate, baseRows, newRows)
  }

  lemma WallsWereMeasured(measure: Measure, i: nat, arm: Arm, runs: nat, samples: seq<RunSample>,
                          graph: Option<Fingerprint>)
    requires ArmSoFar(measure, i, arm, runs, samples, graph) && samples != []
    ensures var walls := WallsAfterFirst(samples);
            && |walls| == runs - 1
            && forall k :: 0 <= k < runs - 1 ==>
                 measure(i, arm, k + 1).Ok? && walls[k] == measure(i, arm, k + 1).value.wallMs
  {
    hide Series, Kept, FirstGraph;
  }

  lemma SummaryHalves(summary: Summary, samples: seq<real>)
    requires SummaryOf(summary, samples)
    ensures summary.samples == |samples|
    ensures 2 * Metrics.AtMost(samples, summary.median) >= |samples|
    ensures 2 * Metrics.AtLeast(samples, summary.median) >= |samples|
    ensures 2 * Metrics.Within(samples, summary.median, summary.mad) >= |samples|
    ensures exists distances :: Metrics.AreDistances(distances, samples, summary.median)
                                && 2 * Metrics.AtLeast(distances, summary.mad) >= |samples|
  {
    hide Metrics.IsMiddle, Metrics.AreDistances, Metrics.AtMost, Metrics.AtLeast, Metrics.Within;
    Metrics.MiddleHalves(samples, summary.median);
    var distances :|
      Metrics.AreDistances(distances, samples, summary.median) && Metrics.IsMiddle(distances, summary.mad);
    Metrics.MiddleDistancesHalve(samples, summary.median, distances, summary.mad);
  }

  lemma CellParts(measure: Measure, i: nat, cell: Cell, threads: nat, runs: nat, arm: Arm)
    requires CellAgrees(measure, i, cell, threads, runs)
    ensures var series := cell.Of(arm);
            && ArmSoFar(measure, i, arm, runs, series.runs, FirstGraph(measure, arm)) && series.runs != []
            && SummaryOf(series.wallMs, WallsAfterFirst(series.runs))
  {
    hide ArmSoFar, SummaryOf, RatiosOf, VerdictOf, WallsAfterFirst, RssThroughout, RssAfterFirst, FirstGraph;
    match arm case Baseline => case Candidate =>
  }

  /** So half the measured runs of a cell took at most the median reported, and half at least it; half lie within the
      deviation reported, and half no nearer. */
  lemma CellHalves(measure: Measure, i: nat, cell: Cell, threads: nat, runs: nat, arm: Arm)
    requires CellAgrees(measure, i, cell, threads, runs) && runs >= 2
    ensures cell.Of(arm).runs != []
    ensures var wall, walls := cell.Of(arm).wallMs, WallsAfterFirst(cell.Of(arm).runs);
            && |walls| == runs - 1 == wall.samples
            && (forall k :: 0 <= k < runs - 1 ==>
                  measure(i, arm, k + 1).Ok? && walls[k] == measure(i, arm, k + 1).value.wallMs)
            && 2 * Metrics.AtMost(walls, wall.median) >= runs - 1 && 2 * Metrics.AtLeast(walls, wall.median) >= runs - 1
            && 2 * Metrics.Within(walls, wall.median, wall.mad) >= runs - 1
            && exists distances :: Metrics.AreDistances(distances, walls, wall.median)
                                   && 2 * Metrics.AtLeast(distances, wall.mad) >= runs - 1
  {
    hide *;
    CellParts(measure, i, cell, threads, runs, arm);
    var series := cell.Of(arm);
    WallsWereMeasured(measure, i, arm, runs, series.runs, FirstGraph(measure, arm));
    SummaryHalves(series.wallMs, WallsAfterFirst(series.runs));
    var distances :| Metrics.AreDistances(distances, WallsAfterFirst(series.runs), series.wallMs.median)
                     && 2 * Metrics.AtLeast(distances, series.wallMs.mad) >= |WallsAfterFirst(series.runs)|;
  }

  /** What a corpus fails with: what goes wrong first, cells in order; or, if there is no cell or the first one has
      nothing to measure, that. With a single run no second cell is begun. */
  ghost predicate CorpusFailsWith(measure: Measure, cells: nat, runs: nat, error: AbError)
  {
    || (error == NoMeasuredRuns && (cells == 0 || (runs < 2 && CellClean(measure, 0, runs))))
    || exists i: nat :: && i < cells && (i == 0 || runs >= 2) && FirstTrouble(measure, i, runs, error)
                        && forall j: nat :: j < i ==> CellClean(measure, j, runs)
  }

  /** It succeeds exactly with at least one thread count and two runs if no run fails and every run of a binary has
      the hash of its first, over all thread counts; and otherwise fails with what goes wrong first. On success
      every cell agrees with what was measured, the graphs reported are those of the first runs, and the cells were
      timed in the interleaved order. */
  method MeasureCorpus(threads: seq<nat>, runs: nat, measure: Measure)
    returns (r: Result<CorpusAb, AbError>, ghost timed: seq<seq<Arm>>)
    ensures r.Ok? <==> threads != [] && runs >= 2 && forall i: nat :: i < |threads| ==> CellClean(measure, i, runs)
    ensures r.Err? ==> CorpusFailsWith(measure, |threads|, runs, r.error)
    ensures r.Ok? ==> |r.value.cells| == |threads| == |timed| && forall k :: 0 <= k < |threads| ==>
        timed[k] == CellOrder(runs) && CellAgrees(measure, k, r.value.cells[k], threads[k], runs)
    ensures r.Ok? ==> forall arm :: FirstGraph(measure, arm) == Some(r.value.graphs.Get(arm))
    ensures r.Ok? ==> (r.value.identical <==> r.value.graphs.baseline.surfaces == r.value.graphs.candidate.surfaces)
  {
    hide ArmSoFar, CellOrder, Between, Evaluate, NewSeries, CellAgrees, CellClean, FirstTrouble, FirstGraph;
    var graphs: PerArm<Option<Fingerprint>> := PerArm(None, None);
    var cells: seq<Cell> := [];
    timed := [];
    for i := 0 to |threads|
      invariant |cells| == i == |timed| && (i > 0 ==> runs >= 2) && KeptBefore(measure, i, graphs)
      invariant forall j: nat :: j < i ==> CellClean(measure, j, runs)
      invariant forall k :: 0 <= k < i ==>
          timed[k] == CellOrder(runs) && CellAgrees(measure, k, cells[k], threads[k], runs)
    {
      var series;
      ghost var order;
      series, graphs, order := TimeCell(i, runs, measure, graphs);
      if series.Err? {
        return Err(series.error), timed;
      }
      var rows := PerArm(RowsOf(graphs.baseline), RowsOf(graphs.candidate));
      SamplesMeasured(measure, i, runs, series.value, graphs);
      var baseline := NewSeries(series.value.baseline, rows.baseline);
      if baseline.Err? {
        return Err(baseline.error), timed;
      }
      var candidate := NewSeries(series.value.candidate, rows.candidate);
      match candidate {
        case Err(error) => return Err(error), timed;
        case Ok(_) =>
      }
      var ratio := Between(baseline.value, candidate.value, rows.baseline, rows.candidate);
      var cell := Cell(threads[i], baseline.value, candidate.value, ratio, Evaluate(ratio, PROJECT_LIMITS));
      NewCellAgrees(measure, i, cell, threads[i], runs, series.value, graphs, rows);
      cells := cells + [cell];
      timed := timed + [order];
    }
    if graphs.baseline.None? || graphs.candidate.None? {
      KeptGraphs(measure, |threads|, graphs);
      return Err(NoMeasuredRuns), timed;
    }
    KeptGraphs(measure, |threads|, graphs);
    r := Ok(CorpusAb(PerArm(graphs.baseline.value, graphs.candidate.value),
                     graphs.baseline.value.surfaces == graphs.candidate.value.surfaces, cells));
  }

  lemma KeptGraphs(measure: Measure, cells: nat, graphs: PerArm<Option<Fingerprint>>)
    requires KeptBefore(measure, cells, graphs)
    ensures forall arm :: graphs.Get(arm).Some? <==> cells > 0
    ensures cells > 0 ==> forall arm :: graphs.Get(arm) == FirstGraph(measure, arm)
    ensures graphs.Get(Baseline) == graphs.baseline && graphs.Get(Candidate) == graphs.candidate
  {
    hide FirstGraph;
    forall arm
      ensures Kept(measure, arm, cells > 0, graphs.Get(arm))
    {
    }
  }

  /** Statistics exist exactly from two runs on, and say so otherwise; and with a run the graphs are kept. */
  lemma SamplesMeasured(measure: Measure, i: nat, runs: nat, series: PerArm<seq<RunSample>>,
                        graphs: PerArm<Option<Fingerprint>>)
    requires forall arm :: ArmSoFar(measure, i, arm, runs, series.Get(arm), graphs.Get(arm))
    ensures forall rows :: NewSeries(series.baseline, rows).Ok? <==> runs >= 2
    ensures forall rows :: NewSeries(series.candidate, rows).Ok? <==> runs >= 2
    ensures forall rows :: runs < 2 ==> NewSeries(series.baseline, rows) == Err(NoMeasuredRuns)
    ensures runs > 0 ==> KeptBefore(measure, i + 1, graphs)
  {
    forall arm
      ensures Series(series.Get(arm), graphs.Get(arm)) && |series.Get(arm)| == runs
      ensures runs > 0 ==> Kept(measure, arm, true, graphs.Get(arm))
    {
      assert ArmSoFar(measure, i, arm, runs, series.Get(arm), graphs.Get(arm));
    }
    hide ArmSoFar, Kept, Series, NewSeries;
    assert series.Get(Baseline) == series.baseline && series.Get(Candidate) == series.candidate;
    SeriesMeasured(series.baseline, graphs.Get(Baseline));
    SeriesMeasured(series.candidate, graphs.Get(Candidate));
    forall rows
      ensures NewSeries(series.baseline, rows).Err? ==> NewSeries(series.baseline, rows) == Err(NoMeasuredRuns)
    {
      OnlyNoMeasuredRuns(series.baseline, rows);
    }
  }

  lemma OnlyNoMeasuredRuns(samples: seq<RunSample>, rows: Option<nat>)
    ensures NewSeries(samples, rows).Err? ==> NewSeries(samples, rows) == Err(NoMeasuredRuns)
    ensures NewSeries(samples, rows).Ok? ==> NewSeries(samples, rows).value.runs == samples
  {
    hide Measured, Summarize, Rss;
  }

  function RowsOf(graph: Option<Fingerprint>): Option<nat>
  {
    match graph case None => None case Some(g) => Some(g.rows)
  }

  lemma NewCellAgrees(measure: Measure, i: nat, cell: Cell, threads: nat, runs: nat, series: PerArm<seq<RunSample>>,
                      graphs: PerArm<Option<Fingerprint>>, rows: PerArm<Option<nat>>)
    requires forall arm :: ArmSoFar(measure, i, arm, runs, series.Get(arm), graphs.Get(arm))
    requires KeptBefore(measure, i + 1, graphs) && rows == PerArm(RowsOf(graphs.baseline), RowsOf(graphs.candidate))
    requires NewSeries(series.baseline, rows.baseline) == Ok(cell.baseline)
    requires NewSeries(series.candidate, rows.candidate) == Ok(cell.candidate)
    requires cell.threads == threads
    requires cell.ratio == Between(cell.baseline, cell.candidate, rows.baseline, rows.candidate)
    requires cell.budget == Evaluate(cell.ratio, PROJECT_LIMITS)
    ensures CellAgrees(measure, i, cell, threads, runs)
  {
    KeptGraphs(measure, i + 1, graphs);
    forall arm
      ensures Series(series.Get(arm), graphs.Get(arm))
    {
      assert ArmSoFar(measure, i, arm, runs, series.Get(arm), graphs.Get(arm));
    }
    assert series.Get(Baseline) == series.baseline && series.Get(Candidate) == series.candidate;
    hide ArmSoFar, NewSeries, Between, Evaluate, FirstGraph, KeptBefore, Series, StatisticsOf, RatiosOf, VerdictOf;
    var baseRows, newRows := rows.baseline.value, rows.candidate.value;
    NewSeriesReports(series.baseline, graphs.baseline, baseRows, cell.baseline);
    NewSeriesReports(series.candidate, graphs.candidate, newRows, cell.candidate);
    BetweenReports(cell.baseline, cell.candidate, baseRows, newRows);
    VerdictReports(cell.ratio, cell.baseline, cell.candidate, baseRows, newRows);
    forall arm
      ensures ArmSoFar(measure, i, arm, runs, cell.Of(arm).runs, FirstGraph(measure, arm))
    {
      match arm case Baseline => case Candidate =>
    }
  }

  lemma VerdictReports(ratio: Ratios, baseline: ArmSeries, candidate: ArmSeries, baseRows: nat, newRows: nat)
    requires RatiosOf(ratio, baseline, candidate, baseRows, newRows)
    requires baseline.runs != [] && StatisticsOf(baseline, baseRows)
    requires candidate.runs != [] && StatisticsOf(candidate, newRows)
    ensures VerdictOf(Evaluate(ratio, PROJECT_LIMITS), baseline, candidate, baseRows, newRows)
  {
    hide SummaryOf, IsQuotient, Evaluate;
    WallBudgetMeaning(baseline.wallMs.median, candidate.wallMs.median, baseRows, newRows, ratio,
                      baseline.rowsPerSecond, candidate.rowsPerSecond);
    PeakBudgetMeaning(ratio, baseline.peakRssKb, candidate.peakRssKb);
  }
}
