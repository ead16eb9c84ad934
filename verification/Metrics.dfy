/**
 The bench's robust statistics in exact arithmetic: interpolated percentiles,
 the median and the median absolute deviation, and the integer median of the
 pipeline report.
 */
module Metrics {
  import opened Results
  import opened Sorting

  predicate Leq(a: real, b: real)
  {
    a <= b
  }

  function Ordered(samples: seq<real>): seq<real>
  {
    Sort(samples, Leq)
  }

  function Rank(n: nat, p: real): real
  {
    (n - 1) as real * p / 100.0
  }

  /** The value at a fractional rank of a sorted list: an element, or on the line between two neighbours. */
  function AtRank(sorted: seq<real>, rank: real): real
    requires 0.0 <= rank <= (|sorted| - 1) as real
  {
    var lower := rank.Floor;
    if lower as real == rank then sorted[lower]
    else Interpolate(sorted[lower], sorted[lower + 1], rank - lower as real)
  }

  function Interpolate(a: real, b: real, w: real): real
  {
    a + (b - a) * w
  }

  lemma RankFits(n: nat, p: real)
    requires n > 0 && 0.0 <= p <= 100.0
    ensures 0.0 <= Rank(n, p) <= (n - 1) as real
  {
    var m := (n - 1) as real;
    assert m * p <= m * 100.0;
    assert 0.0 <= m * p;
  }

  function Percentile(samples: seq<real>, p: real): Option<real>
  {
    if samples == [] || !(0.0 <= p <= 100.0) then None
    else
      OrderedKeepsLength(samples);
      RankFits(|samples|, p);
      Some(AtRank(Ordered(samples), Rank(|samples|, p)))
  }

  function Median(samples: seq<real>): Option<real>
  {
    Percentile(samples, 50.0)
  }

  function Deviations(samples: seq<real>, center: real): (d: seq<real>)
    ensures |d| == |samples|
    ensures forall k :: 0 <= k < |samples| ==> d[k] == Abs(samples[k] - center)
  {
    if samples == [] then [] else [Abs(samples[0] - center)] + Deviations(samples[1..], center)
  }

  function Abs(x: real): real
  {
    if x < 0.0 then -x else x
  }

  function Mad(samples: seq<real>): Option<real>
  {
    match Median(samples)
    case None => None
    case Some(center) => Median(Deviations(samples, center))
  }

  // ----- What a percentile depends on

  lemma LeqIsTotalOrder()
    ensures TotalOrder(Leq)
  {
  }

  lemma OrderedKeepsLength(samples: seq<real>)
    ensures |Ordered(samples)| == |samples|
  {
    LeqIsTotalOrder();
    SortSorts(samples, Leq);
  }

  /** A percentile depends only on the multiset of samples. */
  lemma PercentileForgetsOrder(a: seq<real>, b: seq<real>, p: real)
    requires multiset(a) == multiset(b)
    ensures Percentile(a, p) == Percentile(b, p)
  {
    LeqIsTotalOrder();
    SortDependsOnContents(a, b, Leq);
    assert |a| == |multiset(a)| == |b|;
  }

  // ----- Where it lies

  lemma FloorFits(rank: real, n: nat)
    requires n > 0 && 0.0 <= rank <= (n - 1) as real
    ensures 0 <= rank.Floor < n && (rank.Floor as real != rank ==> rank.Floor + 1 < n)
  {
  }

  /** Interpolation stays between the two neighbours. */
  lemma Between(a: real, b: real, w: real)
    requires a <= b && 0.0 <= w <= 1.0
    ensures a <= Interpolate(a, b, w) <= b
  {
    Scaled(b - a, 0.0, w);
    Scaled(b - a, w, 1.0);
  }

  lemma AtRankBetween(sorted: seq<real>, rank: real)
    requires Ascending(sorted, Leq) && 0.0 <= rank <= (|sorted| - 1) as real
    ensures sorted[rank.Floor] <= AtRank(sorted, rank)
    ensures rank.Floor as real == rank ==> AtRank(sorted, rank) == sorted[rank.Floor]
    ensures rank.Floor as real != rank ==> AtRank(sorted, rank) <= sorted[rank.Floor + 1]
  {
    hide Interpolate;
    FloorFits(rank, |sorted|);
    var lower := rank.Floor;
    if lower as real != rank {
      assert Leq(sorted[lower], sorted[lower + 1]);
      Between(sorted[lower], sorted[lower + 1], rank - lower as real);
    }
  }

  lemma Scaled(slope: real, v: real, w: real)
    requires 0.0 <= slope && v <= w
    ensures slope * v <= slope * w
  {
  }

  lemma InterpolateGrows(a: real, b: real, v: real, w: real)
    requires a <= b && v <= w
    ensures Interpolate(a, b, v) <= Interpolate(a, b, w)
  {
    Scaled(b - a, v, w);
  }

  lemma AtRankMonotone(sorted: seq<real>, r: real, s: real)
    requires Ascending(sorted, Leq) && 0.0 <= r <= s <= (|sorted| - 1) as real
    ensures AtRank(sorted, r) <= AtRank(sorted, s)
  {
    hide Interpolate;
    AtRankBetween(sorted, r);
    AtRankBetween(sorted, s);
    FloorFits(r, |sorted|);
    FloorFits(s, |sorted|);
    var i, j := r.Floor, s.Floor;
    if i == j {
      if i as real != r && i as real != s {
        assert Leq(sorted[i], sorted[i + 1]);
        InterpolateGrows(sorted[i], sorted[i + 1], r - i as real, s - i as real);
      }
    } else {
      assert i + 1 <= j;
      if i as real != r && i + 1 < j {
        assert Leq(sorted[i + 1], sorted[j]);
      }
      assert i < j && Leq(sorted[i], sorted[j]);
    }
  }

  lemma RankGrows(n: nat, p: real, q: real)
    requires n > 0 && p <= q
    ensures Rank(n, p) <= Rank(n, q)
  {
    Scaled((n - 1) as real, p, q);
    var a, b := (n - 1) as real * p, (n - 1) as real * q;
    assert a / 100.0 <= b / 100.0;
  }

  /** A percentile grows with `p`. */
  lemma PercentileIsMonotone(samples: seq<real>, p: real, q: real)
    requires samples != [] && 0.0 <= p <= q <= 100.0
    ensures Percentile(samples, p).value <= Percentile(samples, q).value
  {
    LeqIsTotalOrder();
    SortSorts(samples, Leq);
    RankFits(|samples|, p);
    RankFits(|samples|, q);
    RankGrows(|samples|, p, q);
    AtRankMonotone(Ordered(samples), Rank(|samples|, p), Rank(|samples|, q));
  }

  /** Some sample is at most the percentile and some sample at least. */
  lemma PercentileIsInRange(samples: seq<real>, p: real)
    requires samples != [] && 0.0 <= p <= 100.0
    ensures exists k :: 0 <= k < |samples| && samples[k] <= Percentile(samples, p).value
    ensures exists k :: 0 <= k < |samples| && Percentile(samples, p).value <= samples[k]
  {
    LeqIsTotalOrder();
    SortSorts(samples, Leq);
    var sorted := Ordered(samples);
    var rank := Rank(|samples|, p);
    RankFits(|samples|, p);
    FloorFits(rank, |sorted|);
    AtRankBetween(sorted, rank);
    var i := rank.Floor;
    var j := if i as real == rank then i else i + 1;
    assert sorted[i] in multiset(samples) && sorted[j] in multiset(samples);
    var k :| 0 <= k < |samples| && samples[k] == sorted[i];
    var l :| 0 <= l < |samples| && samples[l] == sorted[j];
  }

  /** Between the elements at `i` and `i + 1` of any sorted arrangement the percentile lies on the line that joins
      them, and at `i` it is the element. */
  lemma PercentileIsInterpolated(samples: seq<real>, p: real, sorted: seq<real>, rank: real, i: nat)
    requires multiset(sorted) == multiset(samples) && forall j, k :: 0 <= j < k < |sorted| ==> sorted[j] <= sorted[k]
    requires 0.0 <= p <= 100.0 && rank * 100.0 == (|samples| - 1) as real * p && i < |sorted|
    ensures Percentile(samples, p).Some?
    ensures rank == i as real ==> Percentile(samples, p).value == sorted[i]
    ensures i as real <= rank <= (i + 1) as real && i + 1 < |sorted| ==>
        Percentile(samples, p).value == sorted[i] * ((i + 1) as real - rank) + sorted[i + 1] * (rank - i as real)
  {
    hide *;
    assert |samples| == |multiset(samples)| == |sorted|;
    PercentileAtRank(samples, p, sorted);
    RankIs(|samples|, p, rank);
    OnTheLine(sorted, rank, i);
  }

  lemma PercentileAtRank(samples: seq<real>, p: real, sorted: seq<real>)
    requires multiset(sorted) == multiset(samples) && forall j, k :: 0 <= j < k < |sorted| ==> sorted[j] <= sorted[k]
    requires 0.0 <= p <= 100.0 && sorted != [] && |sorted| == |samples|
    ensures 0.0 <= Rank(|sorted|, p) <= (|sorted| - 1) as real
    ensures Percentile(samples, p) == Some(AtRank(sorted, Rank(|sorted|, p)))
  {
    hide Rank, AtRank, Ordered;
    SortedIs(samples, sorted);
    RankFits(|samples|, p);
  }

  lemma RankIs(n: nat, p: real, rank: real)
    requires rank * 100.0 == (n - 1) as real * p
    ensures Rank(n, p) == rank
  {
  }

  lemma OnTheLine(sorted: seq<real>, rank: real, i: nat)
    requires 0.0 <= rank <= (|sorted| - 1) as real && i < |sorted|
    ensures rank == i as real ==> AtRank(sorted, rank) == sorted[i]
    ensures i as real <= rank <= (i + 1) as real && i + 1 < |sorted| ==>
        AtRank(sorted, rank) == sorted[i] * ((i + 1) as real - rank) + sorted[i + 1] * (rank - i as real)
  {
    if rank == (i + 1) as real {
      assert rank.Floor == i + 1;
    } else if i as real <= rank < (i + 1) as real {
      assert rank.Floor == i;
      if i + 1 < |sorted| {
        Weighted(sorted[i], sorted[i + 1], rank - i as real);
      }
    }
  }

  lemma Weighted(a: real, b: real, w: real)
    ensures Interpolate(a, b, w) == a * (1.0 - w) + b * w
  {
  }

  lemma SortedIs(samples: seq<real>, sorted: seq<real>)
    requires multiset(sorted) == multiset(samples) && forall j, k :: 0 <= j < k < |sorted| ==> sorted[j] <= sorted[k]
    ensures Ordered(samples) == sorted
  {
    LeqIsTotalOrder();
    SortSorts(samples, Leq);
    AscendingIsUnique(Ordered(samples), sorted, Leq);
  }

  /** `m` is the middle one of the samples in order, or the mean of the two middle ones. */
  ghost predicate IsMiddle(samples: seq<real>, m: real)
  {
    exists sorted: seq<real> ::
      && sorted != [] && multiset(sorted) == multiset(samples)
      && (forall j, k :: 0 <= j < k < |sorted| ==> sorted[j] <= sorted[k])
      && m == if |sorted| % 2 == 1 then sorted[|sorted| / 2]
              else (sorted[|sorted| / 2 - 1] + sorted[|sorted| / 2]) / 2.0
  }

  lemma MedianIsMiddle(samples: seq<real>)
    requires samples != []
    ensures Median(samples).Some? && IsMiddle(samples, Median(samples).value)
  {
    hide Rank, AtRank, Median, Ordered;
    HalfRank(|samples|);
    MedianIsAtHalfRank(samples);
    AtHalfRank(Ordered(samples));
    OrderedArranges(samples);
  }

  lemma OrderedArranges(samples: seq<real>)
    ensures var sorted := Ordered(samples);
            multiset(sorted) == multiset(samples) && forall j, k :: 0 <= j < k < |sorted| ==> sorted[j] <= sorted[k]
  {
    LeqIsTotalOrder();
    SortSorts(samples, Leq);
    hide Sort;
    var sorted := Ordered(samples);
    forall j, k | 0 <= j < k < |sorted|
      ensures sorted[j] <= sorted[k]
    {
      assert Leq(sorted[j], sorted[k]);
    }
  }

  /** How far the samples lie from `center`. */
  ghost predicate AreDistances(distances: seq<real>, samples: seq<real>, center: real)
  {
    && |distances| == |samples|
    && forall k :: 0 <= k < |samples| ==>
         distances[k] == if samples[k] < center then center - samples[k] else samples[k] - center
  }

  /** The median absolute deviation is in the middle of the distances from the median. */
  lemma MadIsMiddle(samples: seq<real>)
    requires samples != []
    ensures Median(samples).Some? && Mad(samples).Some?
    ensures exists distances ::
        AreDistances(distances, samples, Median(samples).value) && IsMiddle(distances, Mad(samples).value)
  {
    hide Median, IsMiddle;
    MedianIsMiddle(samples);
    var distances := Deviations(samples, Median(samples).value);
    MedianIsMiddle(distances);
    assert AreDistances(distances, samples, Median(samples).value);
  }

  // ----- Halves

  function AtMost(samples: seq<real>, x: real): nat
  {
    if samples == [] then 0 else (if samples[0] <= x then 1 else 0) + AtMost(samples[1..], x)
  }

  function AtLeast(samples: seq<real>, x: real): nat
  {
    if samples == [] then 0 else (if x <= samples[0] then 1 else 0) + AtLeast(samples[1..], x)
  }

  lemma {:induction false} AtMostOneMore(samples: seq<real>, last: real, x: real)
    ensures AtMost(samples + [last], x) == AtMost(samples, x) + if last <= x then 1 else 0
    ensures AtLeast(samples + [last], x) == AtLeast(samples, x) + if x <= last then 1 else 0
  {
    if samples == [] {
      assert ([] + [last])[1..] == [];
    } else {
      assert (samples + [last])[1..] == samples[1..] + [last];
      AtMostOneMore(samples[1..], last, x);
    }
  }

  /** How many there are, as positions. */
  lemma {:induction false} CountsArePositions(samples: seq<real>, x: real, n: nat)
    requires n <= |samples|
    ensures AtMost(samples[..n], x) == |set k | 0 <= k < n && samples[k] <= x|
    ensures AtLeast(samples[..n], x) == |set k | 0 <= k < n && x <= samples[k]|
  {
    FewPositions((set k | 0 <= k < n && samples[k] <= x), n);
    FewPositions((set k | 0 <= k < n && x <= samples[k]), n);
    if n == 0 {
      assert samples[..0] == [];
    } else {
      var m := n - 1;
      CountsArePositions(samples, x, m);
      assert samples[..n] == samples[..m] + [samples[m]];
      AtMostOneMore(samples[..m], samples[m], x);
      hide AtMost, AtLeast;
      OneMorePosition(samples, x, m);
    }
  }

  lemma {:induction false} FewPositions(positions: set<int>, n: nat)
    requires forall k :: k in positions ==> 0 <= k < n
    ensures |positions| <= n
  {
    if n == 0 {
      assert forall k :: k !in positions;
    } else {
      FewPositions(positions - {n - 1}, n - 1);
      assert positions <= (positions - {n - 1}) + {n - 1};
      assert n - 1 !in positions ==> positions - {n - 1} == positions;
    }
  }

  lemma OneMorePosition(samples: seq<real>, x: real, m: nat)
    requires m < |samples|
    ensures |set k | 0 <= k < m + 1 && samples[k] <= x|
            == |set k | 0 <= k < m && samples[k] <= x| + if samples[m] <= x then 1 else 0
    ensures |set k | 0 <= k < m + 1 && x <= samples[k]|
            == |set k | 0 <= k < m && x <= samples[k]| + if x <= samples[m] then 1 else 0
  {
    var below, above := set k | 0 <= k < m && samples[k] <= x, set k | 0 <= k < m && x <= samples[k];
    assert (set k | 0 <= k < m + 1 && samples[k] <= x) == if samples[m] <= x then below + {m} else below;
    assert (set k | 0 <= k < m + 1 && x <= samples[k]) == if x <= samples[m] then above + {m} else above;
  }

  lemma {:induction false} InsertKeepsCounts(y: real, s: seq<real>, x: real)
    ensures AtMost(Insert(y, s, Leq), x) == AtMost([y] + s, x)
    ensures AtLeast(Insert(y, s, Leq), x) == AtLeast([y] + s, x)
    decreases s
  {
    assert ([y] + s)[1..] == s;
    if s != [] && !Leq(y, s[0]) {
      InsertKeepsCounts(y, s[1..], x);
      assert ([y] + s[1..])[1..] == s[1..];
      assert Insert(y, s, Leq)[1..] == Insert(y, s[1..], Leq);
    }
  }

  lemma {:induction false} SortKeepsCounts(samples: seq<real>, x: real)
    ensures AtMost(Ordered(samples), x) == AtMost(samples, x)
    ensures AtLeast(Ordered(samples), x) == AtLeast(samples, x)
  {
    if samples != [] {
      SortKeepsCounts(samples[1..], x);
      InsertKeepsCounts(samples[0], Ordered(samples[1..]), x);
      assert ([samples[0]] + Ordered(samples[1..]))[1..] == Ordered(samples[1..]);
    }
  }

  /** In a sorted list everything up to a position that is at most `x` counts, and everything from one at least `x`. */
  lemma {:induction false} SortedCounts(sorted: seq<real>, x: real, i: nat, j: nat)
    requires Ascending(sorted, Leq) && i <= |sorted| && j <= |sorted|
    requires forall k :: 0 <= k < i ==> sorted[k] <= x
    requires forall k :: j <= k < |sorted| ==> x <= sorted[k]
    ensures AtMost(sorted, x) >= i && AtLeast(sorted, x) >= |sorted| - j
    decreases sorted
  {
    if sorted != [] {
      SortedCounts(sorted[1..], x, if i == 0 then 0 else i - 1, if j == 0 then 0 else j - 1);
    }
  }

  /** At least half the samples are at most the median, and at least half are at least the median. */
  lemma MedianHalves(samples: seq<real>)
    requires samples != []
    ensures 2 * AtMost(samples, Median(samples).value) >= |samples|
    ensures 2 * AtLeast(samples, Median(samples).value) >= |samples|
  {
    hide Ordered, AtRank, Rank, AtMost, AtLeast, Median, Ascending;
    OrderedAscends(samples);
    HalfRank(|samples|);
    MedianIsAtHalfRank(samples);
    var sorted, n, median := Ordered(samples), |samples|, Median(samples).value;
    MiddleDivides(sorted, Rank(n, 50.0));
    SortedCounts(sorted, median, (n - 1) / 2 + 1, n / 2);
    SortKeepsCounts(samples, median);
  }

  lemma OrderedAscends(samples: seq<real>)
    ensures Ascending(Ordered(samples), Leq) && |Ordered(samples)| == |samples|
  {
    LeqIsTotalOrder();
    SortSorts(samples, Leq);
  }

  /** Half-way up a sorted list, everything below is at most the value there and everything above at least. */
  lemma MiddleDivides(sorted: seq<real>, rank: real)
    requires Ascending(sorted, Leq) && sorted != [] && 0.0 <= rank <= (|sorted| - 1) as real
    requires rank.Floor == (|sorted| - 1) / 2 && (rank.Floor as real == rank <==> |sorted| % 2 == 1)
    ensures forall k :: 0 <= k < (|sorted| - 1) / 2 + 1 ==> sorted[k] <= AtRank(sorted, rank)
    ensures forall k :: |sorted| / 2 <= k < |sorted| ==> AtRank(sorted, rank) <= sorted[k]
  {
    hide AtRank;
    AtRankBetween(sorted, rank);
    var n, lower := |sorted|, rank.Floor;
    forall k | 0 <= k < lower + 1
      ensures sorted[k] <= AtRank(sorted, rank)
    {
      assert k < lower ==> Leq(sorted[k], sorted[lower]);
    }
    forall k | n / 2 <= k < n
      ensures AtRank(sorted, rank) <= sorted[k]
    {
      assert n / 2 < k ==> Leq(sorted[n / 2], sorted[k]);
    }
  }

  /** What is in the middle is the median, and has half the samples on either side. */
  lemma MiddleHalves(samples: seq<real>, m: real)
    requires IsMiddle(samples, m)
    ensures Median(samples) == Some(m) && 2 * AtMost(samples, m) >= |samples| && 2 * AtLeast(samples, m) >= |samples|
  {
    hide AtMost, AtLeast, Median, Rank, AtRank, Ordered;
    var sorted: seq<real> :|
      && sorted != [] && multiset(sorted) == multiset(samples)
      && (forall j, k :: 0 <= j < k < |sorted| ==> sorted[j] <= sorted[k])
      && m == if |sorted| % 2 == 1 then sorted[|sorted| / 2]
              else (sorted[|sorted| / 2 - 1] + sorted[|sorted| / 2]) / 2.0;
    assert |samples| == |multiset(samples)| == |sorted|;
    SortedIs(samples, sorted);
    HalfRank(|samples|);
    MedianIsAtHalfRank(samples);
    AtHalfRank(sorted);
    MedianHalves(samples);
  }

  /** How many samples lie within `radius` of `center`. */
  function Within(samples: seq<real>, center: real, radius: real): nat
  {
    if samples == [] then 0
    else (if Abs(samples[0] - center) <= radius then 1 else 0) + Within(samples[1..], center, radius)
  }

  lemma {:induction false} WithinCountsDeviations(samples: seq<real>, center: real, radius: real)
    ensures Within(samples, center, radius) == AtMost(Deviations(samples, center), radius)
    decreases samples
  {
    if samples != [] {
      WithinCountsDeviations(samples[1..], center, radius);
      assert Deviations(samples, center)[1..] == Deviations(samples[1..], center);
    }
  }

  /** At least half the samples lie within `mad` of the median, and at least half lie no nearer. */
  lemma MadHalves(samples: seq<real>)
    requires samples != []
    ensures Mad(samples).Some? && Mad(samples).value >= 0.0
    ensures 2 * Within(samples, Median(samples).value, Mad(samples).value) >= |samples|
    ensures 2 * AtLeast(Deviations(samples, Median(samples).value), Mad(samples).value) >= |samples|
  {
    hide Mad, Median, Within, AtMost, AtLeast, Deviations;
    MadIsMedian(samples);
    var center := Median(samples).value;
    var deviations := Deviations(samples, center);
    MedianHalves(deviations);
    MedianIsNotNegative(deviations);
    WithinCountsDeviations(samples, center, Mad(samples).value);
  }

  lemma MadIsMedian(samples: seq<real>)
    requires samples != []
    ensures Median(samples).Some? && Mad(samples) == Median(Deviations(samples, Median(samples).value))
    ensures forall k :: 0 <= k < |samples| ==> Deviations(samples, Median(samples).value)[k] >= 0.0
  {
    hide Deviations, AtRank;
  }

  /** What is in the middle, and in the middle of the distances from it, are the median and its deviation. */
  lemma MiddleDistancesHalve(samples: seq<real>, m: real, distances: seq<real>, mad: real)
    requires IsMiddle(samples, m) && AreDistances(distances, samples, m) && IsMiddle(distances, mad)
    ensures Mad(samples) == Some(mad) && 2 * Within(samples, m, mad) >= |samples|
    ensures 2 * AtLeast(distances, mad) >= |samples|
  {
    hide Median, Within, AtLeast, IsMiddle;
    MiddleHalves(samples, m);
    MiddleHalves(distances, mad);
    assert distances == Deviations(samples, m);
    assert samples != [] by { MiddleOfSome(samples, m); }
    MadHalves(samples);
  }

  lemma MiddleOfSome(samples: seq<real>, m: real)
    requires IsMiddle(samples, m)
    ensures samples != []
  {
    var sorted: seq<real> :| sorted != [] && multiset(sorted) == multiset(samples);
    assert sorted[0] in multiset(samples);
  }

  lemma MedianIsNotNegative(samples: seq<real>)
    requires samples != [] && forall k :: 0 <= k < |samples| ==> samples[k] >= 0.0
    ensures Median(samples).Some? && Median(samples).value >= 0.0
  {
    hide AtRank, Rank, Ordered;
    PercentileIsInRange(samples, 50.0);
  }

  // ----- The integer median

  const U64 := 0x1_0000_0000_0000_0000

  function Present(values: seq<Option<nat>>): seq<nat>
  {
    if values == [] then []
    else (match values[0] case None => [] case Some(v) => [v]) + Present(values[1..])
  }

  /** Present is each value as often as it is given, and nothing for what is missing. */
  lemma {:induction false} PresentIsGiven(values: seq<Option<nat>>, v: nat)
    ensures multiset(Present(values))[v] == multiset(values)[Some(v)]
  {
    if values != [] {
      var rest := values[1..];
      PresentIsGiven(rest, v);
      var head: seq<nat> := match values[0] case None => [] case Some(w) => [w];
      assert values == [values[0]] + rest && Present(values) == head + Present(rest);
      hide Present;
      assert multiset(values)[Some(v)] == multiset([values[0]])[Some(v)] + multiset(rest)[Some(v)];
      assert multiset(Present(values))[v] == multiset(head)[v] + multiset(Present(rest))[v];
    }
  }

  predicate NatLeq(a: nat, b: nat)
  {
    a <= b
  }

  function SortedPresent(values: seq<Option<nat>>): seq<nat>
  {
    Sort<nat>(Present(values), NatLeq)
  }

  /** The sum of the two middle values wraps at 64 bits, as in a release build. */
  function MedianOptionalU64(values: seq<Option<nat>>): Option<nat>
  {
    var present := SortedPresent(values);
    if present == [] then None
    else
      var mid := |present| / 2;
      if |present| % 2 == 1 then Some(present[mid]) else Some((present[mid - 1] + present[mid]) % U64 / 2)
  }

  function Reals(values: seq<nat>): (r: seq<real>)
    ensures |r| == |values| && forall k :: 0 <= k < |values| ==> r[k] == values[k] as real
  {
    if values == [] then [] else [values[0] as real] + Reals(values[1..])
  }

  lemma {:induction false} InsertCommutes(x: nat, s: seq<nat>)
    ensures Reals(Insert<nat>(x, s, NatLeq)) == Insert(x as real, Reals(s), Leq)
    decreases s
  {
    if s != [] && !NatLeq(x, s[0]) {
      InsertCommutes(x, s[1..]);
      assert Insert<nat>(x, s, NatLeq)[1..] == Insert<nat>(x, s[1..], NatLeq);
      assert Reals(s)[1..] == Reals(s[1..]);
    } else {
      assert Insert<nat>(x, s, NatLeq)[1..] == s;
    }
  }

  lemma {:induction false} SortCommutes(s: seq<nat>)
    ensures Reals(Sort<nat>(s, NatLeq)) == Ordered(Reals(s))
  {
    if s != [] {
      SortCommutes(s[1..]);
      InsertCommutes(s[0], Sort<nat>(s[1..], NatLeq));
      assert Reals(s)[1..] == Reals(s[1..]);
    }
  }

  lemma HalfRank(n: nat)
    requires n > 0
    ensures 0.0 <= Rank(n, 50.0) <= (n - 1) as real && Rank(n, 50.0).Floor == (n - 1) / 2
    ensures n % 2 == 1 ==> Rank(n, 50.0) == ((n - 1) / 2) as real
    ensures n % 2 == 0 ==> Rank(n, 50.0) == ((n - 1) / 2) as real + 0.5
  {
    RankFits(n, 50.0);
    var half := (n - 1) / 2;
    assert Rank(n, 50.0) == (n - 1) as real / 2.0;
    assert n % 2 == 1 ==> n - 1 == 2 * half;
    assert n % 2 == 0 ==> n - 1 == 2 * half + 1;
  }

  /** The middle element, or half-way between the two middle ones. */
  lemma AtHalfRank(sorted: seq<real>)
    requires sorted != [] && 0.0 <= Rank(|sorted|, 50.0) <= (|sorted| - 1) as real
    ensures AtRank(sorted, Rank(|sorted|, 50.0))
            == if |sorted| % 2 == 1 then sorted[|sorted| / 2]
               else (sorted[|sorted| / 2 - 1] + sorted[|sorted| / 2]) / 2.0
  {
    hide Rank;
    HalfRank(|sorted|);
    if |sorted| % 2 == 0 {
      var a, b := sorted[|sorted| / 2 - 1], sorted[|sorted| / 2];
      assert Interpolate(a, b, 0.5) == (a + b) / 2.0;
    }
  }

  function MiddleReal(sorted: seq<nat>): real
    requires sorted != []
  {
    var mid := |sorted| / 2;
    if |sorted| % 2 == 1 then sorted[mid] as real else (sorted[mid - 1] + sorted[mid]) as real / 2.0
  }

  /** The exact median of integers, by their sorted list. */
  lemma MedianOfIntegers(values: seq<nat>, sorted: seq<nat>)
    requires values != [] && sorted == Sort<nat>(values, NatLeq)
    ensures sorted != [] && Median(Reals(values)) == Some(MiddleReal(sorted))
  {
    hide *;
    SortCommutes(values);
    OrderedKeepsLength(Reals(values));
    assert |sorted| == |Reals(sorted)| == |values|;
    HalfRank(|values|);
    AtHalfRank(Reals(sorted));
    MiddleOfReals(sorted);
    assert Median(Reals(values)) == Some(AtRank(Reals(sorted), Rank(|values|, 50.0))) by {
      MedianIsAtHalfRank(Reals(values));
    }
  }

  lemma MedianIsAtHalfRank(samples: seq<real>)
    requires samples != [] && 0.0 <= Rank(|samples|, 50.0) <= (|samples| - 1) as real
    ensures |Ordered(samples)| == |samples|
    ensures Median(samples) == Some(AtRank(Ordered(samples), Rank(|samples|, 50.0)))
  {
    OrderedKeepsLength(samples);
  }

  lemma MiddleOfReals(sorted: seq<nat>)
    requires sorted != []
    ensures var s := Reals(sorted);
            MiddleReal(sorted) == if |s| % 2 == 1 then s[|s| / 2] else (s[|s| / 2 - 1] + s[|s| / 2]) / 2.0
  {
  }

  lemma HalfFloor(sum: nat)
    ensures (sum as real / 2.0).Floor == sum / 2
  {
    var half := sum / 2;
    assert sum == 2 * half || sum == 2 * half + 1;
    assert half as real <= sum as real / 2.0 < (half + 1) as real;
  }

  lemma WrappedHalf(sum: nat)
    requires sum < 2 * U64
    ensures sum % U64 / 2 == sum / 2 <==> sum < U64
  {
    if sum >= U64 {
      assert sum % U64 == sum - U64;
    }
  }

  /** The integer median is the floor of the exact median of the values present just when the two
      middle values do not overflow 64 bits together. */
  lemma IntegerMedianIsFlooredMedian(values: seq<Option<nat>>, present: seq<nat>)
    requires present == SortedPresent(values) && Present(values) != []
    requires forall k :: 0 <= k < |present| ==> present[k] < U64
    ensures MedianOptionalU64(values) == Some(Median(Reals(Present(values))).value.Floor)
            <==> |present| % 2 == 1 || present[|present| / 2 - 1] + present[|present| / 2] < U64
  {
    MedianOfIntegers(Present(values), present);
    hide Sort, SortedPresent, Median, Reals, Rank;
    var mid := |present| / 2;
    if |present| % 2 == 0 {
      HalfFloor(present[mid - 1] + present[mid]);
      WrappedHalf(present[mid - 1] + present[mid]);
    }
  }

  /** Two values of 2^63 have the median 2^63, and the integer median 0. */
  lemma OverflowingMedian()
    ensures var half := 0x8000_0000_0000_0000; var values := [Some(half), Some(half)];
            MedianOptionalU64(values) == Some(0) && Median(Reals(Present(values))) == Some(half as real)
  {
    var half := 0x8000_0000_0000_0000;
    var values, sorted := [Some(half), Some(half)], [half, half];
    PresentOfTwo(half, half);
    SortOfTwo(half);
    MedianOfIntegers(Present(values), sorted);
  }

  lemma PresentOfTwo(a: nat, b: nat)
    ensures Present([Some(a), Some(b)]) == [a, b]
  {
    assert [Some(a), Some(b)][1..] == [Some(b)] && [Some(b)][1..] == [];
    assert Present([Some(b)]) == [b] + Present([]);
  }

  lemma SortOfTwo(a: nat)
    ensures Sort<nat>([a, a], NatLeq) == [a, a]
  {
    assert [a, a][1..] == [a] && [a][1..] == [];
    assert Sort<nat>([a], NatLeq) == Insert<nat>(a, Sort<nat>([], NatLeq), NatLeq) == [a];
    assert Insert<nat>(a, [a], NatLeq) == [a, a];
  }
}
