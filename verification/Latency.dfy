/** Nearest-rank latency reports, calibration summaries, and budgets frozen from a baseline. */
module Latency {
  import opened Wrappers

  datatype Outcome = Passed | Failed | HarnessError | Unavailable

  datatype Sample = Sample(outcome: Outcome, durationMs: Option<real>)

  datatype LatencyError = EmptySamples | InvalidElapsed | InvalidDuration | MissingDuration

  datatype Report = Report(
    offered: nat, correct: nat, goodput: real, p50: Option<real>, p95: Option<real>,
    min: Option<real>, max: Option<real>, outcomes: map<Outcome, nat>)

  // ----- sorting ---------------------------------------------------------------

  predicate Sorted(xs: seq<real>) {
    forall i, j | 0 <= i < j < |xs| :: xs[i] <= xs[j]
  }

  function InsertSorted(x: real, xs: seq<real>): (r: seq<real>)
    ensures |r| == |xs| + 1
  {
    if xs == [] || x <= xs[0] then [x] + xs else [xs[0]] + InsertSorted(x, xs[1..])
  }

  function Sort(xs: seq<real>): (r: seq<real>)
    ensures |r| == |xs|
  {
    if xs == [] then [] else InsertSorted(xs[0], Sort(xs[1..]))
  }

  lemma {:induction false} InsertSortedKeeps(x: real, xs: seq<real>)
    requires Sorted(xs)
    ensures Sorted(InsertSorted(x, xs))
    ensures forall y :: y in InsertSorted(x, xs) <==> y == x || y in xs
  {
    if xs != [] && x > xs[0] {
      InsertSortedKeeps(x, xs[1..]);
      assert xs == [xs[0]] + xs[1..];
      var rest := InsertSorted(x, xs[1..]);
      forall j | 0 <= j < |rest| ensures xs[0] <= rest[j] {
        assert rest[j] in rest;
      }
    }
  }

  lemma {:induction false} SortSorts(xs: seq<real>)
    ensures Sorted(Sort(xs)) && forall y :: y in Sort(xs) <==> y in xs
  {
    if xs != [] {
      SortSorts(xs[1..]);
      InsertSortedKeeps(xs[0], Sort(xs[1..]));
      assert xs == [xs[0]] + xs[1..];
    }
  }

  /** How many values are at or below v. */
  function AtOrBelow(xs: seq<real>, v: real): nat {
    if xs == [] then 0 else (if xs[0] <= v then 1 else 0) + AtOrBelow(xs[1..], v)
  }

  lemma {:induction false} InsertCounts(x: real, xs: seq<real>, v: real)
    ensures AtOrBelow(InsertSorted(x, xs), v) == (if x <= v then 1 else 0) + AtOrBelow(xs, v)
  {
    if xs == [] || x <= xs[0] {
      assert ([x] + xs)[1..] == xs;
    } else {
      InsertCounts(x, xs[1..], v);
      assert ([xs[0]] + InsertSorted(x, xs[1..]))[1..] == InsertSorted(x, xs[1..]);
    }
  }

  lemma {:induction false} SortCounts(xs: seq<real>, v: real)
    ensures AtOrBelow(Sort(xs), v) == AtOrBelow(xs, v)
  {
    if xs != [] {
      SortCounts(xs[1..], v);
      InsertCounts(xs[0], Sort(xs[1..]), v);
    }
  }

  /** In a sorted list, at least k + 1 values are at or below the kth; fewer are below any smaller bound. */
  lemma {:induction false} SortedRank(xs: seq<real>, k: nat, v: real)
    requires Sorted(xs) && k < |xs|
    ensures v >= xs[k] ==> AtOrBelow(xs, v) >= k + 1
    ensures v < xs[k] ==> AtOrBelow(xs, v) <= k
  {
    if k == 0 {
      if v < xs[0] { NoneBelow(xs, v); }
    } else {
      SortedRank(xs[1..], k - 1, v);
    }
  }

  lemma {:induction false} NoneBelow(xs: seq<real>, v: real)
    requires forall i | 0 <= i < |xs| :: v < xs[i]
    ensures AtOrBelow(xs, v) == 0
  {
    if xs != [] { NoneBelow(xs[1..], v); }
  }

  // ----- one report ----------------------------------------------------------------

  /** math.ceil(n * 0.50) and math.ceil(n * 0.95), exactly */
  function Rank50(n: nat): nat { (n + 1) / 2 }

  function Rank95(n: nat): nat { (19 * n + 19) / 20 }

  predicate GoodSample(s: Sample) {
    (s.durationMs.Some? ==> s.durationMs.value >= 0.0) && (s.outcome == Passed ==> s.durationMs.Some?)
  }

  /** The durations of the correct requests, in order. */
  function GoodDurations(samples: seq<Sample>): seq<real>
    requires forall s | s in samples :: GoodSample(s)
  {
    if samples == [] then []
    else
      var last := samples[|samples| - 1];
      assert last in samples && GoodSample(last);
      GoodDurations(samples[..|samples| - 1]) + if last.outcome == Passed then [last.durationMs.value] else []
  }

  function CountOf(samples: seq<Sample>, o: Outcome): nat {
    if samples == [] then 0
    else CountOf(samples[..|samples| - 1], o) + if samples[|samples| - 1].outcome == o then 1 else 0
  }

  /** Correct requests per second. */
  function Goodput(correct: nat, elapsedMs: real): real
    requires elapsedMs > 0.0
  {
    correct as real * 1000.0 / elapsedMs
  }

  function ReportOf(samples: seq<Sample>, elapsedMs: real): Report
    requires elapsedMs > 0.0 && forall s | s in samples :: GoodSample(s)
  {
    var good := Sort(GoodDurations(samples));
    var n := |good|;
    Report(|samples|, n, Goodput(n, elapsedMs),
           if n > 0 then Some(good[Rank50(n) - 1]) else None,
           if n > 0 then Some(good[Rank95(n) - 1]) else None,
           if n > 0 then Some(good[0]) else None,
           if n > 0 then Some(good[n - 1]) else None,
           map o | o in {Passed, Failed, HarnessError, Unavailable} :: CountOf(samples, o))
  }

  function SampleError(s: Sample): Option<LatencyError> {
    if s.durationMs.Some? && s.durationMs.value < 0.0 then Some(InvalidDuration)
    else if s.outcome == Passed && s.durationMs.None? then Some(MissingDuration)
    else None
  }

  function FirstError(samples: seq<Sample>): (e: Option<LatencyError>)
    ensures e.None? <==> forall s | s in samples :: GoodSample(s)
  {
    if samples == [] then None
    else
      assert samples == [samples[0]] + samples[1..];
      assert samples[0] in samples;
      assert forall s :: s in samples <==> s == samples[0] || s in samples[1..];
      if SampleError(samples[0]).Some? then SampleError(samples[0]) else FirstError(samples[1..])
  }

  /** The whole report, or the first thing wrong with the measurement. */
  function Reported(samples: seq<Sample>, elapsedMs: real): Result<Report, LatencyError> {
    if samples == [] then Err(EmptySamples)
    else if elapsedMs <= 0.0 then Err(InvalidElapsed)
    else if FirstError(samples).Some? then Err(FirstError(samples).value)
    else Ok(ReportOf(samples, elapsedMs))
  }

  lemma GoodPrefix(samples: seq<Sample>, i: nat)
    requires i < |samples| && FirstError(samples) == FirstError(samples[i..])
    ensures SampleError(samples[i]).Some? ==> FirstError(samples) == SampleError(samples[i])
    ensures SampleError(samples[i]).None? ==> FirstError(samples) == FirstError(samples[i + 1..]) && GoodSample(samples[i])
  {
    assert samples[i..][1..] == samples[i + 1..];
  }

  lemma NothingRead(samples: seq<Sample>)
    ensures FirstError(samples) == FirstError(samples[0..]) && FirstError([]).None?
    ensures GoodDurations(samples[..0]) == [] && forall o :: CountOf(samples[..0], o) == 0
  {
    assert samples[0..] == samples;
  }

  lemma OneMoreSample(samples: seq<Sample>, i: nat)
    requires i < |samples| && GoodSample(samples[i]) && forall s | s in samples[..i] :: GoodSample(s)
    ensures forall s | s in samples[..i + 1] :: GoodSample(s)
    ensures GoodDurations(samples[..i + 1]) ==
            GoodDurations(samples[..i]) + if samples[i].outcome == Passed then [samples[i].durationMs.value] else []
    ensures forall o :: CountOf(samples[..i + 1], o) == CountOf(samples[..i], o) + if samples[i].outcome == o then 1 else 0
  {
    assert samples[..i + 1][..i] == samples[..i] && samples[..i + 1] == samples[..i] + [samples[i]];
  }

  method LatencyReport(samples: seq<Sample>, elapsedMs: real) returns (r: Result<Report, LatencyError>)
    ensures r == Reported(samples, elapsedMs)
  {
    hide Goodput, Sort, GoodDurations, CountOf, FirstError;
    NothingRead(samples);
    if samples == [] { return Err(EmptySamples); }
    if elapsedMs <= 0.0 { return Err(InvalidElapsed); }
    var good: seq<real> := [];
    var counts: map<Outcome, nat> := map[Passed := 0, Failed := 0, HarnessError := 0, Unavailable := 0];
    for i := 0 to |samples|
      invariant FirstError(samples) == FirstError(samples[i..])
      invariant forall s | s in samples[..i] :: GoodSample(s)
      invariant good == GoodDurations(samples[..i])
      invariant counts.Keys == {Passed, Failed, HarnessError, Unavailable}
      invariant forall o | o in counts :: counts[o] == CountOf(samples[..i], o)
    {
      var sample := samples[i];
      GoodPrefix(samples, i);
      if sample.durationMs.Some? && sample.durationMs.value < 0.0 { return Err(InvalidDuration); }
      if sample.outcome == Passed && sample.durationMs.None? { return Err(MissingDuration); }
      OneMoreSample(samples, i);
      if sample.outcome == Passed {
        good := good + [sample.durationMs.value];
      }
      counts := counts[sample.outcome := counts[sample.outcome] + 1];
    }
    assert samples[..|samples|] == samples;
    good := Sort(good);
    var n := |good|;
    r := Ok(Report(|samples|, n, Goodput(n, elapsedMs),
                   if n > 0 then Some(good[Rank50(n) - 1]) else None,
                   if n > 0 then Some(good[Rank95(n) - 1]) else None,
                   if n > 0 then Some(good[0]) else None,
                   if n > 0 then Some(good[n - 1]) else None,
                   counts));
    assert counts == ReportOf(samples, elapsedMs).outcomes;
  }

  // ----- what a report says ------------------------------------------------------------

  /** v is the nearest-rank value of rank k: a sample with at least k samples at or below it, and fewer
      than k at or below anything smaller. */
  ghost predicate NearestRank(xs: seq<real>, k: nat, v: real) {
    v in xs && AtOrBelow(xs, v) >= k && forall u | u < v :: AtOrBelow(xs, u) < k
  }

  /** How many samples are at or below a bound, told from the value of rank k. */
  lemma CountsAtRank(xs: seq<real>, k: nat, u: real)
    requires 0 < k <= |xs|
    ensures u >= Sort(xs)[k - 1] ==> AtOrBelow(xs, u) >= k
    ensures u < Sort(xs)[k - 1] ==> AtOrBelow(xs, u) < k
  {
    hide Sort, AtOrBelow;
    SortSorts(xs);
    SortedRank(Sort(xs), k - 1, u);
    SortCounts(xs, u);
  }

  lemma SortedNearestRank(xs: seq<real>, k: nat)
    requires 0 < k <= |xs|
    ensures NearestRank(xs, k, Sort(xs)[k - 1])
  {
    hide Sort, AtOrBelow;
    var v := Sort(xs)[k - 1];
    CountsAtRank(xs, k, v);
    forall u | u < v ensures AtOrBelow(xs, u) < k {
      CountsAtRank(xs, k, u);
    }
    assert v in Sort(xs);
    SortSorts(xs);
  }

  lemma {:induction false} OutcomesSum(samples: seq<Sample>)
    ensures CountOf(samples, Passed) + CountOf(samples, Failed) + CountOf(samples, HarnessError) +
            CountOf(samples, Unavailable) == |samples|
  {
    if samples != [] { OutcomesSum(samples[..|samples| - 1]); }
  }

  lemma {:induction false} CorrectIsPassed(samples: seq<Sample>)
    requires forall s | s in samples :: GoodSample(s)
    ensures |GoodDurations(samples)| == CountOf(samples, Passed)
    ensures forall d | d in GoodDurations(samples) :: d >= 0.0
  {
    if samples != [] {
      var n := |samples| - 1;
      assert samples[n] in samples;
      CorrectIsPassed(samples[..n]);
    }
  }

  /** Percentiles are nearest-rank over the correct requests only, ordered between minimum and maximum,
      and all offered work is accounted for. */
  lemma ReportIsConsistent(samples: seq<Sample>, elapsedMs: real)
    requires elapsedMs > 0.0 && forall s | s in samples :: GoodSample(s)
    ensures var r := ReportOf(samples, elapsedMs); var good := GoodDurations(samples);
            r.correct == r.outcomes[Passed] == |good| && r.offered == |samples| &&
            r.outcomes[Passed] + r.outcomes[Failed] + r.outcomes[HarnessError] + r.outcomes[Unavailable] == r.offered &&
            (good == [] ==> r.p50 == r.p95 == r.min == r.max == None) &&
            (good != [] ==>
              r.p50.Some? && r.p95.Some? && r.min.Some? && r.max.Some? &&
              NearestRank(good, Rank50(|good|), r.p50.value) && NearestRank(good, Rank95(|good|), r.p95.value) &&
              0.0 <= r.min.value <= r.p50.value <= r.p95.value <= r.max.value &&
              r.min.value in good && r.max.value in good &&
              forall d | d in good :: r.min.value <= d <= r.max.value)
  {
    hide Goodput, NearestRank, Sort, GoodDurations, CountOf;
    var good := GoodDurations(samples);
    OutcomesSum(samples);
    CorrectIsPassed(samples);
    if good != [] {
      RanksAreCeilings(|good|);
      SortedNearestRank(good, Rank50(|good|));
      SortedNearestRank(good, Rank95(|good|));
      SortedExtremes(good, Rank50(|good|) - 1, Rank95(|good|) - 1);
    }
  }

  /** Ranked values of a non-empty sorted list lie in order between its first and last. */
  lemma SortedExtremes(xs: seq<real>, i: nat, j: nat)
    requires i <= j < |xs|
    ensures var s := Sort(xs); var n := |xs|;
            s[0] <= s[i] <= s[j] <= s[n - 1] && s[0] in xs && s[n - 1] in xs && forall x | x in xs :: s[0] <= x <= s[n - 1]
  {
    hide Sort;
    SortSorts(xs);
    var s, n := Sort(xs), |xs|;
    assert s[0] in s && s[n - 1] in s;
    forall x | x in xs ensures s[0] <= x <= s[n - 1] {
      assert x in s;
    }
  }

  /** The ranks are the ceilings of n / 2 and 19 n / 20. */
  lemma RanksAreCeilings(n: nat)
    ensures 2 * Rank50(n) - 2 < n <= 2 * Rank50(n)
    ensures 20 * Rank95(n) - 20 < 19 * n <= 20 * Rank95(n)
    ensures n > 0 ==> 1 <= Rank50(n) <= Rank95(n) <= n
  {
  }

  // ----- calibration ------------------------------------------------------------------------

  /** One repetition of a workload; elapsed is None when it was interrupted or never run. */
  datatype Repetition = Repetition(samples: seq<Sample>, elapsedMs: Option<real>)

  datatype Summary = Summary(offered: nat, correct: nat, p95: Option<real>)

  /** A frozen budget; its two limits are null when frozen from a baseline without percentiles. */
  datatype Policy = Policy(absoluteP95: Option<int>, baselineP95: Option<real>, relativeLimit: real, consecutive: nat)

  datatype Verdict = Incomplete | Regressed | WithinBudget

  function Summarize(r: Repetition): Result<Summary, LatencyError> {
    if r.elapsedMs.None? then Ok(Summary(|r.samples|, CountOf(r.samples, Passed), None))
    else
      var report :- Reported(r.samples, r.elapsedMs.value);
      Ok(Summary(report.offered, report.correct, report.p95))
  }

  function SummarizeAll(runs: seq<Repetition>): (ss: Result<seq<Summary>, LatencyError>)
    ensures ss.Ok? ==> |ss.value| == |runs|
  {
    if runs == [] then Ok([])
    else
      var first :- Summarize(runs[0]);
      var rest :- SummarizeAll(runs[1..]);
      Ok([first] + rest)
  }

  function P95s(ss: seq<Summary>): seq<real> {
    if ss == [] then []
    else (if ss[0].p95.Some? then [ss[0].p95.value] else []) + P95s(ss[1..])
  }

  predicate Complete(ss: seq<Summary>) {
    forall s | s in ss :: s.correct == s.offered && s.p95.Some?
  }

  function MaxOf(xs: seq<real>): (m: real)
    requires xs != []
    ensures m in xs && forall x | x in xs :: x <= m
  {
    assert xs == [xs[0]] + xs[1..];
    if |xs| == 1 then xs[0]
    else var m := MaxOf(xs[1..]); if m < xs[0] then xs[0] else m
  }

  function Ceil(x: real): int {
    -((0.0 - x).Floor)
  }

  /** The thresholds a baseline's summaries freeze, when the baseline is complete. */
  function Freeze(ss: seq<Summary>): Option<Policy> {
    if !Complete(ss) then None
    else
      var p := P95s(ss);
      Some(Policy(if p != [] then Some(Ceil(MaxOf(p) * 1.5)) else None,
                  if p != [] then Some(MaxOf(p)) else None, 0.20, 2))
  }

  function Breaches(ss: seq<Summary>, relative: real): seq<bool> {
    seq(|ss|, i requires 0 <= i < |ss| => ss[i].p95.Some? && ss[i].p95.value > relative)
  }

  /** any(all(breaches[i : i + width]) for i in range(len(breaches) - width + 1)) */
  predicate Sustained(breaches: seq<bool>, width: nat) {
    exists i | 0 <= i <= |breaches| - width :: Window(breaches, i, width)
  }

  predicate Window(breaches: seq<bool>, from: nat, width: nat)
    requires from + width <= |breaches|
  {
    forall j | from <= j < from + width :: breaches[j]
  }

  /** The relative limit a policy compares with. */
  function Relative(policy: Policy): real
    requires policy.baselineP95.Some?
  {
    policy.baselineP95.value * (1.0 + policy.relativeLimit)
  }

  /** The limits a comparison needs are numbers; without percentiles nothing is compared with the
      absolute one. */
  predicate Comparable(ss: seq<Summary>, policy: Policy) {
    policy.baselineP95.Some? && (P95s(ss) != [] ==> policy.absoluteP95.Some?)
  }

  /** The verdict of a policy whose limits can be compared with. */
  function Judge(ss: seq<Summary>, policy: Policy): Verdict
    requires Comparable(ss, policy)
  {
    if !Complete(ss) then Incomplete
    else if (policy.absoluteP95.Some? && exists v | v in P95s(ss) :: v > policy.absoluteP95.value as real) ||
            Sustained(Breaches(ss, Relative(policy)), policy.consecutive) then Regressed
    else WithinBudget
  }

  // ----- runs of breaches ------------------------------------------------------------------

  /** How many consecutive breaches a history ends with. */
  function Trailing(breaches: seq<bool>): (n: nat)
    ensures n <= |breaches|
  {
    if breaches == [] || !breaches[|breaches| - 1] then 0 else 1 + Trailing(breaches[..|breaches| - 1])
  }

  /** The longest run of consecutive breaches. */
  function LongestRun(breaches: seq<bool>): nat {
    if breaches == [] then 0
    else
      var before := LongestRun(breaches[..|breaches| - 1]);
      if before < Trailing(breaches) then Trailing(breaches) else before
  }

  lemma {:induction false} TrailingIsWindow(breaches: seq<bool>, width: nat)
    ensures Trailing(breaches) >= width <==> |breaches| >= width && Window(breaches, |breaches| - width, width)
  {
    if breaches != [] && width > 0 {
      var n := |breaches| - 1;
      TrailingIsWindow(breaches[..n], width - 1);
      if |breaches| >= width {
        if Window(breaches, |breaches| - width, width) {
          assert breaches[n] && Window(breaches[..n], n - (width - 1), width - 1);
        }
        if breaches[n] && Window(breaches[..n], n - (width - 1), width - 1) {
          forall j | |breaches| - width <= j < |breaches| ensures breaches[j] {
            if j < n { assert breaches[..n][j]; }
          }
        }
      }
    }
  }

  /** A window of a history is a window of its beginning or stands at its end. */
  lemma WindowsOfPrefix(breaches: seq<bool>, width: nat)
    requires breaches != []
    ensures Sustained(breaches, width) <==>
              Sustained(breaches[..|breaches| - 1], width) ||
              (|breaches| >= width && Window(breaches, |breaches| - width, width))
  {
    var n := |breaches| - 1;
    forall i: nat | i + width <= n ensures Window(breaches[..n], i, width) <==> Window(breaches, i, width) {
      if Window(breaches[..n], i, width) {
        forall j | i <= j < i + width ensures breaches[j] { assert breaches[..n][j]; }
      }
    }
    if i :| 0 <= i <= |breaches| - width && Window(breaches, i, width) {
      if i + width <= n { assert Window(breaches[..n], i, width); }
    }
    if i :| 0 <= i <= n - width && Window(breaches[..n], i, width) {
      assert Window(breaches, i, width);
    }
  }

  /** The windowed test holds exactly when some run of consecutive breaches is that long. */
  lemma {:induction false} SustainedIsRun(breaches: seq<bool>, width: nat)
    ensures Sustained(breaches, width) <==> LongestRun(breaches) >= width
  {
    if breaches == [] {
      if width == 0 { assert Window(breaches, 0, 0); }
    } else {
      SustainedIsRun(breaches[..|breaches| - 1], width);
      TrailingIsWindow(breaches, width);
      WindowsOfPrefix(breaches, width);
    }
  }

  // ----- a baseline judged by its own budget ----------------------------------------------------

  lemma CeilBounds(x: real)
    ensures x <= Ceil(x) as real < x + 1.0
  {
  }

  lemma {:induction false} P95sAre(ss: seq<Summary>)
    ensures forall v :: v in P95s(ss) <==> exists s | s in ss :: s.p95 == Some(v)
  {
    if ss != [] {
      P95sAre(ss[1..]);
      assert ss == [ss[0]] + ss[1..];
    }
  }

  lemma {:induction false} SummariesAreNonNegative(runs: seq<Repetition>)
    requires SummarizeAll(runs).Ok?
    ensures forall s | s in SummarizeAll(runs).value && s.p95.Some? :: s.p95.value >= 0.0
  {
    if runs != [] {
      SummariesAreNonNegative(runs[1..]);
      if runs[0].elapsedMs.Some? {
        ReportIsConsistent(runs[0].samples, runs[0].elapsedMs.value);
      }
    }
  }

  lemma RelativeIsAbove(policy: Policy)
    requires policy.baselineP95.Some? && policy.baselineP95.value >= 0.0 && policy.relativeLimit == 0.20
    ensures Relative(policy) >= policy.baselineP95.value
  {
    assert policy.baselineP95.value * (1.0 + 0.20) == policy.baselineP95.value + policy.baselineP95.value * 0.20;
  }

  lemma CompleteWithinBudget(ss: seq<Summary>)
    requires Complete(ss) && ss != [] && forall s | s in ss && s.p95.Some? :: s.p95.value >= 0.0
    ensures P95s(ss) != [] && Judge(ss, Freeze(ss).value) == WithinBudget
  {
    hide Relative, Ceil, Breaches;
    P95sAre(ss);
    assert ss[0] in ss;
    assert ss[0].p95.value in P95s(ss);
    var policy, top := Freeze(ss).value, MaxOf(P95s(ss));
    CeilBounds(top * 1.5);
    RelativeIsAbove(policy);
    BreachesAre(ss, Relative(policy));
    NoBreachNotSustained(Breaches(ss, Relative(policy)), 2);
  }

  lemma BreachesAre(ss: seq<Summary>, relative: real)
    requires forall s | s in ss :: s.p95.Some? && s.p95.value <= relative
    ensures forall i | 0 <= i < |Breaches(ss, relative)| :: !Breaches(ss, relative)[i]
  {
    forall i | 0 <= i < |ss| ensures !Breaches(ss, relative)[i] {
      assert ss[i] in ss;
    }
  }

  /** A complete baseline with at least one repetition, judged by the policy frozen from it, is within
      its own budget; without repetitions it freezes a budget with no limits to compare against. */
  lemma BaselineIsWithinItsBudget(runs: seq<Repetition>)
    requires SummarizeAll(runs).Ok?
    ensures var ss := SummarizeAll(runs).value; var policy := Freeze(ss);
            (policy.Some? <==> Complete(ss)) &&
            (Complete(ss) ==>
              (policy.value.absoluteP95.Some? <==> runs != []) && (policy.value.baselineP95.Some? <==> runs != []) &&
              (runs != [] ==> Judge(ss, policy.value) == WithinBudget))
  {
    hide Judge;
    var ss := SummarizeAll(runs).value;
    SummariesAreNonNegative(runs);
    if Complete(ss) && runs != [] {
      CompleteWithinBudget(ss);
    }
  }

  lemma NoBreachNotSustained(breaches: seq<bool>, width: nat)
    requires width > 0 && forall i | 0 <= i < |breaches| :: !breaches[i]
    ensures !Sustained(breaches, width)
  {
    forall i: nat | i + width <= |breaches| ensures !Window(breaches, i, width) {
      assert !breaches[i];
    }
  }

  /** What a verdict means: complete measurements regress exactly when a repetition exceeds the absolute
      limit or the relative limit is exceeded in as many consecutive repetitions as the policy says. */
  lemma VerdictMeans(ss: seq<Summary>, policy: Policy)
    requires Comparable(ss, policy)
    ensures Judge(ss, policy) == Incomplete <==> !Complete(ss)
    ensures Complete(ss) ==>
              (Judge(ss, policy) == Regressed <==>
                (exists s | s in ss :: policy.absoluteP95.Some? && s.p95.value > policy.absoluteP95.value as real) ||
                LongestRun(Breaches(ss, Relative(policy))) >= policy.consecutive)
  {
    P95sAre(ss);
    SustainedIsRun(Breaches(ss, Relative(policy)), policy.consecutive);
    if Complete(ss) {
      forall s | s in ss ensures s.p95.Some? && s.p95.value in P95s(ss) {
        var v := s.p95.value;
        assert s in ss && s.p95 == Some(v);
      }
    }
  }

  // ----- the calibration loop ------------------------------------------------------------------------

  datatype WorkloadReport = WorkloadReport(
    summaries: seq<Summary>, complete: bool, p95Max: Option<real>, proposed: Option<int>, verdict: Option<Verdict>)

  /** An error of the measurements, or a null limit that cannot be compared. */
  datatype CalibrationError = BadMeasurement(cause: LatencyError) | NullLimit

  function CalibrateOne(runs: seq<Repetition>, policy: Option<Policy>): Result<WorkloadReport, CalibrationError> {
    var all := SummarizeAll(runs);
    if all.Err? then Err(BadMeasurement(all.error))
    else
      var ss := all.value;
      var p, complete := P95s(ss), Complete(ss);
      if policy.Some? && !Comparable(ss, policy.value) then Err(NullLimit)
      else
        Ok(WorkloadReport(ss, complete, if p != [] then Some(MaxOf(p)) else None,
                          if p != [] && complete then Some(Ceil(MaxOf(p) * 1.5)) else None,
                          if policy.Some? then Some(Judge(ss, policy.value)) else None))
  }

  method SummarizeRuns(runs: seq<Repetition>) returns (r: Result<seq<Summary>, LatencyError>)
    ensures r == SummarizeAll(runs)
  {
    hide CountOf, ReportOf, FirstError;
    var ss: seq<Summary> := [];
    ghost var all := SummarizeAll(runs);
    assert all.Ok? ==> [] + all.value == all.value;
    for i := 0 to |runs|
      invariant var rest := SummarizeAll(runs[i..]);
                all == if rest.Ok? then Ok(ss + rest.value) else rest
    {
      assert runs[i..][1..] == runs[i + 1..];
      var next: Summary;
      if runs[i].elapsedMs.None? {
        next := Summary(|runs[i].samples|, CountOf(runs[i].samples, Passed), None);
      } else {
        var report := LatencyReport(runs[i].samples, runs[i].elapsedMs.value);
        if report.Err? { return Err(report.error); }
        next := Summary(report.value.offered, report.value.correct, report.value.p95);
      }
      ghost var rest := SummarizeAll(runs[i + 1..]);
      assert rest.Ok? ==> ss + ([next] + rest.value) == ss + [next] + rest.value;
      ss := ss + [next];
    }
    assert ss + [] == ss;
    r := Ok(ss);
  }

  /** The measurements by workload name, in reading order; a dictionary has each name once. */
  type Measurements = ms: seq<(string, seq<Repetition>)> | forall i, j | 0 <= i < j < |ms| :: ms[i].0 != ms[j].0

  /** The policy's limits for a workload; a workload without limits cannot be judged. */
  function LimitsFor(policies: Option<map<string, Policy>>, name: string): Option<Policy> {
    if policies.None? then None
    else if name in policies.value then Some(policies.value[name])
    else Some(Policy(None, None, 0.20, 2))
  }

  /** Every workload is reported, each on its own; the first failure is the result. */
  method Calibration(measurements: Measurements, policies: Option<map<string, Policy>>)
    returns (r: Result<map<string, WorkloadReport>, CalibrationError>)
    ensures r.Ok? <==>
              forall m | m in measurements :: CalibrateOne(m.1, LimitsFor(policies, m.0)).Ok?
    ensures r.Ok? ==>
              r.value.Keys == (set m | m in measurements :: m.0) &&
              forall m | m in measurements :: Ok(r.value[m.0]) == CalibrateOne(m.1, LimitsFor(policies, m.0))
  {
    hide Judge, Complete, Ceil;
    var report: map<string, WorkloadReport> := map[];
    for i := 0 to |measurements|
      invariant report.Keys == set m | m in measurements[..i] :: m.0
      invariant forall j | 0 <= j < i ::
                  measurements[j].0 in report &&
                  Ok(report[measurements[j].0]) == CalibrateOne(measurements[j].1, LimitsFor(policies, measurements[j].0))
    {
      var (name, runs) := measurements[i];
      assert measurements[i] in measurements && measurements[i] == (name, runs);
      assert measurements[..i + 1] == measurements[..i] + [measurements[i]];
      var policy := LimitsFor(policies, name);
      var summaries := SummarizeRuns(runs);
      if summaries.Err? { return Err(BadMeasurement(summaries.error)); }
      var ss := summaries.value;
      if policy.Some? && !Comparable(ss, policy.value) { return Err(NullLimit); }
      var p, complete := P95s(ss), Complete(ss);
      report := report[name := WorkloadReport(ss, complete, if p != [] then Some(MaxOf(p)) else None,
                                              if p != [] && complete then Some(Ceil(MaxOf(p) * 1.5)) else None,
                                              if policy.Some? then Some(Judge(ss, policy.value)) else None)];
    }
    assert measurements[..|measurements|] == measurements;
    r := Ok(report);
  }

  // ----- what is judged ---------------------------------------------------------------

  /** A report is made exactly of at least one sample, all with proper durations, over a positive time. */
  lemma ReportedWhen(samples: seq<Sample>, elapsedMs: real)
    ensures Reported(samples, elapsedMs).Ok? <==>
              samples != [] && elapsedMs > 0.0 &&
              forall s | s in samples ::
                (s.durationMs.Some? ==> s.durationMs.value >= 0.0) && (s.outcome == Passed ==> s.durationMs.Some?)
  {
  }

  /** Good work per second, times the seconds, is the correct requests. */
  lemma GoodputMeans(correct: nat, elapsedMs: real)
    requires elapsedMs > 0.0
    ensures Goodput(correct, elapsedMs) * elapsedMs == correct as real * 1000.0
  {
  }

  /** What is judged of a repetition is the nearest-rank 95th percentile of its passed samples; a repetition
      that was never measured has none. */
  lemma SummaryIsReport(r: Repetition)
    requires Summarize(r).Ok?
    ensures Summarize(r).value.offered == |r.samples| && Summarize(r).value.correct == CountOf(r.samples, Passed)
    ensures r.elapsedMs.None? ==> Summarize(r).value.p95.None?
    ensures r.elapsedMs.Some? ==>
              (forall s | s in r.samples :: GoodSample(s)) &&
              var good := GoodDurations(r.samples); var p95 := Summarize(r).value.p95;
              (good == [] <==> p95.None?) &&
              (good != [] ==>
                NearestRank(good, (19 * |good| + 19) / 20, p95.value))
  {
    if r.elapsedMs.Some? {
      ReportIsConsistent(r.samples, r.elapsedMs.value);
      hide ReportOf, NearestRank, GoodDurations, FirstError;
    }
  }

  lemma {:induction false} CountsAll(samples: seq<Sample>)
    ensures CountOf(samples, Passed) <= |samples|
    ensures CountOf(samples, Passed) == |samples| <==> forall s | s in samples :: s.outcome == Passed
  {
    if samples != [] {
      var n := |samples| - 1;
      CountsAll(samples[..n]);
      assert samples == samples[..n] + [samples[n]];
    }
  }

  lemma SummaryIsComplete(r: Repetition)
    requires Summarize(r).Ok?
    ensures Summarize(r).value.correct == Summarize(r).value.offered && Summarize(r).value.p95.Some? <==>
              r.elapsedMs.Some? && forall s | s in r.samples :: s.outcome == Passed
  {
    SummaryIsReport(r);
    CountsAll(r.samples);
    if r.elapsedMs.Some? {
      CorrectIsPassed(r.samples);
      assert r.samples != [];
    }
    hide Summarize, CountOf, NearestRank, GoodDurations;
  }

  lemma {:induction false} SummariesAt(runs: seq<Repetition>, i: nat)
    requires SummarizeAll(runs).Ok? && i < |runs|
    ensures Summarize(runs[i]) == Ok(SummarizeAll(runs).value[i])
  {
    if i > 0 { SummariesAt(runs[1..], i - 1); }
  }

  /** A measurement is complete exactly when every repetition was measured and every sample of it passed. */
  lemma CompleteMeans(runs: seq<Repetition>)
    requires SummarizeAll(runs).Ok?
    ensures Complete(SummarizeAll(runs).value) <==>
              forall r | r in runs :: r.elapsedMs.Some? && forall s | s in r.samples :: s.outcome == Passed
  {
    var ss := SummarizeAll(runs).value;
    hide Summarize, SummarizeAll;
    forall i | 0 <= i < |runs|
      ensures ss[i].correct == ss[i].offered && ss[i].p95.Some? <==>
                runs[i].elapsedMs.Some? && forall s | s in runs[i].samples :: s.outcome == Passed
    {
      SummariesAt(runs, i);
      SummaryIsComplete(runs[i]);
    }
    if Complete(ss) {
      forall r | r in runs ensures r.elapsedMs.Some? && forall s | s in r.samples :: s.outcome == Passed {
        var i :| 0 <= i < |runs| && runs[i] == r;
        assert ss[i] in ss;
      }
    } else {
      var x :| x in ss && !(x.correct == x.offered && x.p95.Some?);
      var i :| 0 <= i < |ss| && ss[i] == x;
      assert runs[i] in runs;
    }
  }

  /** The frozen limits: half as much again as the greatest percentile, rounded up to a whole millisecond, and a
      fifth above it in two consecutive repetitions. */
  lemma FrozenLimits(ss: seq<Summary>, m: real)
    requires Complete(ss) && m in P95s(ss) && forall v | v in P95s(ss) :: v <= m
    ensures Freeze(ss).Some? && Freeze(ss).value.absoluteP95.Some? && Freeze(ss).value.baselineP95 == Some(m)
    ensures var a := Freeze(ss).value.absoluteP95.value; 2.0 * a as real - 2.0 < 3.0 * m <= 2.0 * a as real
    ensures Freeze(ss).value.consecutive == 2 && 5.0 * Relative(Freeze(ss).value) == 6.0 * m
  {
    assert P95s(ss) != [];
    assert MaxOf(P95s(ss)) == m;
    CeilBounds(m * 1.5);
  }

  /** A calibration proposes what freezing would set. */
  lemma CalibrationProposes(runs: seq<Repetition>, policy: Option<Policy>)
    requires CalibrateOne(runs, policy).Ok? && runs != []
    ensures var r := CalibrateOne(runs, policy).value; var ss := r.summaries;
            SummarizeAll(runs) == Ok(ss) && r.complete == Complete(ss) && (r.verdict.Some? <==> policy.Some?) &&
            (r.complete ==> r.proposed == Freeze(ss).value.absoluteP95 && r.p95Max == Freeze(ss).value.baselineP95) &&
            (!r.complete ==> r.proposed.None?)
  {
    hide Judge, Complete, SummarizeAll, Ceil;
  }
}
