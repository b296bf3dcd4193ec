/** The gate that decides whether a converter configuration may replace the
    current one, from measured results.  Times and sizes are whole numbers, as
    stored; ratios are real. */
module PromotionGate {
  import opened Prelude
  import opened Sorting

  datatype Outcome = Success | Failure | Timeout

  datatype BenchmarkResult = BenchmarkResult(
    candidateId: string, documentId: string, outcome: Option<Outcome>, peakResidentBytes: Option<nat>,
    qualityPassed: Option<bool>, repetition: nat, totalWallMs: Option<nat>)

  // --------------------------------------------------------------- percentiles

  function Ceil(x: real): int { -((-x).Floor) }

  predicate AtMost(a: nat, b: nat) { a <= b }

  /** The position of a percentile among n sorted values, counted from one. */
  function RankOf(n: nat, p: real): (rank: int)
    ensures rank >= 1 && rank as real >= p * n as real
    ensures rank > 1 ==> (rank - 1) as real < p * n as real
  {
    Max(1, Ceil(p * n as real))
  }

  function IndexOf(n: nat, p: real): (index: nat)
    ensures index == RankOf(n, p) - 1
  {
    Max(0, Ceil(p * n as real) - 1)
  }

  function PercentileOrNull(values: seq<nat>, p: real): Option<nat> {
    if values == [] then None
    else
      var sorted := Sort(AtMost, values);
      var index := IndexOf(|sorted|, p);
      if index < |sorted| then Some(sorted[index]) else None
  }

  function Count<T>(s: seq<T>, p: T -> bool): nat {
    if s == [] then 0 else Count(s[..|s| - 1], p) + (if p(s[|s| - 1]) then 1 else 0)
  }

  lemma {:induction false} CountJoins<T>(a: seq<T>, b: seq<T>, p: T -> bool)
    ensures Count(a + b, p) == Count(a, p) + Count(b, p)
  {
    if b == [] {
      assert a + b == a;
    } else {
      CountJoins(a, b[..|b| - 1], p);
      assert (a + b)[..|a + b| - 1] == a + b[..|b| - 1];
    }
  }

  lemma {:induction false} CountOne<T>(x: T, s: seq<T>, p: T -> bool)
    ensures Count([x] + s, p) == (if p(x) then 1 else 0) + Count(s, p)
  {
    CountJoins([x], s, p);
    assert [x][..0] == [];
  }

  lemma {:induction false} CountInsert<T>(leq: (T, T) -> bool, x: T, s: seq<T>, p: T -> bool)
    ensures Count(Insert(leq, x, s), p) == (if p(x) then 1 else 0) + Count(s, p)
  {
    CountOne(x, s, p);
    if s != [] && !leq(x, s[0]) {
      CountInsert(leq, x, s[1..], p);
      CountOne(s[0], Insert(leq, x, s[1..]), p);
      CountOne(s[0], s[1..], p);
      assert [s[0]] + s[1..] == s;
    }
  }

  lemma {:induction false} CountSort<T>(leq: (T, T) -> bool, s: seq<T>, p: T -> bool)
    ensures Count(Sort(leq, s), p) == Count(s, p)
  {
    if s != [] {
      CountSort(leq, s[1..], p);
      CountInsert(leq, s[0], Sort(leq, s[1..]), p);
      CountOne(s[0], s[1..], p);
      assert [s[0]] + s[1..] == s;
    }
  }

  lemma {:induction false} CountIsBounded<T>(s: seq<T>, p: T -> bool)
    ensures Count(s, p) <= |s|
  {
    if s != [] {
      CountIsBounded(s[..|s| - 1], p);
    }
  }

  lemma {:induction false} CountAll<T>(s: seq<T>, p: T -> bool)
    requires forall i | 0 <= i < |s| :: p(s[i])
    ensures Count(s, p) == |s|
  {
    if s != [] {
      CountAll(s[..|s| - 1], p);
    }
  }

  lemma {:induction false} CountNone<T>(s: seq<T>, p: T -> bool)
    requires forall i | 0 <= i < |s| :: !p(s[i])
    ensures Count(s, p) == 0
  {
    if s != [] {
      CountNone(s[..|s| - 1], p);
    }
  }

  function Below(v: nat): nat -> bool { x => x < v }

  function UpTo(v: nat): nat -> bool { x => x <= v }

  /** In a sorted sequence the values up to the one at k are at most that. */
  lemma SortedUpTo(s: seq<nat>, k: nat)
    requires SortedBy(AtMost, s) && k < |s|
    ensures Count(s, UpTo(s[k])) >= k + 1
  {
    assert s == s[..k + 1] + s[k + 1..];
    CountJoins(s[..k + 1], s[k + 1..], UpTo(s[k]));
    var first := s[..k + 1];
    forall i | 0 <= i < |first|
      ensures UpTo(s[k])(first[i])
    {
      assert i < k ==> AtMost(s[i], s[k]);
    }
    CountAll(first, UpTo(s[k]));
  }

  /** Only the first k values of a sorted sequence can be below the one at k. */
  lemma SortedBelow(s: seq<nat>, k: nat)
    requires SortedBy(AtMost, s) && k < |s|
    ensures Count(s, Below(s[k])) <= k
  {
    assert s == s[..k] + s[k..];
    CountJoins(s[..k], s[k..], Below(s[k]));
    var rest := s[k..];
    forall i | 0 <= i < |rest|
      ensures !Below(s[k])(rest[i])
    {
      assert i > 0 ==> AtMost(s[k], s[k + i]);
    }
    CountIsBounded(s[..k], Below(s[k]));
    CountNone(rest, Below(s[k]));
  }

  /** The value that has rank values at most it, and fewer than rank below it. */
  predicate HasRank(values: seq<nat>, v: nat, rank: int) {
    v in values && Count(values, Below(v)) < rank <= Count(values, UpTo(v))
  }

  lemma RankIsInRange(n: nat, p: real)
    requires n > 0 && 0.0 <= p <= 1.0
    ensures 1 <= RankOf(n, p) <= n
  {
    assert p * n as real <= n as real;
  }

  lemma PercentileHasRank(values: seq<nat>, p: real)
    requires values != [] && 0.0 <= p <= 1.0
    ensures PercentileOrNull(values, p).Some?
    ensures HasRank(values, PercentileOrNull(values, p).value, RankOf(|values|, p))
  {
    RankIsInRange(|values|, p);
    SortPermutes(AtMost, values);
    ElementHasRank(values, RankOf(|values|, p) - 1);
  }

  lemma ElementHasRank(values: seq<nat>, k: nat)
    requires k < |Sort(AtMost, values)|
    ensures HasRank(values, Sort(AtMost, values)[k], k + 1)
  {
    var sorted := Sort(AtMost, values);
    SortKeepsElements(AtMost, values);
    SortSorts(AtMost, values);
    assert sorted[k] in sorted;
    CountSort(AtMost, values, Below(sorted[k]));
    CountSort(AtMost, values, UpTo(sorted[k]));
    SortedUpTo(sorted, k);
    SortedBelow(sorted, k);
  }

  /** The percentile is the nearest-rank value, and no other value is. */
  lemma PercentileIsNearestRank(values: seq<nat>, p: real)
    requires values != [] && 0.0 <= p <= 1.0
    ensures forall v: nat :: HasRank(values, v, RankOf(|values|, p)) <==> PercentileOrNull(values, p) == Some(v)
  {
    PercentileHasRank(values, p);
    var v := PercentileOrNull(values, p).value;
    forall w | HasRank(values, w, RankOf(|values|, p))
      ensures w == v
    {
      RankIsUnique(values, v, w, RankOf(|values|, p));
      RankIsUnique(values, w, v, RankOf(|values|, p));
    }
  }

  lemma RankIsUnique(values: seq<nat>, v: nat, w: nat, rank: int)
    requires HasRank(values, v, rank) && HasRank(values, w, rank)
    ensures v >= w
  {
    if v < w {
      CountGrows(values, values, UpTo(v), Below(w));
    }
  }

  lemma {:induction false} CountGrows<T>(a: seq<T>, b: seq<T>, p: T -> bool, q: T -> bool)
    requires |a| == |b| && forall i | 0 <= i < |a| :: p(a[i]) ==> q(b[i])
    ensures Count(a, p) <= Count(b, q)
  {
    if a != [] {
      CountGrows(a[..|a| - 1], b[..|b| - 1], p, q);
    }
  }

  // -------------------------------------------------------------- improvements

  function CalculateImprovement(baseline: Option<nat>, candidate: Option<nat>): Option<real> {
    if baseline.None? || candidate.None? || baseline.value == 0 then None
    else Some((baseline.value as real - candidate.value as real) / baseline.value as real)
  }

  function CalculateRegression(baseline: Option<nat>, candidate: Option<nat>): Option<real> {
    if baseline.None? || candidate.None? || baseline.value == 0 then None
    else Some((candidate.value as real - baseline.value as real) / baseline.value as real)
  }

  lemma ImprovementMeans(baseline: nat, candidate: nat, threshold: real)
    requires baseline > 0
    ensures CalculateImprovement(Some(baseline), Some(candidate)).value >= threshold
       <==> candidate as real <= (1.0 - threshold) * baseline as real
  {
    var b, c := baseline as real, candidate as real;
    var r := (b - c) / b;
    assert r * b == b - c;
    if r >= threshold {
      assert (r - threshold) * b >= 0.0;
    } else {
      assert (threshold - r) * b > 0.0;
    }
  }

  ghost predicate Improves(baseline: nat, candidate: nat, threshold: real) {
    && CalculateImprovement(Some(baseline), Some(candidate)).Some?
    && CalculateImprovement(Some(baseline), Some(candidate)).value >= threshold
  }

  /** Improving every repetition improves every percentile of them: if each
      time is better by some ratio then so is the value at each rank. */
  lemma PercentileImproves(baseline: seq<nat>, candidate: seq<nat>, p: real, threshold: real)
    requires |baseline| == |candidate| > 0 && 0.0 <= p <= 1.0
    requires forall i | 0 <= i < |baseline| :: Improves(baseline[i], candidate[i], threshold)
    ensures var b, c := PercentileOrNull(baseline, p), PercentileOrNull(candidate, p);
      b.Some? && c.Some? && Improves(b.value, c.value, threshold)
  {
    PercentileHasRank(baseline, p);
    PercentileHasRank(candidate, p);
    var b, c := PercentileOrNull(baseline, p).value, PercentileOrNull(candidate, p).value;
    forall i | 0 <= i < |baseline| && baseline[i] <= b
      ensures Within((1.0 - threshold) * b as real)(candidate[i])
    {
      ImprovementScales(baseline[i], candidate[i], b, threshold);
    }
    RankStaysWithin(baseline, candidate, b, c, RankOf(|baseline|, p), (1.0 - threshold) * b as real);
    var at :| 0 <= at < |baseline| && baseline[at] == b;
    assert Improves(baseline[at], candidate[at], threshold);
    ImprovementMeans(b, c, threshold);
  }

  lemma ImprovementScales(baseline: nat, candidate: nat, b: nat, threshold: real)
    requires Improves(baseline, candidate, threshold) && baseline <= b
    ensures candidate as real <= (1.0 - threshold) * b as real
  {
    ImprovementMeans(baseline, candidate, threshold);
  }

  function Within(bound: real): nat -> bool { x => x as real <= bound }

  /** If whatever goes with a value up to b is within a bound, then the value
      of the rank of b is within it. */
  lemma RankStaysWithin(baseline: seq<nat>, candidate: seq<nat>, b: nat, c: nat, rank: int, bound: real)
    requires |baseline| == |candidate| && HasRank(baseline, b, rank) && HasRank(candidate, c, rank)
    requires forall i | 0 <= i < |baseline| && baseline[i] <= b :: Within(bound)(candidate[i])
    ensures c as real <= bound
  {
    CountGrows(baseline, candidate, UpTo(b), Within(bound));
    if c as real > bound {
      CountGrows(candidate, candidate, Within(bound), Below(c));
    }
  }

  // --------------------------------------------------------- reading the results

  function Select(results: seq<BenchmarkResult>, candidateId: string): seq<BenchmarkResult> {
    if results == [] then []
    else
      var n := |results| - 1;
      Select(results[..n], candidateId) + (if results[n].candidateId == candidateId then [results[n]] else [])
  }

  method SelectFinalResults(results: seq<BenchmarkResult>, candidateId: string)
    returns (selected: seq<BenchmarkResult>)
    ensures selected == Select(results, candidateId)
  {
    selected := [];
    for i := 0 to |results|
      invariant selected == Select(results[..i], candidateId)
    {
      assert results[..i + 1][..i] == results[..i];
      if results[i].candidateId == candidateId {
        selected := selected + [results[i]];
      }
    }
    assert results[..|results|] == results;
  }

  /** The measurements of one kind that successful results have. */
  function Measured(results: seq<BenchmarkResult>, field: BenchmarkResult -> Option<nat>): seq<nat> {
    if results == [] then []
    else
      var n := |results| - 1;
      var value := field(results[n]);
      Measured(results[..n], field)
      + (if results[n].outcome == Some(Success) && value.Some? then [value.value] else [])
  }

  method ReadSuccessfulMeasurements(results: seq<BenchmarkResult>, field: BenchmarkResult -> Option<nat>)
    returns (values: seq<nat>)
    ensures values == Measured(results, field)
  {
    values := [];
    for i := 0 to |results|
      invariant values == Measured(results[..i], field)
    {
      assert results[..i + 1][..i] == results[..i];
      var value := field(results[i]);
      if results[i].outcome == Some(Success) && value.Some? {
        values := values + [value.value];
      }
    }
    assert results[..|results|] == results;
  }

  function DocumentIds(results: seq<BenchmarkResult>): set<string> {
    set i | 0 <= i < |results| && results[i].outcome == Some(Success) :: results[i].documentId
  }

  method ReadSuccessfulDocumentIds(results: seq<BenchmarkResult>) returns (ids: set<string>)
    ensures ids == DocumentIds(results)
  {
    ids := {};
    for i := 0 to |results|
      invariant ids == set k | 0 <= k < i && results[k].outcome == Some(Success) :: results[k].documentId
    {
      if results[i].outcome == Some(Success) {
        ids := ids + {results[i].documentId};
      }
    }
  }

  // ------------------------------------------------- the time of whole repetitions

  predicate Timed(r: BenchmarkResult) { r.outcome == Some(Success) && r.totalWallMs.Some? }

  function Of(repetition: nat): BenchmarkResult -> bool { (r: BenchmarkResult) => r.repetition == repetition }

  function Wall(r: BenchmarkResult): nat { if r.totalWallMs.Some? then r.totalWallMs.value else 0 }

  /** The time that the results of one repetition took together. */
  function TotalOf(results: seq<BenchmarkResult>, repetition: nat): nat {
    if results == [] then 0
    else
      var n := |results| - 1;
      TotalOf(results[..n], repetition) + (if results[n].repetition == repetition then Wall(results[n]) else 0)
  }

  /** Every result is a success with a time, every repetition has one result
      for each expected document, and there are no other repetitions. */
  predicate Complete(results: seq<BenchmarkResult>, documents: nat, repetitions: nat) {
    && (forall i | 0 <= i < |results| :: Timed(results[i]) && 1 <= results[i].repetition <= repetitions)
    && (forall r | 1 <= r <= repetitions :: 0 < Count(results, Of(r)) == documents)
  }

  datatype Tally = Tally(count: nat, totalWallMs: nat)

  ghost predicate Tallied(totals: map<nat, Tally>, results: seq<BenchmarkResult>) {
    && (forall r :: r in totals <==> Count(results, Of(r)) > 0)
    && (forall r | r in totals :: totals[r] == Tally(Count(results, Of(r)), TotalOf(results, r)))
  }

  method TallyRepetitions(results: seq<BenchmarkResult>) returns (totals: Option<map<nat, Tally>>)
    ensures totals.Some? <==> forall i | 0 <= i < |results| :: Timed(results[i])
    ensures totals.Some? ==> Tallied(totals.value, results)
  {
    var tally: map<nat, Tally> := map[];
    for i := 0 to |results|
      invariant forall k | 0 <= k < i :: Timed(results[k])
      invariant Tallied(tally, results[..i])
    {
      assert results[..i + 1][..i] == results[..i];
      var r := results[i];
      if !Timed(r) {
        return None;
      }
      TotalWithoutResults(results[..i], r.repetition);
      var current := if r.repetition in tally then tally[r.repetition] else Tally(0, 0);
      tally := tally[r.repetition := Tally(current.count + 1, current.totalWallMs + r.totalWallMs.value)];
    }
    assert results[..|results|] == results;
    totals := Some(tally);
  }

  lemma {:induction false} TotalWithoutResults(results: seq<BenchmarkResult>, repetition: nat)
    ensures Count(results, Of(repetition)) == 0 ==> TotalOf(results, repetition) == 0
  {
    if results != [] {
      TotalWithoutResults(results[..|results| - 1], repetition);
    }
  }

  method ReadFullCorpusWallTimes(results: seq<BenchmarkResult>, documents: nat, repetitions: nat)
    returns (times: Option<seq<nat>>)
    ensures times == if Complete(results, documents, repetitions) then Some(CorpusTimes(results, repetitions)) else None
  {
    var tallied := TallyRepetitions(results);
    if tallied.None? {
      return None;
    }
    var totals := tallied.value;
    var ordered: seq<nat> := [];
    for repetition := 1 to repetitions + 1
      invariant ordered == CorpusTimes(results, repetition - 1)
      invariant forall r | 1 <= r < repetition :: r in totals && totals[r].count == documents
    {
      if repetition !in totals || totals[repetition].count != documents {
        return None;
      }
      ordered := ordered + [totals[repetition].totalWallMs];
    }
    NoOtherRepetitions(totals, results, repetitions);
    if |totals| != repetitions {
      return None;
    }
    times := Some(ordered);
  }

  function CorpusTimes(results: seq<BenchmarkResult>, repetitions: nat): seq<nat> {
    seq(repetitions, i requires 0 <= i < repetitions => TotalOf(results, i + 1))
  }

  function UpToNumber(n: nat): (numbers: set<nat>)
    ensures forall r :: r in numbers <==> 1 <= r <= n
    ensures |numbers| == n
  {
    if n == 0 then {} else UpToNumber(n - 1) + {n}
  }

  lemma EqualSize<T>(a: set<T>, b: set<T>)
    requires a <= b && |a| >= |b|
    ensures a == b
  {
    assert b == a + (b - a);
  }

  lemma {:induction false} CountFinds<T>(s: seq<T>, p: T -> bool)
    ensures Count(s, p) > 0 <==> exists i | 0 <= i < |s| :: p(s[i])
  {
    if s != [] {
      var n := |s| - 1;
      CountFinds(s[..n], p);
      if i :| 0 <= i < n && p(s[..n][i]) {
        assert p(s[i]);
      }
      if i :| 0 <= i < |s| && p(s[i]) && i < n {
        assert p(s[..n][i]);
      }
    }
  }

  /** Where all repetitions are there, counting them shows if there are others. */
  lemma NoOtherRepetitions(totals: map<nat, Tally>, results: seq<BenchmarkResult>, repetitions: nat)
    requires Tallied(totals, results) && forall r | 1 <= r <= repetitions :: r in totals
    ensures |totals| == repetitions <==> forall i | 0 <= i < |results| :: 1 <= results[i].repetition <= repetitions
  {
    assert |totals.Keys| == |totals|;
    if |totals| == repetitions {
      EqualSize(UpToNumber(repetitions), totals.Keys);
      forall i | 0 <= i < |results|
        ensures 1 <= results[i].repetition <= repetitions
      {
        CountFinds(results, Of(results[i].repetition));
        assert Of(results[i].repetition)(results[i]);
        assert results[i].repetition in UpToNumber(repetitions);
      }
    }
    if forall i | 0 <= i < |results| :: 1 <= results[i].repetition <= repetitions {
      forall r | r in totals
        ensures r in UpToNumber(repetitions)
      {
        CountFinds(results, Of(r));
      }
      assert totals.Keys == UpToNumber(repetitions);
    }
  }

  function TotalWall(results: seq<BenchmarkResult>): nat {
    if results == [] then 0 else TotalWall(results[..|results| - 1]) + Wall(results[|results| - 1])
  }

  function SumTo(results: seq<BenchmarkResult>, n: nat): nat {
    if n == 0 then 0 else SumTo(results, n - 1) + TotalOf(results, n)
  }

  /** The repetitions account for all the time that was measured, once. */
  lemma {:induction false} TimeIsConserved(results: seq<BenchmarkResult>, repetitions: nat)
    requires forall i | 0 <= i < |results| :: 1 <= results[i].repetition <= repetitions
    ensures SumTo(results, repetitions) == TotalWall(results)
  {
    if results == [] {
      NothingToSum(repetitions);
    } else {
      var n := |results| - 1;
      TimeIsConserved(results[..n], repetitions);
      OneMoreResult(results, repetitions);
    }
  }

  lemma {:induction false} NothingToSum(n: nat)
    ensures SumTo([], n) == 0
  {
    if n > 0 {
      NothingToSum(n - 1);
    }
  }

  lemma {:induction false} OneMoreResult(results: seq<BenchmarkResult>, n: nat)
    requires results != [] && results[|results| - 1].repetition >= 1
    ensures var last := results[|results| - 1];
      SumTo(results, n)
      == SumTo(results[..|results| - 1], n) + (if last.repetition <= n then Wall(last) else 0)
  {
    if n > 0 {
      OneMoreResult(results, n - 1);
    }
  }

  // ------------------------------------------------------------------- the gate

  datatype Reason =
    | MissingResults | ConversionFailures | OutputDiffers | DocumentsNotCovered | BaselineIncomplete
    | CandidateIncomplete | MedianTooSlow | RepetitionTooSlow | LatencyRegressed | MemoryRegressed

  datatype Input = Input(
    baselineCandidateId: string, candidateId: string, expectedDocumentCount: nat, p95LatencyRegressionLimit: real,
    peakMemoryRegressionLimit: real, performanceThreshold: real, repetitions: nat, results: seq<BenchmarkResult>)

  predicate AllGood(results: seq<BenchmarkResult>, expected: nat) {
    && |results| == expected
    && (forall i | 0 <= i < |results| :: results[i].outcome == Some(Success) && results[i].qualityPassed == Some(true))
  }

  method RequireCompleteSuccessfulResults(results: seq<BenchmarkResult>, expected: nat) returns (reasons: seq<Reason>)
    ensures reasons == [] <==>
            |results| == expected && forall i | 0 <= i < |results| :: results[i].outcome == Some(Success)
    ensures forall reason :: reason in reasons <==>
              || (reason == MissingResults && |results| != expected)
              || (reason == ConversionFailures && exists i | 0 <= i < |results| :: results[i].outcome != Some(Success))
  {
    reasons := [];
    if |results| != expected {
      reasons := reasons + [MissingResults];
    }
    var failures := 0;
    for i := 0 to |results|
      invariant 0 <= failures
      invariant failures == 0 <==> forall k | 0 <= k < i :: results[k].outcome == Some(Success)
    {
      if results[i].outcome != Some(Success) {
        failures := failures + 1;
      }
    }
    if failures > 0 {
      reasons := reasons + [ConversionFailures];
    }
  }

  method RequireOutputEquivalence(results: seq<BenchmarkResult>) returns (reasons: seq<Reason>)
    ensures reasons == [] <==> forall i | 0 <= i < |results| :: results[i].qualityPassed == Some(true)
    ensures forall reason :: reason in reasons <==>
              reason == OutputDiffers && exists i | 0 <= i < |results| :: results[i].qualityPassed != Some(true)
  {
    var qualityFailures := 0;
    for i := 0 to |results|
      invariant 0 <= qualityFailures
      invariant qualityFailures == 0 <==> forall k | 0 <= k < i :: results[k].qualityPassed == Some(true)
    {
      if results[i].qualityPassed != Some(true) {
        qualityFailures := qualityFailures + 1;
      }
    }
    reasons := if qualityFailures > 0 then [OutputDiffers] else [];
  }

  predicate Meets(improvement: Option<real>, threshold: real) {
    improvement.Some? && improvement.value >= threshold
  }

  predicate Stays(regression: Option<real>, limit: real) {
    regression.Some? && regression.value <= limit
  }

  /** Every repetition of the candidate is faster than the baseline's by the threshold. */
  predicate EveryRepetitionMeets(baseline: seq<nat>, candidate: seq<nat>, threshold: real) {
    && |baseline| == |candidate|
    && forall i | 0 <= i < |baseline| :: Meets(CalculateImprovement(Some(baseline[i]), Some(candidate[i])), threshold)
  }

  method CalculateRepetitionImprovements(baseline: Option<seq<nat>>, candidate: Option<seq<nat>>)
    returns (improvements: Option<seq<real>>)
    ensures improvements.Some? ==> baseline.Some? && candidate.Some?
    ensures baseline.Some? && candidate.Some? ==>
              forall threshold: real ::
                (improvements.Some? && forall i | 0 <= i < |improvements.value| :: improvements.value[i] >= threshold)
                <==> EveryRepetitionMeets(baseline.value, candidate.value, threshold)
  {
    if baseline.None? || candidate.None? || |baseline.value| != |candidate.value| {
      return None;
    }
    var b, c := baseline.value, candidate.value;
    var read: seq<real> := [];
    for index := 0 to |b|
      invariant |read| == index
      invariant forall i | 0 <= i < index :: CalculateImprovement(Some(b[i]), Some(c[i])) == Some(read[i])
    {
      var improvement := CalculateImprovement(Some(b[index]), Some(c[index]));
      if improvement.None? {
        assert forall threshold: real :: !Meets(improvement, threshold);
        return None;
      }
      read := read + [improvement.value];
    }
    improvements := Some(read);
  }

  predicate TimesMeet(input: Input, baseline: seq<BenchmarkResult>, candidate: seq<BenchmarkResult>) {
    && Complete(baseline, input.expectedDocumentCount, input.repetitions)
    && Complete(candidate, input.expectedDocumentCount, input.repetitions)
    && var b, c := CorpusTimes(baseline, input.repetitions), CorpusTimes(candidate, input.repetitions);
      && Meets(CalculateImprovement(PercentileOrNull(b, 0.5), PercentileOrNull(c, 0.5)), input.performanceThreshold)
      && EveryRepetitionMeets(b, c, input.performanceThreshold)
  }

  predicate LatencyStays(input: Input, baseline: seq<BenchmarkResult>, candidate: seq<BenchmarkResult>) {
    var wall := (r: BenchmarkResult) => r.totalWallMs;
    Stays(CalculateRegression(PercentileOrNull(Measured(baseline, wall), 0.95),
                              PercentileOrNull(Measured(candidate, wall), 0.95)), input.p95LatencyRegressionLimit)
  }

  predicate MemoryStays(input: Input, baseline: seq<BenchmarkResult>, candidate: seq<BenchmarkResult>) {
    var memory := (r: BenchmarkResult) => r.peakResidentBytes;
    Stays(CalculateRegression(PercentileOrNull(Measured(baseline, memory), 0.95),
                              PercentileOrNull(Measured(candidate, memory), 0.95)), input.peakMemoryRegressionLimit)
  }

  predicate TailsStay(input: Input, baseline: seq<BenchmarkResult>, candidate: seq<BenchmarkResult>) {
    LatencyStays(input, baseline, candidate) && MemoryStays(input, baseline, candidate)
  }

  /** Whether times are a reason against promotion, and which. */
  predicate IsTooSlow(
    input: Input, baseline: seq<BenchmarkResult>, candidate: seq<BenchmarkResult>, reason: Reason)
  {
    var documents, repetitions := input.expectedDocumentCount, input.repetitions;
    var measured := Complete(baseline, documents, repetitions) && Complete(candidate, documents, repetitions);
    var b, c := CorpusTimes(baseline, repetitions), CorpusTimes(candidate, repetitions);
    match reason
    case BaselineIncomplete => !Complete(baseline, documents, repetitions)
    case CandidateIncomplete => !Complete(candidate, documents, repetitions)
    case MedianTooSlow =>
      !(measured && Meets(CalculateImprovement(PercentileOrNull(b, 0.5), PercentileOrNull(c, 0.5)),
                          input.performanceThreshold))
    case RepetitionTooSlow => !(measured && EveryRepetitionMeets(b, c, input.performanceThreshold))
    case _ => false
  }

  /** Whether the results themselves are a reason against promotion, and which. */
  predicate IsFlawed(input: Input, baseline: seq<BenchmarkResult>, candidate: seq<BenchmarkResult>, reason: Reason) {
    var expected := input.expectedDocumentCount * input.repetitions;
    match reason
    case MissingResults => |baseline| != expected || |candidate| != expected
    case ConversionFailures =>
      || (exists i | 0 <= i < |baseline| :: baseline[i].outcome != Some(Success))
      || (exists i | 0 <= i < |candidate| :: candidate[i].outcome != Some(Success))
    case OutputDiffers =>
      || (exists i | 0 <= i < |baseline| :: baseline[i].qualityPassed != Some(true))
      || (exists i | 0 <= i < |candidate| :: candidate[i].qualityPassed != Some(true))
    case DocumentsNotCovered => |DocumentIds(candidate)| != input.expectedDocumentCount
    case _ => false
  }

  predicate IsRegressed(input: Input, baseline: seq<BenchmarkResult>, candidate: seq<BenchmarkResult>, reason: Reason) {
    || (reason == LatencyRegressed && !LatencyStays(input, baseline, candidate))
    || (reason == MemoryRegressed && !MemoryStays(input, baseline, candidate))
  }

  /** Whether a reason holds against the promotion of a candidate. */
  predicate HoldsAgainst(
    input: Input, baseline: seq<BenchmarkResult>, candidate: seq<BenchmarkResult>, reason: Reason)
  {
    || IsFlawed(input, baseline, candidate, reason)
    || IsTooSlow(input, baseline, candidate, reason)
    || IsRegressed(input, baseline, candidate, reason)
  }

  lemma FlawlessExactlyWhen(input: Input, baseline: seq<BenchmarkResult>, candidate: seq<BenchmarkResult>)
    ensures (forall reason :: !IsFlawed(input, baseline, candidate, reason)) <==>
            && AllGood(baseline, input.expectedDocumentCount * input.repetitions)
            && AllGood(candidate, input.expectedDocumentCount * input.repetitions)
            && |DocumentIds(candidate)| == input.expectedDocumentCount
  {
    if forall reason :: !IsFlawed(input, baseline, candidate, reason) {
      assert !IsFlawed(input, baseline, candidate, MissingResults);
      assert !IsFlawed(input, baseline, candidate, ConversionFailures);
      assert !IsFlawed(input, baseline, candidate, OutputDiffers);
      assert !IsFlawed(input, baseline, candidate, DocumentsNotCovered);
    }
  }

  /** What it takes to be promoted. */
  predicate Eligible(input: Input) {
    EligibleOver(input, Select(input.results, input.baselineCandidateId), Select(input.results, input.candidateId))
  }

  predicate EligibleOver(input: Input, baseline: seq<BenchmarkResult>, candidate: seq<BenchmarkResult>) {
    && AllGood(baseline, input.expectedDocumentCount * input.repetitions)
    && AllGood(candidate, input.expectedDocumentCount * input.repetitions)
    && |DocumentIds(candidate)| == input.expectedDocumentCount
    && TimesMeet(input, baseline, candidate)
    && TailsStay(input, baseline, candidate)
  }

  method EvaluateDoclingPromotion(input: Input) returns (eligible: bool, reasons: seq<Reason>)
    ensures eligible == Eligible(input)
    ensures eligible <==> reasons == []
    ensures forall reason :: reason in reasons <==>
              HoldsAgainst(input, Select(input.results, input.baselineCandidateId),
                           Select(input.results, input.candidateId), reason)
  {
    var baseline := SelectFinalResults(input.results, input.baselineCandidateId);
    var candidate := SelectFinalResults(input.results, input.candidateId);
    reasons := RequireResults(input, baseline, candidate);
    FlawlessExactlyWhen(input, baseline, candidate);
    NoneOf(reasons);
    var more := RequireTimes(input, baseline, candidate);
    reasons := reasons + more;
    more := RequireTails(input, baseline, candidate);
    reasons := reasons + more;
    eligible := reasons == [];
  }

  lemma NoneOf(reasons: seq<Reason>)
    ensures reasons == [] <==> forall reason :: reason !in reasons
  {
    if reasons != [] {
      assert reasons[0] in reasons;
    }
  }

  method RequireResults(input: Input, baseline: seq<BenchmarkResult>, candidate: seq<BenchmarkResult>)
    returns (reasons: seq<Reason>)
    ensures forall reason :: reason in reasons <==> IsFlawed(input, baseline, candidate, reason)
  {
    var more := RequireCompleteSuccessfulResults(baseline, input.expectedDocumentCount * input.repetitions);
    reasons := more;
    more := RequireCompleteSuccessfulResults(candidate, input.expectedDocumentCount * input.repetitions);
    reasons := reasons + more;
    more := RequireOutputEquivalence(baseline);
    reasons := reasons + more;
    more := RequireOutputEquivalence(candidate);
    reasons := reasons + more;
    var documents := ReadSuccessfulDocumentIds(candidate);
    if |documents| != input.expectedDocumentCount {
      reasons := reasons + [DocumentsNotCovered];
    }
  }

  method RequireTimes(input: Input, baseline: seq<BenchmarkResult>, candidate: seq<BenchmarkResult>)
    returns (reasons: seq<Reason>)
    ensures reasons == [] <==> TimesMeet(input, baseline, candidate)
    ensures forall reason :: reason in reasons <==> IsTooSlow(input, baseline, candidate, reason)
  {
    reasons := [];
    var b := ReadFullCorpusWallTimes(baseline, input.expectedDocumentCount, input.repetitions);
    var c := ReadFullCorpusWallTimes(candidate, input.expectedDocumentCount, input.repetitions);
    if b.None? {
      reasons := reasons + [BaselineIncomplete];
    }
    if c.None? {
      reasons := reasons + [CandidateIncomplete];
    }
    var baselineMedian := PercentileOrNull(if b.None? then [] else b.value, 0.5);
    var candidateMedian := PercentileOrNull(if c.None? then [] else c.value, 0.5);
    if !Meets(CalculateImprovement(baselineMedian, candidateMedian), input.performanceThreshold) {
      reasons := reasons + [MedianTooSlow];
    }
    var improvements := CalculateRepetitionImprovements(b, c);
    if improvements.None? || exists i | 0 <= i < |improvements.value| :: improvements.value[i] < input.performanceThreshold {
      reasons := reasons + [RepetitionTooSlow];
    }
  }

  method RequireTails(input: Input, baseline: seq<BenchmarkResult>, candidate: seq<BenchmarkResult>)
    returns (reasons: seq<Reason>)
    ensures reasons == [] <==> TailsStay(input, baseline, candidate)
    ensures forall reason :: reason in reasons <==> IsRegressed(input, baseline, candidate, reason)
  {
    reasons := [];
    var wall := (r: BenchmarkResult) => r.totalWallMs;
    var memory := (r: BenchmarkResult) => r.peakResidentBytes;
    var baselineWall := ReadSuccessfulMeasurements(baseline, wall);
    var candidateWall := ReadSuccessfulMeasurements(candidate, wall);
    var latency := CalculateRegression(PercentileOrNull(baselineWall, 0.95), PercentileOrNull(candidateWall, 0.95));
    if !Stays(latency, input.p95LatencyRegressionLimit) {
      reasons := reasons + [LatencyRegressed];
    }
    var baselineMemory := ReadSuccessfulMeasurements(baseline, memory);
    var candidateMemory := ReadSuccessfulMeasurements(candidate, memory);
    var resident := CalculateRegression(PercentileOrNull(baselineMemory, 0.95), PercentileOrNull(candidateMemory, 0.95));
    if !Stays(resident, input.peakMemoryRegressionLimit) {
      reasons := reasons + [MemoryRegressed];
    }
  }

  /** The median check never decides: where there is a repetition at all, it
      passes whenever every repetition passes. */
  lemma MedianCheckIsImplied(input: Input, baseline: seq<BenchmarkResult>, candidate: seq<BenchmarkResult>)
    requires input.repetitions > 0
    ensures TimesMeet(input, baseline, candidate) <==>
            && Complete(baseline, input.expectedDocumentCount, input.repetitions)
            && Complete(candidate, input.expectedDocumentCount, input.repetitions)
            && EveryRepetitionMeets(CorpusTimes(baseline, input.repetitions), CorpusTimes(candidate, input.repetitions),
                                    input.performanceThreshold)
  {
    var b, c := CorpusTimes(baseline, input.repetitions), CorpusTimes(candidate, input.repetitions);
    if EveryRepetitionMeets(b, c, input.performanceThreshold) {
      forall i | 0 <= i < |b|
        ensures Improves(b[i], c[i], input.performanceThreshold)
      {
        assert Meets(CalculateImprovement(Some(b[i]), Some(c[i])), input.performanceThreshold);
      }
      PercentileImproves(b, c, 0.5, input.performanceThreshold);
    }
  }

  // ---------------------------------------------------- what the decision means

  ghost predicate Rising(at: seq<nat>, n: nat) {
    && (forall k | 0 <= k < |at| :: at[k] < n)
    && (forall i, j | 0 <= i < j < |at| :: at[i] < at[j])
  }

  /** What is selected for a candidate is its results, in order. */
  lemma {:induction false} SelectedAre(results: seq<BenchmarkResult>, candidateId: string) returns (at: seq<nat>)
    ensures Rising(at, |results|) && forall i: nat | i < |results| :: i in at <==> results[i].candidateId == candidateId
    ensures |Select(results, candidateId)| == |at|
    ensures forall k | 0 <= k < |at| :: Select(results, candidateId)[k] == results[at[k]]
  {
    if results == [] {
      at := [];
    } else {
      var n := |results| - 1;
      at := SelectedAre(results[..n], candidateId);
      assert forall i: nat | i < n :: results[..n][i] == results[i];
      if results[n].candidateId == candidateId {
        at := at + [n];
      }
    }
  }

  /** The values that a field has at some indexes, which are just those of the
      successful results that have it, in order. */
  ghost predicate AreMeasured(
    results: seq<BenchmarkResult>, field: BenchmarkResult -> Option<nat>, at: seq<nat>, values: seq<nat>)
  {
    && Rising(at, |results|) && |values| == |at|
    && (forall i: nat | i < |results| :: i in at <==> results[i].outcome == Some(Success) && field(results[i]).Some?)
    && (forall k | 0 <= k < |at| :: Some(values[k]) == field(results[at[k]]))
  }

  lemma {:induction false} MeasurementsAre(results: seq<BenchmarkResult>, field: BenchmarkResult -> Option<nat>)
    returns (at: seq<nat>)
    ensures AreMeasured(results, field, at, Measured(results, field))
  {
    if results == [] {
      at := [];
    } else {
      var n := |results| - 1;
      var before := MeasurementsAre(results[..n], field);
      at := if results[n].outcome == Some(Success) && field(results[n]).Some? then before + [n] else before;
      OneMoreMeasured(results, field, before, Measured(results[..n], field));
    }
  }

  lemma OneMoreMeasured(
    results: seq<BenchmarkResult>, field: BenchmarkResult -> Option<nat>, at: seq<nat>, values: seq<nat>)
    requires results != [] && AreMeasured(results[..|results| - 1], field, at, values)
    ensures var n, value := |results| - 1, field(results[|results| - 1]);
      if results[n].outcome == Some(Success) && value.Some?
      then AreMeasured(results, field, at + [n], values + [value.value]) else AreMeasured(results, field, at, values)
  {
    var n := |results| - 1;
    assert forall i: nat | i < n :: results[..n][i] == results[i];
  }

  /** The value with at least 95 in a hundred at most it and fewer below it. */
  ghost predicate IsTail(values: seq<nat>, v: nat) {
    values != [] && HasRank(values, v, RankOf(|values|, 0.95))
  }

  /** A value is at most a share of another, which is not zero. */
  ghost predicate AtMostShare(value: nat, share: real, whole: nat) {
    whole > 0 && value as real <= share * whole as real
  }

  /** The tail of the candidate's values exceeds that of the baseline's by no more
      than the allowed share. */
  ghost predicate TailIsNoWorse(baseline: seq<nat>, candidate: seq<nat>, limit: real) {
    exists b, c :: IsTail(baseline, b) && IsTail(candidate, c) && AtMostShare(c, 1.0 + limit, b)
  }

  lemma RegressionMeans(baseline: nat, candidate: nat, limit: real)
    ensures Stays(CalculateRegression(Some(baseline), Some(candidate)), limit)
       <==> AtMostShare(candidate, 1.0 + limit, baseline)
  {
    if baseline > 0 {
      var b, c := baseline as real, candidate as real;
      var r := (c - b) / b;
      assert r * b == c - b;
      if r <= limit {
        assert (limit - r) * b >= 0.0;
      } else {
        assert (r - limit) * b > 0.0;
      }
    }
  }

  lemma TailIsPercentile(values: seq<nat>)
    ensures PercentileOrNull(values, 0.95).None? <==> values == []
    ensures forall v: nat :: IsTail(values, v) <==> PercentileOrNull(values, 0.95) == Some(v)
  {
    if values != [] {
      PercentileIsNearestRank(values, 0.95);
      PercentileHasRank(values, 0.95);
    }
  }

  lemma TailStaysExactlyWhen(baseline: seq<nat>, candidate: seq<nat>, limit: real)
    ensures Stays(CalculateRegression(PercentileOrNull(baseline, 0.95), PercentileOrNull(candidate, 0.95)), limit)
       <==> TailIsNoWorse(baseline, candidate, limit)
  {
    TailIsPercentile(baseline);
    TailIsPercentile(candidate);
    var b, c := PercentileOrNull(baseline, 0.95), PercentileOrNull(candidate, 0.95);
    if b.Some? && c.Some? {
      assert IsTail(baseline, b.value) && IsTail(candidate, c.value);
      RegressionMeans(b.value, c.value, limit);
    }
  }

  /** As many good results as expected: for each repetition one a document. */
  ghost predicate MeasuredInFull(results: seq<BenchmarkResult>, documents: nat, repetitions: nat) {
    && |results| == documents * repetitions
    && (forall i | 0 <= i < |results| ::
          && results[i].outcome == Some(Success) && results[i].qualityPassed == Some(true)
          && results[i].totalWallMs.Some? && 1 <= results[i].repetition <= repetitions)
    && (forall r | 1 <= r <= repetitions :: 0 < Count(results, Of(r)) == documents)
  }

  /** In every repetition the candidate takes at most the share of the baseline's
      time that the threshold leaves. */
  ghost predicate FasterEachTime(
    baseline: seq<BenchmarkResult>, candidate: seq<BenchmarkResult>, repetitions: nat, threshold: real)
  {
    forall r | 1 <= r <= repetitions :: AtMostShare(TotalOf(candidate, r), 1.0 - threshold, TotalOf(baseline, r))
  }

  lemma MeetsExactlyWhen(baseline: nat, candidate: nat, threshold: real)
    ensures Meets(CalculateImprovement(Some(baseline), Some(candidate)), threshold)
       <==> AtMostShare(candidate, 1.0 - threshold, baseline)
  {
    if baseline > 0 {
      ImprovementMeans(baseline, candidate, threshold);
    }
  }

  lemma EveryRepetitionMeetsExactlyWhen(
    baseline: seq<BenchmarkResult>, candidate: seq<BenchmarkResult>, repetitions: nat, threshold: real)
    ensures EveryRepetitionMeets(CorpusTimes(baseline, repetitions), CorpusTimes(candidate, repetitions), threshold)
       <==> FasterEachTime(baseline, candidate, repetitions, threshold)
  {
    var b, c := CorpusTimes(baseline, repetitions), CorpusTimes(candidate, repetitions);
    forall i | 0 <= i < repetitions
      ensures Meets(CalculateImprovement(Some(b[i]), Some(c[i])), threshold) <==>
              AtMostShare(c[i], 1.0 - threshold, b[i])
    {
      MeetsExactlyWhen(b[i], c[i], threshold);
    }
    forall r | 1 <= r <= repetitions
      ensures TotalOf(baseline, r) == b[r - 1] && TotalOf(candidate, r) == c[r - 1]
    {
    }
  }

  /** The decision in plain arithmetic, over the results of both. */
  lemma EligibleExactlyWhen(input: Input)
    ensures var baseline := Select(input.results, input.baselineCandidateId);
      var candidate := Select(input.results, input.candidateId);
      Eligible(input) <==>
        && input.repetitions > 0
        && MeasuredInFull(baseline, input.expectedDocumentCount, input.repetitions)
        && MeasuredInFull(candidate, input.expectedDocumentCount, input.repetitions)
        && |set i | 0 <= i < |candidate| :: candidate[i].documentId| == input.expectedDocumentCount
        && FasterEachTime(baseline, candidate, input.repetitions, input.performanceThreshold)
        && TailsAreNoWorse(input, baseline, candidate)
  {
    var baseline, candidate := Select(input.results, input.baselineCandidateId), Select(input.results, input.candidateId);
    FullyMeasuredExactlyWhen(baseline, input.expectedDocumentCount, input.repetitions);
    FullyMeasuredExactlyWhen(candidate, input.expectedDocumentCount, input.repetitions);
    TailsStayExactlyWhen(input, baseline, candidate);
    TimesMeetExactlyWhen(input, baseline, candidate);
  }

  /** Neither the time nor the memory of the slowest and largest results grows
      by more than is allowed. */
  ghost predicate TailsAreNoWorse(input: Input, baseline: seq<BenchmarkResult>, candidate: seq<BenchmarkResult>) {
    var wall, memory := (r: BenchmarkResult) => r.totalWallMs, (r: BenchmarkResult) => r.peakResidentBytes;
    && TailIsNoWorse(Measured(baseline, wall), Measured(candidate, wall), input.p95LatencyRegressionLimit)
    && TailIsNoWorse(Measured(baseline, memory), Measured(candidate, memory), input.peakMemoryRegressionLimit)
  }

  lemma TailsStayExactlyWhen(input: Input, baseline: seq<BenchmarkResult>, candidate: seq<BenchmarkResult>)
    ensures TailsStay(input, baseline, candidate) <==> TailsAreNoWorse(input, baseline, candidate)
  {
    var wall, memory := (r: BenchmarkResult) => r.totalWallMs, (r: BenchmarkResult) => r.peakResidentBytes;
    TailStaysExactlyWhen(Measured(baseline, wall), Measured(candidate, wall), input.p95LatencyRegressionLimit);
    TailStaysExactlyWhen(Measured(baseline, memory), Measured(candidate, memory), input.peakMemoryRegressionLimit);
  }

  lemma FullyMeasuredExactlyWhen(results: seq<BenchmarkResult>, documents: nat, repetitions: nat)
    ensures MeasuredInFull(results, documents, repetitions) <==>
            AllGood(results, documents * repetitions) && Complete(results, documents, repetitions)
    ensures AllGood(results, documents * repetitions) ==>
              DocumentIds(results) == set i | 0 <= i < |results| :: results[i].documentId
  {
    if AllGood(results, documents * repetitions) && Complete(results, documents, repetitions) {
      assert forall i | 0 <= i < |results| :: Timed(results[i]);
    }
    if MeasuredInFull(results, documents, repetitions) {
      assert Complete(results, documents, repetitions);
    }
  }

  lemma TimesMeetExactlyWhen(input: Input, baseline: seq<BenchmarkResult>, candidate: seq<BenchmarkResult>)
    ensures TimesMeet(input, baseline, candidate) <==>
            && input.repetitions > 0
            && Complete(baseline, input.expectedDocumentCount, input.repetitions)
            && Complete(candidate, input.expectedDocumentCount, input.repetitions)
            && FasterEachTime(baseline, candidate, input.repetitions, input.performanceThreshold)
  {
    EveryRepetitionMeetsExactlyWhen(baseline, candidate, input.repetitions, input.performanceThreshold);
    if input.repetitions > 0 {
      MedianCheckIsImplied(input, baseline, candidate);
    }
  }

  // --------------------------------------------------------------- full coverage

  /** The store holds one result a document and repetition. */
  predicate OneResultEach(results: seq<BenchmarkResult>) {
    forall i, j | 0 <= i < j < |results| ::
      results[i].documentId != results[j].documentId || results[i].repetition != results[j].repetition
  }

  function DocumentsIn(results: seq<BenchmarkResult>, repetition: nat): set<string> {
    if results == [] then {}
    else
      var last := results[|results| - 1];
      DocumentsIn(results[..|results| - 1], repetition)
      + (if last.repetition == repetition then {last.documentId} else {})
  }

  lemma {:induction false} DocumentsInMembers(results: seq<BenchmarkResult>, repetition: nat)
    ensures forall d | d in DocumentsIn(results, repetition) ::
              exists i | 0 <= i < |results| :: results[i].repetition == repetition && results[i].documentId == d
  {
    if results != [] {
      var n := |results| - 1;
      DocumentsInMembers(results[..n], repetition);
      forall d | d in DocumentsIn(results, repetition)
        ensures exists i | 0 <= i < |results| :: results[i].repetition == repetition && results[i].documentId == d
      {
        if d in DocumentsIn(results[..n], repetition) {
          var i :| 0 <= i < n && results[..n][i].repetition == repetition && results[..n][i].documentId == d;
          assert results[i] == results[..n][i];
        } else {
          assert results[n].repetition == repetition && results[n].documentId == d;
        }
      }
    }
  }

  lemma {:induction false} DocumentsAreCounted(results: seq<BenchmarkResult>, repetition: nat)
    requires OneResultEach(results)
    ensures |DocumentsIn(results, repetition)| == Count(results, Of(repetition))
  {
    if results != [] {
      var n := |results| - 1;
      DocumentsAreCounted(results[..n], repetition);
      DocumentsInMembers(results[..n], repetition);
      if results[n].repetition == repetition {
        assert results[n].documentId !in DocumentsIn(results[..n], repetition);
      }
    }
  }

  /** An eligible candidate was measured on every document in every repetition:
      the gate only compares counts, but with one result a document and
      repetition that leaves no gap. */
  lemma EligibleCoversAll(input: Input)
    requires Eligible(input) && OneResultEach(Select(input.results, input.candidateId))
    ensures var candidate := Select(input.results, input.candidateId);
      forall r | 1 <= r <= input.repetitions :: DocumentsIn(candidate, r) == DocumentIds(candidate)
  {
    var candidate := Select(input.results, input.candidateId);
    forall r | 1 <= r <= input.repetitions
      ensures DocumentsIn(candidate, r) == DocumentIds(candidate)
    {
      DocumentsAreCounted(candidate, r);
      DocumentsInMembers(candidate, r);
      assert 0 < Count(candidate, Of(r)) == input.expectedDocumentCount;
      EqualSize(DocumentsIn(candidate, r), DocumentIds(candidate));
    }
  }

  lemma EligibleCounts(input: Input, r: nat)
    requires Eligible(input) && 1 <= r <= input.repetitions
    requires OneResultEach(Select(input.results, input.baselineCandidateId))
    requires OneResultEach(Select(input.results, input.candidateId))
    ensures |DocumentsIn(Select(input.results, input.baselineCandidateId), r)| == input.expectedDocumentCount
    ensures |DocumentsIn(Select(input.results, input.candidateId), r)| == input.expectedDocumentCount
  {
    DocumentsAreCounted(Select(input.results, input.baselineCandidateId), r);
    DocumentsAreCounted(Select(input.results, input.candidateId), r);
  }

  /** When an eligible candidate was measured on the documents of its baseline:
      in a repetition exactly if the candidate was measured at all on those that
      the baseline was measured on. */
  lemma SameDocumentsExactlyWhen(input: Input, r: nat)
    requires Eligible(input) && 1 <= r <= input.repetitions
    requires OneResultEach(Select(input.results, input.baselineCandidateId))
    requires OneResultEach(Select(input.results, input.candidateId))
    ensures var baseline := Select(input.results, input.baselineCandidateId);
      var candidate := Select(input.results, input.candidateId);
      DocumentsIn(baseline, r) == DocumentsIn(candidate, r) <==> DocumentsIn(baseline, r) <= DocumentIds(candidate)
  {
    EligibleCounts(input, r);
    EligibleCoversAll(input);
    var baseline := Select(input.results, input.baselineCandidateId);
    var candidate := Select(input.results, input.candidateId);
    if DocumentsIn(baseline, r) <= DocumentIds(candidate) {
      EqualSize(DocumentsIn(baseline, r), DocumentsIn(candidate, r));
    }
  }

  /** Results of one run over one corpus: every result names one of its documents. */
  ghost predicate OverCorpus(results: seq<BenchmarkResult>, corpus: set<string>) {
    forall i | 0 <= i < |results| :: results[i].documentId in corpus
  }

  lemma {:induction false} DocumentsAreOfCorpus(results: seq<BenchmarkResult>, corpus: set<string>, r: nat)
    requires OverCorpus(results, corpus)
    ensures DocumentsIn(results, r) <= corpus
  {
    if results != [] {
      DocumentsAreOfCorpus(results[..|results| - 1], corpus, r);
    }
  }

  lemma {:induction false} SelectionIsOfCorpus(results: seq<BenchmarkResult>, candidateId: string, corpus: set<string>)
    requires OverCorpus(results, corpus)
    ensures OverCorpus(Select(results, candidateId), corpus)
  {
    if results != [] {
      SelectionIsOfCorpus(results[..|results| - 1], candidateId, corpus);
    }
  }

  /** With a common corpus of as many documents as expected, an eligible
      candidate and its baseline were both measured on all of it, and nothing
      else, in every repetition. */
  lemma CommonCorpusIsCovered(input: Input, corpus: set<string>)
    requires Eligible(input) && OverCorpus(input.results, corpus) && |corpus| == input.expectedDocumentCount
    requires OneResultEach(Select(input.results, input.baselineCandidateId))
    requires OneResultEach(Select(input.results, input.candidateId))
    ensures forall r | 1 <= r <= input.repetitions ::
              && DocumentsIn(Select(input.results, input.baselineCandidateId), r) == corpus
              && DocumentsIn(Select(input.results, input.candidateId), r) == corpus
  {
    var baseline := Select(input.results, input.baselineCandidateId);
    var candidate := Select(input.results, input.candidateId);
    SelectionIsOfCorpus(input.results, input.baselineCandidateId, corpus);
    SelectionIsOfCorpus(input.results, input.candidateId, corpus);
    forall r | 1 <= r <= input.repetitions
      ensures DocumentsIn(baseline, r) == corpus && DocumentsIn(candidate, r) == corpus
    {
      EligibleCounts(input, r);
      DocumentsAreOfCorpus(baseline, corpus, r);
      DocumentsAreOfCorpus(candidate, corpus, r);
      EqualSize(DocumentsIn(baseline, r), corpus);
      EqualSize(DocumentsIn(candidate, r), corpus);
    }
  }

  // ------------------------------------------------- what the gate does not ask

  predicate SameButDocument(a: BenchmarkResult, b: BenchmarkResult) {
    a.(documentId := "") == b.(documentId := "")
  }

  predicate SameButDocuments(a: seq<BenchmarkResult>, b: seq<BenchmarkResult>) {
    |a| == |b| && forall i | 0 <= i < |a| :: SameButDocument(a[i], b[i])
  }

  lemma {:induction false} DocumentsAreNotTimed(a: seq<BenchmarkResult>, b: seq<BenchmarkResult>, r: nat)
    requires SameButDocuments(a, b)
    ensures Count(a, Of(r)) == Count(b, Of(r)) && TotalOf(a, r) == TotalOf(b, r)
  {
    if a != [] {
      DocumentsAreNotTimed(a[..|a| - 1], b[..|b| - 1], r);
    }
  }

  lemma {:induction false} DocumentsAreNotMeasured(
    a: seq<BenchmarkResult>, b: seq<BenchmarkResult>, measure: BenchmarkResult -> Option<nat>)
    requires SameButDocuments(a, b) && forall x, y | SameButDocument(x, y) :: measure(x) == measure(y)
    ensures Measured(a, measure) == Measured(b, measure)
  {
    if a != [] {
      DocumentsAreNotMeasured(a[..|a| - 1], b[..|b| - 1], measure);
    }
  }

  lemma {:induction false} DocumentsAreNotSelected(
    a: seq<BenchmarkResult>, b: seq<BenchmarkResult>, candidateId: string)
    requires SameButDocuments(a, b)
    ensures SameButDocuments(Select(a, candidateId), Select(b, candidateId))
  {
    if a != [] {
      DocumentsAreNotSelected(a[..|a| - 1], b[..|b| - 1], candidateId);
    }
  }

  lemma {:induction false} SameResultsAreSelected(
    a: seq<BenchmarkResult>, b: seq<BenchmarkResult>, candidateId: string)
    requires SameButDocuments(a, b)
    requires forall i | 0 <= i < |a| && a[i].candidateId == candidateId :: a[i] == b[i]
    ensures Select(a, candidateId) == Select(b, candidateId)
  {
    if a != [] {
      SameResultsAreSelected(a[..|a| - 1], b[..|b| - 1], candidateId);
    }
  }

  lemma DocumentsDecideNoTime(
    input: Input, a: seq<BenchmarkResult>, b: seq<BenchmarkResult>, candidate: seq<BenchmarkResult>)
    requires SameButDocuments(a, b)
    ensures TimesMeet(input, a, candidate) == TimesMeet(input, b, candidate)
  {
    forall r: nat
      ensures Count(a, Of(r)) == Count(b, Of(r)) && TotalOf(a, r) == TotalOf(b, r)
    {
      DocumentsAreNotTimed(a, b, r);
    }
    assert CorpusTimes(a, input.repetitions) == CorpusTimes(b, input.repetitions);
  }

  lemma DocumentsDecideNoTail(
    input: Input, a: seq<BenchmarkResult>, b: seq<BenchmarkResult>, candidate: seq<BenchmarkResult>)
    requires SameButDocuments(a, b)
    ensures TailsStay(input, a, candidate) == TailsStay(input, b, candidate)
  {
    DocumentsAreNotMeasured(a, b, (r: BenchmarkResult) => r.totalWallMs);
    DocumentsAreNotMeasured(a, b, (r: BenchmarkResult) => r.peakResidentBytes);
  }

  /** Which documents the baseline was measured on never matters: with any
      others in their place the gate decides the same. */
  lemma BaselineDocumentsNeverMatter(input: Input, results: seq<BenchmarkResult>)
    requires SameButDocuments(input.results, results)
    requires forall i | 0 <= i < |results| && input.results[i].candidateId == input.candidateId ::
               input.results[i] == results[i]
    ensures Eligible(input.(results := results)) == Eligible(input)
  {
    DocumentsAreNotSelected(input.results, results, input.baselineCandidateId);
    SameResultsAreSelected(input.results, results, input.candidateId);
    DocumentsDecideNothing(
      input, results, Select(input.results, input.baselineCandidateId), Select(results, input.baselineCandidateId),
      Select(input.results, input.candidateId));
  }

  lemma DocumentsDecideNothing(
    input: Input, results: seq<BenchmarkResult>, a: seq<BenchmarkResult>, b: seq<BenchmarkResult>,
    candidate: seq<BenchmarkResult>)
    requires SameButDocuments(a, b)
    ensures EligibleOver(input.(results := results), b, candidate) == EligibleOver(input, a, candidate)
  {
    DocumentsDecideNoTime(input, a, b, candidate);
    DocumentsDecideNoTail(input, a, b, candidate);
    assert AllGood(a, input.expectedDocumentCount * input.repetitions)
        == AllGood(b, input.expectedDocumentCount * input.repetitions);
    OnlyResultsDiffer(input, results, b, candidate);
  }

  lemma OnlyResultsDiffer(
    input: Input, results: seq<BenchmarkResult>, baseline: seq<BenchmarkResult>, candidate: seq<BenchmarkResult>)
    ensures TimesMeet(input.(results := results), baseline, candidate) == TimesMeet(input, baseline, candidate)
    ensures TailsStay(input.(results := results), baseline, candidate) == TailsStay(input, baseline, candidate)
  {
  }

  /** For one: a candidate measured on document "b" is promoted over a baseline
      measured on document "a". */
  lemma EligibleOnOtherDocuments()
    ensures var baseline := BenchmarkResult("old", "a", Some(Success), Some(10), Some(true), 1, Some(100));
      var candidate := BenchmarkResult("new", "b", Some(Success), Some(10), Some(true), 1, Some(10));
      Eligible(Input("old", "new", 1, 0.0, 0.0, 0.5, 1, [baseline, candidate]))
  {
    var baseline := BenchmarkResult("old", "a", Some(Success), Some(10), Some(true), 1, Some(100));
    var candidate := BenchmarkResult("new", "b", Some(Success), Some(10), Some(true), 1, Some(10));
    SelectFromTwo(baseline, candidate);
    var input := Input("old", "new", 1, 0.0, 0.0, 0.5, 1, [baseline, candidate]);
    assert [candidate][0].documentId in DocumentIds([candidate]);
    assert DocumentIds([candidate]) == {"b"};
    OneRepetitionMeets(input, baseline, candidate);
    OneRepetitionStays(input, baseline, candidate);
  }

  lemma OneRepetitionMeets(input: Input, a: BenchmarkResult, b: BenchmarkResult)
    requires input.expectedDocumentCount == input.repetitions == 1 && input.performanceThreshold == 0.5
    requires Timed(a) && Timed(b) && a.repetition == b.repetition == 1 && Wall(a) == 100 && Wall(b) == 10
    ensures TimesMeet(input, [a], [b])
  {
    OneResult(a);
    OneResult(b);
    PercentileOfOne(100, 0.5);
    PercentileOfOne(10, 0.5);
    ImprovementMeans(100, 10, 0.5);
  }

  lemma OneRepetitionStays(input: Input, a: BenchmarkResult, b: BenchmarkResult)
    requires input.p95LatencyRegressionLimit == input.peakMemoryRegressionLimit == 0.0
    requires Timed(a) && Timed(b) && Wall(a) == 100 && Wall(b) == 10
    requires a.peakResidentBytes == b.peakResidentBytes == Some(10)
    ensures TailsStay(input, [a], [b])
  {
    OneResult(a);
    OneResult(b);
    PercentileOfOne(100, 0.95);
    PercentileOfOne(10, 0.95);
  }

  lemma SelectFromTwo(a: BenchmarkResult, b: BenchmarkResult)
    requires a.candidateId != b.candidateId
    ensures Select([a, b], a.candidateId) == [a] && Select([a, b], b.candidateId) == [b]
  {
    SelectFromOne(a, a.candidateId);
    SelectFromOne(a, b.candidateId);
    assert [a, b][..1] == [a];
  }

  lemma SelectFromOne(a: BenchmarkResult, candidateId: string)
    ensures Select([a], candidateId) == if a.candidateId == candidateId then [a] else []
  {
    assert [a][..0] == [];
  }

  lemma OneResult(result: BenchmarkResult)
    ensures forall r: nat :: Count([result], Of(r)) == if result.repetition == r then 1 else 0
    ensures CorpusTimes([result], 1) == [if result.repetition == 1 then Wall(result) else 0]
    ensures forall field: BenchmarkResult -> Option<nat> ::
              Measured([result], field)
              == if result.outcome == Some(Success) && field(result).Some? then [field(result).value] else []
  {
    assert [result][..0] == [];
    assert TotalOf([], 1) == 0;
    assert TotalOf([result], 1) == if result.repetition == 1 then Wall(result) else 0;
  }

  lemma PercentileOfOne(value: nat, p: real)
    requires 0.0 < p <= 1.0
    ensures PercentileOrNull([value], p) == Some(value)
  {
    assert Sort(AtMost, [value]) == [value] by {
      assert [value][1..] == [];
      assert Sort(AtMost, []) == [];
    }
    assert (-(p * 1.0)).Floor == -1;
    assert RankOf(1, p) == 1;
  }
}
