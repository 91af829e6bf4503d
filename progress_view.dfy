/**
 * The progress page: summary statistics over the user's progress records,
 * the module list and filter, per-module rollups, the `Hh Mm` duration and
 * the insight messages.
 */
module ProgressView {
  import opened Wrappers
  import opened Progress
  import Rounding
  import Decimal

  /** The filter value that selects every module. */
  const AllModules: string := "all"

  // ---------------------------------------------------------------------
  // Folds over the record list

  /** `progressData.filter(item => item.lesson_completed).length`. */
  function CompletedCount(records: seq<ProgressRecord>): (n: nat)
    ensures n <= |records|
  {
    if records == [] then 0
    else CompletedCount(records[..|records| - 1]) + (if records[|records| - 1].lessonCompleted then 1 else 0)
  }

  /** The number of records with a quiz score. */
  function ScoredCount(records: seq<ProgressRecord>): (n: nat)
    ensures n <= |records|
  {
    if records == [] then 0
    else ScoredCount(records[..|records| - 1]) + (if records[|records| - 1].quizScore.Some? then 1 else 0)
  }

  /** The sum of the quiz scores that are present. */
  function ScoreSum(records: seq<ProgressRecord>): int {
    if records == [] then 0
    else ScoreSum(records[..|records| - 1]) + records[|records| - 1].quizScore.GetOr(0)
  }

  /** The sum of the time-spent values that are present, in seconds. */
  function TotalTime(records: seq<ProgressRecord>): (t: int)
    ensures (forall i :: 0 <= i < |records| && records[i].timeSpent.Some? ==> records[i].timeSpent.value >= 0) ==> t >= 0
  {
    if records == [] then 0
    else
      var init := records[..|records| - 1];
      assert forall i :: 0 <= i < |init| ==> init[i] == records[i];
      TotalTime(init) + records[|records| - 1].timeSpent.GetOr(0)
  }

  datatype OverallStats = OverallStats(
    completionRate: int,
    averageScore: int,
    totalTimeTenths: int,   // total study time in tenths of an hour
    lessonsCompleted: nat,
    totalLessons: nat)

  /** `getOverallStats`. */
  function OverallStatsOf(records: seq<ProgressRecord>): (s: OverallStats)
    ensures s.totalLessons == |records| && s.lessonsCompleted == CompletedCount(records)
    ensures s.lessonsCompleted <= s.totalLessons
    ensures 0 <= s.completionRate <= 100
    ensures |records| == 0 ==> s.completionRate == 0
    ensures |records| > 0 ==>
      2 * |records| * s.completionRate <= 200 * s.lessonsCompleted + |records| < 2 * |records| * (s.completionRate + 1)
    ensures ScoredCount(records) == 0 ==> s.averageScore == 0
    ensures ScoredCount(records) > 0 ==>
      var k, total := ScoredCount(records), ScoreSum(records);
      2 * k * s.averageScore <= 2 * total + k < 2 * k * (s.averageScore + 1)
    ensures 720 * s.totalTimeTenths <= 2 * TotalTime(records) + 360 < 720 * (s.totalTimeTenths + 1)
  {
    var completed := CompletedCount(records);
    var total := |records|;
    var k := ScoredCount(records);
    OverallStats(
      if total > 0 then Rounding.RoundPercent(completed, total) else 0,
      if k > 0 then Rounding.RoundDiv(ScoreSum(records), k) else 0,
      Rounding.RoundDiv(TotalTime(records), 360),
      completed,
      total)
  }

  /** Scores recorded as percentages keep their sum between 0 and 100 per score. */
  lemma {:induction false} ScoreSumWithin(records: seq<ProgressRecord>)
    requires forall i :: 0 <= i < |records| && records[i].quizScore.Some? ==> 0 <= records[i].quizScore.value <= 100
    ensures 0 <= ScoreSum(records) <= 100 * ScoredCount(records)
  {
    if records != [] {
      ScoreSumWithin(records[..|records| - 1]);
    }
  }

  /** When every recorded score is a percentage, so is the average. */
  lemma AverageScoreInRange(records: seq<ProgressRecord>)
    requires forall i :: 0 <= i < |records| && records[i].quizScore.Some? ==> 0 <= records[i].quizScore.value <= 100
    ensures 0 <= OverallStatsOf(records).averageScore <= 100
  {
    ScoreSumWithin(records);
    var k := ScoredCount(records);
    if k > 0 {
      Rounding.RoundDivWithin(ScoreSum(records), k, 0, 100);
    }
  }

  /** Every lesson completed: the completion count is the list length. */
  lemma {:induction false} AllCompletedCount(records: seq<ProgressRecord>)
    requires forall i :: 0 <= i < |records| ==> records[i].lessonCompleted
    ensures CompletedCount(records) == |records|
  {
    if records != [] {
      AllCompletedCount(records[..|records| - 1]);
    }
  }

  // ---------------------------------------------------------------------
  // Modules: the distinct list and the filter

  predicate NoDuplicates(s: seq<string>) {
    forall i, j :: 0 <= i < j < |s| ==> s[i] != s[j]
  }

  /** The position of the first occurrence of x in s. */
  function FirstIndex(s: seq<string>, x: string): (i: nat)
    requires x in s
    ensures i < |s| && s[i] == x && x !in s[..i]
  {
    if s[0] == x then 0 else 1 + FirstIndex(s[1..], x)
  }

  lemma {:induction false} FirstIndexExtend(s: seq<string>, y: string, x: string)
    requires x in s
    ensures FirstIndex(s + [y], x) == FirstIndex(s, x)
  {
    if s[0] != x {
      assert (s + [y])[1..] == s[1..] + [y];
      FirstIndexExtend(s[1..], y, x);
    }
  }

  lemma FirstIndexNew(s: seq<string>, x: string)
    requires x !in s
    ensures FirstIndex(s + [x], x) == |s|
  {
  }

  /** `Array.from(new Set(s))`: every element once, in order of first occurrence. */
  function Dedup(s: seq<string>): (r: seq<string>)
    ensures NoDuplicates(r)
    ensures forall x :: x in r <==> x in s
    ensures forall i, j :: 0 <= i < j < |r| ==> FirstIndex(s, r[i]) < FirstIndex(s, r[j])
  {
    if s == [] then []
    else
      var init, x := s[..|s| - 1], s[|s| - 1];
      assert s == init + [x];
      var d := Dedup(init);
      assert forall y :: y in init ==> FirstIndex(s, y) == FirstIndex(init, y) by {
        forall y | y in init { FirstIndexExtend(init, x, y); }
      }
      if x in d then d
      else
        FirstIndexNew(init, x);
        d + [x]
  }

  /** `progressData.map(item => item.module)`. */
  function Modules(records: seq<ProgressRecord>): (ms: seq<string>)
    ensures |ms| == |records| && forall i :: 0 <= i < |records| ==> ms[i] == records[i].moduleName
  {
    seq(|records|, i requires 0 <= i < |records| => records[i].moduleName)
  }

  /** `getUniqueModules`: "all" first, then each module once, in order of first appearance. */
  function UniqueModules(records: seq<ProgressRecord>): (r: seq<string>)
    ensures |r| >= 1 && r[0] == AllModules
    ensures r[1..] == Dedup(Modules(records))
  {
    [AllModules] + Dedup(Modules(records))
  }

  /** `progressData.filter(item => item.module === m)`. */
  function FilterByModule(records: seq<ProgressRecord>, m: string): (r: seq<ProgressRecord>)
    ensures |r| <= |records|
    ensures forall x :: x in r <==> x in records && x.moduleName == m
  {
    if records == [] then []
    else
      var init, x := records[..|records| - 1], records[|records| - 1];
      assert records == init + [x];
      FilterByModule(init, m) + (if x.moduleName == m then [x] else [])
  }

  /** The filter keeps the original order: it distributes over concatenation. */
  lemma {:induction false} FilterAppend(a: seq<ProgressRecord>, b: seq<ProgressRecord>, m: string)
    ensures FilterByModule(a + b, m) == FilterByModule(a, m) + FilterByModule(b, m)
    decreases |b|
  {
    if b == [] {
      assert a + b == a;
    } else {
      var init := b[..|b| - 1];
      assert (a + b)[..|a + b| - 1] == a + init;
      FilterAppend(a, init, m);
    }
  }

  /** `filteredProgress`: the whole list for "all", otherwise the records of that module. */
  function FilteredProgress(records: seq<ProgressRecord>, selected: string): (r: seq<ProgressRecord>)
    ensures selected == AllModules ==> r == records
    ensures selected != AllModules ==> forall x :: x in r <==> x in records && x.moduleName == selected
  {
    if selected == AllModules then records else FilterByModule(records, selected)
  }

  datatype ModuleStats = ModuleStats(completionRate: int, completed: nat, total: nat)

  /** `getModuleStats`. */
  function ModuleStatsOf(records: seq<ProgressRecord>, m: string): (s: ModuleStats)
    ensures s.total == |FilterByModule(records, m)| && s.total <= |records|
    ensures s.completed == CompletedCount(FilterByModule(records, m))
    ensures s.completed <= s.total
    ensures 0 <= s.completionRate <= 100
    ensures s.total == 0 ==> s.completionRate == 0
    ensures s.total > 0 ==>
      2 * s.total * s.completionRate <= 200 * s.completed + s.total < 2 * s.total * (s.completionRate + 1)
  {
    var moduleData := FilterByModule(records, m);
    var completed := CompletedCount(moduleData);
    var total := |moduleData|;
    ModuleStats(if total > 0 then Rounding.RoundPercent(completed, total) else 0, completed, total)
  }

  /** The sum of the module cards' totals, for the modules listed in ms. */
  function ModuleTotals(records: seq<ProgressRecord>, ms: seq<string>): nat {
    if ms == [] then 0 else ModuleStatsOf(records, ms[0]).total + ModuleTotals(records, ms[1..])
  }

  function Occurrences(ms: seq<string>, v: string): nat {
    if ms == [] then 0 else (if ms[0] == v then 1 else 0) + Occurrences(ms[1..], v)
  }

  lemma {:induction false} OccurrencesOnce(ms: seq<string>, v: string)
    requires NoDuplicates(ms)
    ensures Occurrences(ms, v) == if v in ms then 1 else 0
  {
    if ms != [] {
      assert NoDuplicates(ms[1..]) by {
        forall i, j | 0 <= i < j < |ms[1..]| ensures ms[1..][i] != ms[1..][j] {
          assert ms[1..][i] == ms[i + 1] && ms[1..][j] == ms[j + 1];
        }
      }
      OccurrencesOnce(ms[1..], v);
      if ms[0] == v {
        assert v !in ms[1..] by {
          forall j | 0 <= j < |ms[1..]| ensures ms[1..][j] != v { assert ms[1..][j] == ms[j + 1]; }
        }
      }
    }
  }

  lemma {:induction false} ModuleTotalsExtend(init: seq<ProgressRecord>, x: ProgressRecord, ms: seq<string>)
    ensures ModuleTotals(init + [x], ms) == ModuleTotals(init, ms) + Occurrences(ms, x.moduleName)
  {
    if ms != [] {
      ModuleTotalsExtend(init, x, ms[1..]);
      assert (init + [x])[..|init + [x]| - 1] == init;
    }
  }

  lemma {:induction false} ModuleTotalsCover(records: seq<ProgressRecord>, ms: seq<string>)
    requires NoDuplicates(ms)
    requires forall i :: 0 <= i < |records| ==> records[i].moduleName in ms
    ensures ModuleTotals(records, ms) == |records|
  {
    if records == [] {
      ModuleTotalsEmpty(ms);
    } else {
      var init, x := records[..|records| - 1], records[|records| - 1];
      assert records == init + [x];
      ModuleTotalsCover(init, ms);
      ModuleTotalsExtend(init, x, ms);
      OccurrencesOnce(ms, x.moduleName);
    }
  }

  lemma {:induction false} ModuleTotalsEmpty(ms: seq<string>)
    ensures ModuleTotals([], ms) == 0
  {
    if ms != [] {
      ModuleTotalsEmpty(ms[1..]);
    }
  }

  /** The module cards (`modules.slice(1)`) account for every record exactly once. */
  lemma ModuleCardsCoverRecords(records: seq<ProgressRecord>)
    ensures ModuleTotals(records, UniqueModules(records)[1..]) == |records|
  {
    var ms := Dedup(Modules(records));
    assert forall i :: 0 <= i < |records| ==> records[i].moduleName in Modules(records);
    ModuleTotalsCover(records, ms);
  }

  // ---------------------------------------------------------------------
  // `formatTime`: Hh Mm

  /** Whole hours and the whole minutes left over. */
  function HoursMinutes(seconds: nat): (hm: (nat, nat))
    ensures hm.1 < 60
    ensures hm.0 * 3600 + hm.1 * 60 <= seconds < hm.0 * 3600 + hm.1 * 60 + 60
  {
    var h, rem := seconds / 3600, seconds % 3600;
    var m := rem / 60;
    assert seconds == h * 3600 + rem && rem < 3600;
    assert rem == m * 60 + rem % 60 && rem % 60 < 60;
    (h, m)
  }

  /** `${hours}h ${minutes}m`. */
  function FormatTime(seconds: nat): (r: string)
    ensures |r| >= 5 && Decimal.IsDigit(r[0]) && r[|r| - 1] == 'm'
    ensures var h := Decimal.NatToString(HoursMinutes(seconds).0);
      |h| + 2 <= |r| && r[..|h|] == h && r[|h|..|h| + 2] == "h "
    ensures var m := Decimal.NatToString(HoursMinutes(seconds).1);
      |m| + 1 <= |r| && r[|r| - 1 - |m|..|r| - 1] == m
  {
    var hm := HoursMinutes(seconds);
    var h, m := Decimal.NatToString(hm.0), Decimal.NatToString(hm.1);
    var r := h + "h " + m + "m";
    assert r[..|h|] == h && r[|h|..|h| + 2] == "h ";
    assert r[|r| - 1 - |m|..|r| - 1] == m;
    r
  }

  /** Reads `Hh Mm` back into hours and minutes, or nothing if it is not of that form. */
  function ParseDuration(s: string): Option<(nat, nat)> {
    var (h, rest) := Decimal.SpanDigits(s);
    if h != [] && |rest| >= 2 && rest[..2] == "h " then
      var (m, tail) := Decimal.SpanDigits(rest[2..]);
      if m != [] && tail == "m" then Some((Decimal.Value(h), Decimal.Value(m))) else None
    else
      None
  }

  /** The duration shown reads back as the hours and minutes it was made from. */
  lemma FormatTimeRoundTrip(seconds: nat)
    ensures ParseDuration(FormatTime(seconds)) == Some(HoursMinutes(seconds))
  {
    var hm := HoursMinutes(seconds);
    DurationRoundTrip(hm.0, hm.1);
  }

  lemma DurationRoundTrip(hours: nat, minutes: nat)
    ensures ParseDuration(Decimal.NatToString(hours) + "h " + Decimal.NatToString(minutes) + "m")
         == Some((hours, minutes))
  {
    var h, m := Decimal.NatToString(hours), Decimal.NatToString(minutes);
    ParseDurationOf(h, m);
    Decimal.ValueOfNatToString(hours);
    Decimal.ValueOfNatToString(minutes);
  }

  /** Any two digit runs around `h ` and `m` parse back to their values. */
  lemma ParseDurationOf(h: string, m: string)
    requires h != [] && Decimal.AllDigits(h)
    requires m != [] && Decimal.AllDigits(m)
    ensures ParseDuration(h + "h " + m + "m") == Some((Decimal.Value(h), Decimal.Value(m)))
  {
    var tail := m + "m";
    var rest := "h " + tail;
    assert h + "h " + m + "m" == h + rest;
    Decimal.SpanDigitsOf(h, rest);
    assert rest[..2] == "h " && rest[2..] == tail;
    Decimal.SpanDigitsOf(m, "m");
  }

  // ---------------------------------------------------------------------
  // Insights

  datatype ScoreInsight = ExcellentPerformance | GoodProgress | KeepLearning

  /** The score card: 80 and above excellent, 60 and above good, otherwise keep learning. */
  function ScoreInsightFor(averageScore: int): ScoreInsight {
    if averageScore >= 80 then ExcellentPerformance
    else if averageScore >= 60 then GoodProgress
    else KeepLearning
  }

  datatype ConsistencyInsight = GreatConsistency | StayConsistent

  /** The consistency card: a completion rate of 80 and above is great. */
  function ConsistencyInsightFor(completionRate: int): ConsistencyInsight {
    if completionRate >= 80 then GreatConsistency else StayConsistent
  }

  function Rank(i: ScoreInsight): nat {
    match i
    case KeepLearning => 0
    case GoodProgress => 1
    case ExcellentPerformance => 2
  }

  /** A higher average never earns a worse score message. */
  lemma ScoreInsightMonotone(a: int, b: int)
    requires a <= b
    ensures Rank(ScoreInsightFor(a)) <= Rank(ScoreInsightFor(b))
  {
  }

  /** Completing every recorded lesson earns the consistency message. */
  lemma AllCompletedIsConsistent(records: seq<ProgressRecord>)
    requires |records| > 0 && forall i :: 0 <= i < |records| ==> records[i].lessonCompleted
    ensures OverallStatsOf(records).completionRate == 100
    ensures ConsistencyInsightFor(OverallStatsOf(records).completionRate) == GreatConsistency
  {
    AllCompletedCount(records);
    var n := |records|;
    Rounding.PercentIsFull(n, n);
    assert OverallStatsOf(records).completionRate == Rounding.RoundPercent(n, n);
  }
}
