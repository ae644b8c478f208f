/** `time_to_goal_mc`: months until a portfolio first reaches a goal, per
    simulated path, summarised by the 10th, 50th and 90th percentiles.
    Random draws and `exp`/`log` are not modelled: a path is driven by a
    stream of positive monthly growth factors. */
module MonteCarlo {

  import opened Wrappers
  import opened Numeric
  import Sorting

  const MinPaths: int := 100

  /** The arguments of one run (the seed is folded into the factor stream). */
  datatype Params = Params(
    nuvarde: real,       // present value
    contrib: real,       // mean monthly contribution
    cagr: real,
    vol: real,
    maxMonths: int,
    paths: int,
    goal: real)

  /** The `ValueError`s of the validation block, in the order it checks them. */
  datatype ParamError =
    | NegativeStart
    | NegativeContribution
    | CagrOutOfRange
    | NegativeVolatility
    | TooFewPaths
    | HorizonTooShort
    | NonPositiveGoal

  datatype Percentiles = Percentiles(p10: int, p50: int, p90: int)

  /** The invariants every accepted run satisfies. */
  predicate ValidParams(p: Params)
  {
    && p.nuvarde >= 0.0
    && p.contrib >= 0.0
    && 0.0 <= p.cagr <= 1.0
    && p.vol >= 0.0
    && p.paths >= MinPaths
    && p.maxMonths >= 1
    && p.goal > 0.0
  }

  /** The condition each error reports. */
  predicate Violates(p: Params, e: ParamError)
  {
    match e
    case NegativeStart => p.nuvarde < 0.0
    case NegativeContribution => p.contrib < 0.0
    case CagrOutOfRange => !(0.0 <= p.cagr <= 1.0)
    case NegativeVolatility => p.vol < 0.0
    case TooFewPaths => p.paths < MinPaths
    case HorizonTooShort => p.maxMonths < 1
    case NonPositiveGoal => p.goal <= 0.0
  }

  /** Position of each check in the validation block. */
  function Rank(e: ParamError): nat
  {
    match e
    case NegativeStart => 0
    case NegativeContribution => 1
    case CagrOutOfRange => 2
    case NegativeVolatility => 3
    case TooFewPaths => 4
    case HorizonTooShort => 5
    case NonPositiveGoal => 6
  }

  /** The validation block: the first violated check, if any. */
  function Validate(p: Params): (r: Option<ParamError>)
    ensures r.None? <==> ValidParams(p)
    ensures r.Some? ==> Violates(p, r.value)
    ensures r.Some? ==> forall e :: Rank(e) < Rank(r.value) ==> !Violates(p, e)
  {
    if p.nuvarde < 0.0 then Some(NegativeStart)
    else if p.contrib < 0.0 then Some(NegativeContribution)
    else if !(0.0 <= p.cagr <= 1.0) then Some(CagrOutOfRange)
    else if p.vol < 0.0 then Some(NegativeVolatility)
    else if p.paths < MinPaths then Some(TooFewPaths)
    else if p.maxMonths < 1 then Some(HorizonTooShort)
    else if p.goal <= 0.0 then Some(NonPositiveGoal)
    else None
  }

  // ----- one path --------------------------------------------------------

  /** The k-th monthly growth factor drawn in a run, across all paths. */
  type Stream = nat -> Pos

  /** The deterministic branch: the same factor every month. */
  function Constant(g: Pos): Stream
  {
    (k: nat) => g
  }

  /** What one path needs: start value, monthly contribution, goal and the
      horizon in months. */
  datatype Barrier = Barrier(start: real, contrib: real, goal: real, horizon: nat)

  /** Value after m months of a path whose first draw is the offset-th one:
      v := v * factor + contrib, m times. */
  function ValueAfter(b: Barrier, s: Stream, offset: nat, m: nat): real
  {
    if m == 0 then b.start
    else ValueAfter(b, s, offset, m - 1) * s(offset + m - 1) + b.contrib
  }

  /** m is the path's recorded outcome: the first month within the horizon
      whose value reaches the goal, or the sentinel horizon + 1. */
  ghost predicate IsFirstHit(b: Barrier, s: Stream, offset: nat, m: int)
  {
    && 0 <= m <= b.horizon + 1
    && (m <= b.horizon ==> ValueAfter(b, s, offset, m) >= b.goal)
    && (forall k :: 0 <= k < m && k <= b.horizon ==> ValueAfter(b, s, offset, k) < b.goal)
  }

  lemma FirstHitUnique(b: Barrier, s: Stream, offset: nat, m1: nat, m2: nat)
    requires IsFirstHit(b, s, offset, m1) && IsFirstHit(b, s, offset, m2)
    ensures m1 == m2
  {
    assert m1 < m2 ==> ValueAfter(b, s, offset, m1) < b.goal;
    assert m2 < m1 ==> ValueAfter(b, s, offset, m2) < b.goal;
  }

  function SearchFrom(b: Barrier, s: Stream, offset: nat, k: nat): (m: int)
    requires k <= b.horizon
    requires forall j :: 0 <= j < k ==> ValueAfter(b, s, offset, j) < b.goal
    ensures IsFirstHit(b, s, offset, m)
    decreases b.horizon - k
  {
    if ValueAfter(b, s, offset, k) >= b.goal then k
    else if k == b.horizon then b.horizon + 1
    else SearchFrom(b, s, offset, k + 1)
  }

  /** Reference outcome of a path, by search over the months. */
  function PathOutcome(b: Barrier, s: Stream, offset: nat): (m: int)
    ensures IsFirstHit(b, s, offset, m)
  {
    SearchFrom(b, s, offset, 0)
  }

  /** A path that starts below the goal records a month in [1, horizon] or
      the sentinel. */
  lemma OutcomeRange(b: Barrier, s: Stream, offset: nat)
    requires b.start < b.goal
    ensures 1 <= PathOutcome(b, s, offset) <= b.horizon + 1
  {
    assert ValueAfter(b, s, offset, 0) == b.start;
  }

  /** Draws a path consumes: one per simulated month. */
  function Steps(b: Barrier, m: int): nat
  {
    if m > b.horizon then b.horizon else if m < 0 then 0 else m
  }

  /** The inner `while` loop for one path. */
  method RunPath(b: Barrier, s: Stream, offset: nat) returns (m: int)
    ensures IsFirstHit(b, s, offset, m)
    ensures m == PathOutcome(b, s, offset)
  {
    var v := b.start;
    var k := 0;
    while k < b.horizon && v < b.goal
      invariant 0 <= k <= b.horizon
      invariant v == ValueAfter(b, s, offset, k)
      invariant forall j :: 0 <= j < k ==> ValueAfter(b, s, offset, j) < b.goal
    {
      v := v * s(offset + k) + b.contrib;
      k := k + 1;
    }
    m := if v >= b.goal then k else b.horizon + 1;
    FirstHitUnique(b, s, offset, m, PathOutcome(b, s, offset));
  }

  // ----- all paths -------------------------------------------------------

  /** Outcomes of n paths drawn one after another from one stream. */
  function Outcomes(b: Barrier, s: Stream, offset: nat, n: nat): (r: seq<int>)
    ensures |r| == n
    decreases n
  {
    if n == 0 then []
    else
      var m := PathOutcome(b, s, offset);
      [m] + Outcomes(b, s, offset + Steps(b, m), n - 1)
  }

  /** The outer `for` loop over paths. */
  method SimulatePaths(b: Barrier, s: Stream, n: nat) returns (vals: seq<int>)
    ensures vals == Outcomes(b, s, 0, n)
  {
    vals := [];
    var offset: nat := 0;
    var i := 0;
    while i < n
      invariant 0 <= i <= n
      invariant vals + Outcomes(b, s, offset, n - i) == Outcomes(b, s, 0, n)
    {
      var m := RunPath(b, s, offset);
      assert Outcomes(b, s, offset, n - i) == [m] + Outcomes(b, s, offset + Steps(b, m), n - i - 1);
      assert vals + Outcomes(b, s, offset, n - i)
             == (vals + [m]) + Outcomes(b, s, offset + Steps(b, m), n - i - 1);
      vals := vals + [m];
      offset := offset + Steps(b, m);
      i := i + 1;
    }
    assert Outcomes(b, s, offset, 0) == [];
    assert vals + [] == vals;
  }

  lemma {:induction false} OutcomesRange(b: Barrier, s: Stream, offset: nat, n: nat)
    requires b.start < b.goal
    ensures forall i :: 0 <= i < n ==> 1 <= Outcomes(b, s, offset, n)[i] <= b.horizon + 1
    decreases n
  {
    if n > 0 {
      var m := PathOutcome(b, s, offset);
      OutcomeRange(b, s, offset);
      OutcomesRange(b, s, offset + Steps(b, m), n - 1);
    }
  }

  // ----- percentiles -----------------------------------------------------

  function Max(a: int, b: int): int { if a >= b then a else b }
  function Min(a: int, b: int): int { if a <= b then a else b }

  /** `pct`'s index into n sorted outcomes: round(p/100 * (n-1)), rounding
      half to even, clamped to the valid indices. For a percentile p <= 100
      it is the nearest rank. */
  function PctIndex(n: int, p: int): (k: int)
    requires n >= 1 && p >= 0
    ensures 0 <= k < n
    ensures p <= 100 ==> -100 <= 2 * (p * (n - 1) - k * 100) <= 100
    ensures p <= 100 && (2 * (p * (n - 1) - k * 100) == 100 || 2 * (p * (n - 1) - k * 100) == -100) ==> k % 2 == 0
  {
    var a := p * (n - 1);
    ScaledRank(n, p);
    var raw := RoundHalfEven(a, 100);
    Max(0, Min(n - 1, raw))
  }

  /** Exact halves round to the even index: 10% of 105 gaps is 10.5, which
      picks index 10, and 50% of 4999 gaps is 2499.5, which picks 2500. */
  lemma PctIndexTieExamples()
    ensures PctIndex(106, 10) == 10
    ensures PctIndex(5000, 50) == 2500
  {
    var k1 := PctIndex(106, 10);
    assert 2 * (1050 - k1 * 100) == 100 || 2 * (1050 - k1 * 100) == -100 || -100 < 2 * (1050 - k1 * 100) < 100;
    var k2 := PctIndex(5000, 50);
    assert 2 * (249950 - k2 * 100) == 100 || 2 * (249950 - k2 * 100) == -100 || -100 < 2 * (249950 - k2 * 100) < 100;
  }

  lemma ScaledRank(n: int, p: int)
    requires n >= 1 && p >= 0
    ensures p * (n - 1) >= 0
    ensures p <= 100 ==> p * (n - 1) <= 100 * (n - 1)
  {
  }

  lemma ScaleMonotone(p: int, q: int, c: int)
    requires 0 <= p <= q && c >= 0
    ensures 0 <= p * c <= q * c
  {
    assert q * c - p * c == (q - p) * c;
  }

  lemma PctIndexMonotone(n: int, p: int, q: int)
    requires n >= 1 && 0 <= p <= q
    ensures PctIndex(n, p) <= PctIndex(n, q)
  {
    ScaleMonotone(p, q, n - 1);
    RoundHalfEvenMonotone(p * (n - 1), q * (n - 1), 100);
  }

  function Pct(sorted: seq<int>, p: int): int
    requires |sorted| >= 1 && p >= 0
  {
    sorted[PctIndex(|sorted|, p)]
  }

  ghost predicate Ascending(s: seq<int>)
  {
    forall i, j :: 0 <= i < j < |s| ==> s[i] <= s[j]
  }

  function SortInts(vals: seq<int>): (r: seq<int>)
    ensures Ascending(r)
    ensures multiset(r) == multiset(vals)
    ensures |r| == |vals|
  {
    Sorting.SortBy(vals, (x: int) => x)
  }

  function Below(x: int): int -> bool
  {
    (y: int) => y < x
  }

  function AtMost(x: int): int -> bool
  {
    (y: int) => y <= x
  }

  /** x is the outcome of rank k (counting from 0) in ascending order: at
      most k outcomes lie below x and more than k lie at or below it. This
      speaks of the outcomes as given, not of any particular sort. */
  ghost predicate IsRank(vals: seq<int>, k: int, x: int)
  {
    Sorting.CountIf(vals, Below(x)) <= k < Sorting.CountIf(vals, AtMost(x))
  }

  /** The element at position k of an ascending arrangement of the outcomes
      has rank k among them. */
  lemma SortedPickIsRank(vals: seq<int>, sorted: seq<int>, k: int)
    requires Ascending(sorted) && multiset(sorted) == multiset(vals)
    requires 0 <= k < |sorted|
    ensures IsRank(vals, k, sorted[k])
  {
    var x := sorted[k];
    Sorting.CountPermutation(sorted, vals, Below(x));
    Sorting.CountPermutation(sorted, vals, AtMost(x));
    SortedFewBelow(sorted, k);
    SortedEnoughAtMost(sorted, k);
  }

  /** In an ascending sequence nothing from position k on lies below s[k]. */
  lemma SortedFewBelow(s: seq<int>, k: int)
    requires Ascending(s) && 0 <= k < |s|
    ensures Sorting.CountIf(s, Below(s[k])) <= k
  {
    var x := s[k];
    var lo, hi := s[..k], s[k..];
    assert s == lo + hi;
    Sorting.CountAppend(lo, hi, Below(x));
    forall i | 0 <= i < |hi| ensures !Below(x)(hi[i]) {
      assert hi[i] == s[k + i];
    }
    Sorting.CountNone(hi, Below(x));
  }

  /** In an ascending sequence everything up to position k lies at or below
      s[k]. */
  lemma SortedEnoughAtMost(s: seq<int>, k: int)
    requires Ascending(s) && 0 <= k < |s|
    ensures Sorting.CountIf(s, AtMost(s[k])) >= k + 1
  {
    var x := s[k];
    var lo, hi := s[..k + 1], s[k + 1..];
    assert s == lo + hi;
    Sorting.CountAppend(lo, hi, AtMost(x));
    forall i | 0 <= i < |lo| ensures AtMost(x)(lo[i]) {
      assert lo[i] == s[i];
    }
    Sorting.CountAll(lo, AtMost(x));
  }

  /** A rank determines its outcome: at most one value has rank k. */
  lemma RankUnique(vals: seq<int>, k: int, x1: int, x2: int)
    requires IsRank(vals, k, x1) && IsRank(vals, k, x2)
    ensures x1 == x2
  {
    if x1 < x2 {
      Sorting.CountMonotone(vals, AtMost(x1), Below(x2));
    } else if x2 < x1 {
      Sorting.CountMonotone(vals, AtMost(x2), Below(x1));
    }
  }

  /** Sort the outcomes and read off the three percentiles: each is the
      outcome whose rank is the rounded index of its percentile, so they are
      ordered and each is one of the outcomes. */
  function Summarize(vals: seq<int>): (r: Percentiles)
    requires |vals| >= 1
    ensures IsRank(vals, PctIndex(|vals|, 10), r.p10)
    ensures IsRank(vals, PctIndex(|vals|, 50), r.p50)
    ensures IsRank(vals, PctIndex(|vals|, 90), r.p90)
    ensures r.p10 <= r.p50 <= r.p90
    ensures r.p10 in vals && r.p50 in vals && r.p90 in vals
  {
    var sorted := SortInts(vals);
    var n := |sorted|;
    PctIndexMonotone(n, 10, 50);
    PctIndexMonotone(n, 50, 90);
    SortedPickIsRank(vals, sorted, PctIndex(n, 10));
    SortedPickIsRank(vals, sorted, PctIndex(n, 50));
    SortedPickIsRank(vals, sorted, PctIndex(n, 90));
    SortedPickMember(vals, sorted, PctIndex(n, 10));
    SortedPickMember(vals, sorted, PctIndex(n, 50));
    SortedPickMember(vals, sorted, PctIndex(n, 90));
    AscendingPicks(sorted, PctIndex(n, 10), PctIndex(n, 50));
    AscendingPicks(sorted, PctIndex(n, 50), PctIndex(n, 90));
    Percentiles(Pct(sorted, 10), Pct(sorted, 50), Pct(sorted, 90))
  }

  lemma SortedPickMember(vals: seq<int>, sorted: seq<int>, k: int)
    requires multiset(sorted) == multiset(vals) && 0 <= k < |sorted|
    ensures sorted[k] in vals
  {
    assert sorted[k] in multiset(sorted);
  }

  lemma AscendingPicks(sorted: seq<int>, i: int, j: int)
    requires Ascending(sorted) && 0 <= i <= j < |sorted|
    ensures sorted[i] <= sorted[j]
  {
  }

  /** All outcomes equal means all percentiles equal that outcome. */
  lemma SummarizeConstant(vals: seq<int>, m: int)
    requires |vals| >= 1
    requires forall i :: 0 <= i < |vals| ==> vals[i] == m
    ensures Summarize(vals) == Percentiles(m, m, m)
  {
    var r := Summarize(vals);
    assert r.p10 in vals && r.p50 in vals && r.p90 in vals;
  }

  // ----- the whole run ---------------------------------------------------

  /** (1 + cagr)^(1/12), with exactly 1 for cagr = 0; `growth` stands for the
      root, which is not modelled. */
  function MonthlyGrowth(cagr: real, growth: Pos): Pos
  {
    if cagr != 0.0 then growth else 1.0
  }

  /** vol = 0 uses the constant factor; otherwise the drawn factors. */
  function PathStream(p: Params, growth: Pos, draws: Stream): Stream
  {
    if p.vol <= 0.0 then Constant(MonthlyGrowth(p.cagr, growth)) else draws
  }

  function BarrierOf(p: Params): Barrier
    requires p.maxMonths >= 0
  {
    Barrier(p.nuvarde, p.contrib, p.goal, p.maxMonths)
  }

  /** `time_to_goal_mc`. */
  method TimeToGoal(p: Params, growth: Pos, draws: Stream) returns (r: Result<Percentiles, ParamError>)
    ensures r.Failure? <==> !ValidParams(p)
    ensures r.Failure? ==> Validate(p) == Some(r.error)
    ensures r.Success? && p.nuvarde >= p.goal ==> r.value == Percentiles(0, 0, 0)
    ensures r.Success? && p.nuvarde < p.goal ==>
              var vals := Outcomes(BarrierOf(p), PathStream(p, growth, draws), 0, p.paths);
              && 1 <= r.value.p10 <= r.value.p50 <= r.value.p90 <= p.maxMonths + 1
              && r.value.p10 in vals && r.value.p50 in vals && r.value.p90 in vals
              && IsRank(vals, PctIndex(p.paths, 10), r.value.p10)
              && IsRank(vals, PctIndex(p.paths, 50), r.value.p50)
              && IsRank(vals, PctIndex(p.paths, 90), r.value.p90)
    ensures r.Success? && p.vol == 0.0 ==>
              var m := PathOutcome(BarrierOf(p), Constant(MonthlyGrowth(p.cagr, growth)), 0);
              r.value == Percentiles(m, m, m)
    ensures r.Success? && p.vol == 0.0 && p.cagr == 0.0 ==>
              r.value.p50 == LinearMonths(BarrierOf(p))
    ensures r.Success? && p.vol == 0.0 && p.cagr == 0.0 && p.contrib == 0.0 && p.nuvarde < p.goal ==>
              r.value.p50 == p.maxMonths + 1
  {
    var err := Validate(p);
    if err.Some? {
      return Failure(err.value);
    }
    var b := BarrierOf(p);
    if p.nuvarde >= p.goal {
      if p.vol == 0.0 {
        assert ValueAfter(b, Constant(MonthlyGrowth(p.cagr, growth)), 0, 0) >= p.goal;
      }
      if p.vol == 0.0 && p.cagr == 0.0 {
        LinearOutcome(b);
      }
      return Success(Percentiles(0, 0, 0));
    }
    if p.vol == 0.0 && p.cagr == 0.0 {
      LinearOutcome(b);
    }
    var s := PathStream(p, growth, draws);
    var vals := SimulatePaths(b, s, p.paths);
    OutcomesRange(b, s, 0, p.paths);
    var summary := Summarize(vals);
    if p.vol == 0.0 {
      ConstantOutcomes(b, MonthlyGrowth(p.cagr, growth), 0, p.paths);
      SummarizeConstant(vals, PathOutcome(b, Constant(MonthlyGrowth(p.cagr, growth)), 0));
    }
    return Success(summary);
  }

  // ----- the deterministic branch ----------------------------------------

  lemma {:induction false} ConstantValueAfter(b: Barrier, g: Pos, o1: nat, o2: nat, m: nat)
    ensures ValueAfter(b, Constant(g), o1, m) == ValueAfter(b, Constant(g), o2, m)
  {
    if m > 0 {
      ConstantValueAfter(b, g, o1, o2, m - 1);
    }
  }

  /** With a constant factor the draw offset is irrelevant, so every path of
      the deterministic branch records the same outcome. */
  lemma {:induction false} ConstantOutcomes(b: Barrier, g: Pos, offset: nat, n: nat)
    ensures forall i :: 0 <= i < n ==> Outcomes(b, Constant(g), offset, n)[i] == PathOutcome(b, Constant(g), 0)
    decreases n
  {
    if n > 0 {
      var m := PathOutcome(b, Constant(g), offset);
      forall k: nat ensures ValueAfter(b, Constant(g), offset, k) == ValueAfter(b, Constant(g), 0, k) {
        ConstantValueAfter(b, g, offset, 0, k);
      }
      assert IsFirstHit(b, Constant(g), 0, m);
      FirstHitUnique(b, Constant(g), 0, m, PathOutcome(b, Constant(g), 0));
      ConstantOutcomes(b, g, offset + Steps(b, m), n - 1);
    }
  }

  /** With no growth the value after m months is the start plus m
      contributions. */
  lemma {:induction false} LinearValue(b: Barrier, offset: nat, m: nat)
    ensures ValueAfter(b, Constant(1.0), offset, m) == b.start + (m as real) * b.contrib
  {
    if m > 0 {
      LinearValue(b, offset, m - 1);
    }
  }

  /** Closed form of the no-growth path: the least m reaching the goal,
      ceil((goal - start) / contrib), when that is within the horizon. */
  function LinearMonths(b: Barrier): int
  {
    if b.start >= b.goal then 0
    else if b.contrib > 0.0 && Ceil((b.goal - b.start) / b.contrib) <= b.horizon then
      Ceil((b.goal - b.start) / b.contrib)
    else b.horizon + 1
  }

  /** k contributions fall short of the gap exactly when k is below
      gap / contrib. */
  lemma ContributionsVersusGap(b: Barrier, k: nat)
    requires b.contrib > 0.0
    ensures (k as real) < (b.goal - b.start) / b.contrib ==> b.start + (k as real) * b.contrib < b.goal
    ensures (k as real) >= (b.goal - b.start) / b.contrib ==> b.start + (k as real) * b.contrib >= b.goal
  {
    var x := (b.goal - b.start) / b.contrib;
    assert x * b.contrib == b.goal - b.start;
    if (k as real) < x {
      assert (k as real) * b.contrib < x * b.contrib;
    } else {
      assert (k as real) * b.contrib >= x * b.contrib;
    }
  }

  /** The simulated no-growth path records exactly the closed form. */
  lemma LinearOutcome(b: Barrier)
    requires b.contrib >= 0.0
    ensures PathOutcome(b, Constant(1.0), 0) == LinearMonths(b)
  {
    var s := Constant(1.0);
    var l := LinearMonths(b);
    forall k: nat ensures ValueAfter(b, s, 0, k) == b.start + (k as real) * b.contrib {
      LinearValue(b, 0, k);
    }
    if b.start < b.goal {
      if b.contrib > 0.0 {
        var c := Ceil((b.goal - b.start) / b.contrib);
        forall k: nat | k < c
          ensures ValueAfter(b, s, 0, k) < b.goal
        {
          ContributionsVersusGap(b, k);
        }
        if c <= b.horizon {
          ContributionsVersusGap(b, c);
        }
      }
    }
    assert IsFirstHit(b, s, 0, l);
    FirstHitUnique(b, s, 0, l, PathOutcome(b, s, 0));
  }

  /** 100 000 growing by 2 000 a month reaches 200 000 after 50 months. */
  lemma LinearExample()
    ensures PathOutcome(Barrier(100000.0, 2000.0, 200000.0, 360), Constant(1.0), 0) == 50
  {
    LinearOutcome(Barrier(100000.0, 2000.0, 200000.0, 360));
    assert (200000.0 - 100000.0) / 2000.0 == 50.0;
  }

  /** Without growth or contributions a goal above the start is never
      reached: the path records the sentinel. */
  lemma NoGrowthNoContributionUnreachable(b: Barrier)
    requires b.contrib == 0.0 && b.start < b.goal
    ensures PathOutcome(b, Constant(1.0), 0) == b.horizon + 1
  {
    LinearOutcome(b);
  }

  /** The factor a path applies in its k-th month. */
  function Factor(s: Stream, offset: nat, k: nat): Pos
  {
    s(offset + k)
  }

  ghost predicate FactorsDominated(s1: Stream, o1: nat, s2: Stream, o2: nat, n: nat)
  {
    forall k: nat :: k < n ==> Factor(s1, o1, k) <= Factor(s2, o2, k)
  }

  /** More start value, more contribution and larger factors give a larger
      value in every month. */
  lemma {:induction false} ValueAfterMonotone(b1: Barrier, b2: Barrier, s1: Stream, o1: nat, s2: Stream, o2: nat, m: nat)
    requires 0.0 <= b1.start <= b2.start && 0.0 <= b1.contrib <= b2.contrib
    requires FactorsDominated(s1, o1, s2, o2, m)
    ensures 0.0 <= ValueAfter(b1, s1, o1, m) <= ValueAfter(b2, s2, o2, m)
  {
    if m > 0 {
      ValueAfterMonotone(b1, b2, s1, o1, s2, o2, m - 1);
      var v1, v2 := ValueAfter(b1, s1, o1, m - 1), ValueAfter(b2, s2, o2, m - 1);
      var g1, g2 := Factor(s1, o1, m - 1), Factor(s2, o2, m - 1);
      assert g1 <= g2;
      ScaledMonotone(v1, v2, g1, g2);
    }
  }

  lemma ScaledMonotone(v1: real, v2: real, g1: real, g2: real)
    requires 0.0 <= v1 <= v2 && 0.0 < g1 <= g2
    ensures 0.0 <= v1 * g1 <= v2 * g2
  {
    assert v1 * g1 <= v2 * g1;
    assert v2 * g1 <= v2 * g2;
  }

  /** A path that dominates another month by month reaches the same goal no
      later. */
  lemma PathMonotone(b1: Barrier, b2: Barrier, s1: Stream, o1: nat, s2: Stream, o2: nat)
    requires 0.0 <= b1.start <= b2.start && 0.0 <= b1.contrib <= b2.contrib
    requires b1.goal == b2.goal && b1.horizon == b2.horizon
    requires FactorsDominated(s1, o1, s2, o2, b1.horizon)
    ensures PathOutcome(b2, s2, o2) <= PathOutcome(b1, s1, o1)
  {
    var m1 := PathOutcome(b1, s1, o1);
    if m1 <= b1.horizon {
      ValueAfterMonotone(b1, b2, s1, o1, s2, o2, m1);
      assert ValueAfter(b2, s2, o2, m1) >= b2.goal;
    }
  }

  /** The deterministic branch: a larger monthly contribution or a larger
      monthly growth factor never delays the goal. */
  lemma DeterministicMonotone(b1: Barrier, b2: Barrier, g1: Pos, g2: Pos)
    requires 0.0 <= b1.start == b2.start && 0.0 <= b1.contrib <= b2.contrib
    requires b1.goal == b2.goal && b1.horizon == b2.horizon
    requires g1 <= g2
    ensures PathOutcome(b2, Constant(g2), 0) <= PathOutcome(b1, Constant(g1), 0)
  {
    PathMonotone(b1, b2, Constant(g1), 0, Constant(g2), 0);
  }
}
