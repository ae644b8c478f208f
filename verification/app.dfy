/** The web front end's own logic: the input guards run before the pipeline
    and the conversion of a month count into years and months. */
module App {
  import opened Wrappers
  import MonteCarlo

  /** Python's `m // 12, m % 12`. For a positive divisor Dafny's Euclidean
      division and Python's floor division agree. */
  function MonthsToYm(m: int): (r: (int, int))
    ensures 12 * r.0 + r.1 == m
    ensures 0 <= r.1 < 12
  {
    (m / 12, m % 12)
  }

  /** The pair is the only split of m into whole years and a month
      remainder, so it inverts `12 * years + months`. */
  lemma MonthsToYmUnique(m: int, y: int, mo: int)
    requires 12 * y + mo == m && 0 <= mo < 12
    ensures MonthsToYm(m) == (y, mo)
  {
  }

  /** A non-negative month count has non-negative years, and years never
      decrease as months grow. */
  lemma MonthsToYmMonotone(m1: int, m2: int)
    requires m1 <= m2
    ensures MonthsToYm(m1).0 <= MonthsToYm(m2).0
    ensures m1 >= 0 ==> MonthsToYm(m1).0 >= 0
  {
  }

  /** The 50-month result of a run reads as 4 years and 2 months; the
      sentinel 601 of a 600-month horizon as 50 years and 1 month. */
  lemma MonthsToYmExamples()
    ensures MonthsToYm(50) == (4, 2)
    ensures MonthsToYm(601) == (50, 1)
    ensures MonthsToYm(0) == (0, 0)
  {
    MonthsToYmUnique(50, 4, 2);
    MonthsToYmUnique(601, 50, 1);
    MonthsToYmUnique(0, 0, 0);
  }

  // ---------------------------------------------------------------------
  // Input guards

  /** The form as submitted. */
  datatype Inputs = Inputs(
    hasTransactions: bool,
    hasPositions: bool,
    goal: real,
    paths: int,
    vol: real,
    cagr: real,
    maxHorizon: int)

  datatype GuardError =
    | MissingTransactions
    | MissingPositions
    | GoalNotPositive
    | TooFewPaths
    | NegativeVol
    | CagrOutOfRange
    | HorizonTooShort

  /** The condition each message reports. */
  predicate Violated(inp: Inputs, e: GuardError)
  {
    match e
    case MissingTransactions => !inp.hasTransactions
    case MissingPositions => !inp.hasPositions
    case GoalNotPositive => inp.goal <= 0.0
    case TooFewPaths => inp.paths < 100
    case NegativeVol => inp.vol < 0.0
    case CagrOutOfRange => !(0.0 <= inp.cagr <= 1.0)
    case HorizonTooShort => inp.maxHorizon < 1
  }

  /** Position of each check in the guard block. */
  function Rank(e: GuardError): nat
  {
    match e
    case MissingTransactions => 0
    case MissingPositions => 1
    case GoalNotPositive => 2
    case TooFewPaths => 3
    case NegativeVol => 4
    case CagrOutOfRange => 5
    case HorizonTooShort => 6
  }

  /** The message shown for each error. */
  function Message(e: GuardError): string
  {
    match e
    case MissingTransactions => "Ladda upp transactions.csv"
    case MissingPositions => "Ladda upp positions.csv"
    case GoalNotPositive => "Målbelopp måste vara > 0"
    case TooFewPaths => "Paths måste vara ≥ 100"
    case NegativeVol => "Vol måste vara ≥ 0"
    case CagrOutOfRange => "CAGR måste ligga i [0,1]"
    case HorizonTooShort => "Max horisont måste vara ≥ 1"
  }

  /** Distinct errors have distinct messages. */
  lemma MessageInjective(e1: GuardError, e2: GuardError)
    requires Message(e1) == Message(e2)
    ensures e1 == e2
  {
  }

  /** The checks in the order the block runs them. */
  const Order: seq<GuardError> := [MissingTransactions, MissingPositions, GoalNotPositive,
                                   TooFewPaths, NegativeVol, CagrOutOfRange, HorizonTooShort]

  ghost predicate AscendingRanks(s: seq<GuardError>)
  {
    forall i, j :: 0 <= i < j < |s| ==> Rank(s[i]) < Rank(s[j])
  }

  lemma OrderComplete(e: GuardError)
    ensures e in Order
    ensures AscendingRanks(Order)
  {
    assert Order[Rank(e)] == e;
  }

  /** The checks of s that fail, in the order of s. */
  function Failing(inp: Inputs, s: seq<GuardError>): seq<GuardError>
  {
    if |s| == 0 then []
    else (if Violated(inp, s[0]) then [s[0]] else []) + Failing(inp, s[1..])
  }

  lemma {:induction false} FailingMembers(inp: Inputs, s: seq<GuardError>)
    ensures forall e :: e in Failing(inp, s) <==> e in s && Violated(inp, e)
  {
    if |s| > 0 {
      FailingMembers(inp, s[1..]);
      assert s == [s[0]] + s[1..];
    }
  }

  lemma {:induction false} FailingAscending(inp: Inputs, s: seq<GuardError>)
    requires AscendingRanks(s)
    ensures AscendingRanks(Failing(inp, s))
  {
    if |s| > 0 {
      var rest := Failing(inp, s[1..]);
      FailingAscending(inp, s[1..]);
      FailingMembers(inp, s[1..]);
      forall x | x in rest ensures Rank(s[0]) < Rank(x) {
        var k :| 0 <= k < |s[1..]| && s[1..][k] == x;
        assert s[k + 1] == x;
      }
      if Violated(inp, s[0]) {
        ConsAscending(s[0], rest);
      }
    }
  }

  /** A check ranked before everything in an ascending list keeps it
      ascending when put in front. */
  lemma ConsAscending(x: GuardError, rest: seq<GuardError>)
    requires AscendingRanks(rest) && forall y :: y in rest ==> Rank(x) < Rank(y)
    ensures AscendingRanks([x] + rest)
  {
    var r := [x] + rest;
    forall i, j | 0 <= i < j < |r|
      ensures Rank(r[i]) < Rank(r[j])
    {
      assert r[j] == rest[j - 1];
      if i > 0 {
        assert r[i] == rest[i - 1];
      }
    }
  }

  /** The guard block: every violated check, in the order of the block. */
  function Guards(inp: Inputs): (r: seq<GuardError>)
    ensures forall e :: e in r <==> Violated(inp, e)
    ensures forall i, j :: 0 <= i < j < |r| ==> Rank(r[i]) < Rank(r[j])
  {
    OrderComplete(MissingTransactions);
    FailingMembers(inp, Order);
    FailingAscending(inp, Order);
    assert forall e :: e in Order by {
      forall e ensures e in Order {
        OrderComplete(e);
      }
    }
    Failing(inp, Order)
  }

  /** The messages shown: a check's message appears exactly when the check
      is violated, one message per violated check, and the run goes ahead
      exactly when there is none. */
  function Messages(inp: Inputs): (r: seq<string>)
    ensures forall e :: Message(e) in r <==> Violated(inp, e)
    ensures |r| == |Guards(inp)|
    ensures r == [] <==> Proceeds(inp)
  {
    var g := Guards(inp);
    var r := seq(|g|, i requires 0 <= i < |g| => Message(g[i]));
    forall e ensures Message(e) in r <==> Violated(inp, e) {
      if Message(e) in r {
        var i :| 0 <= i < |r| && r[i] == Message(e);
        MessageInjective(e, g[i]);
      }
      if Violated(inp, e) {
        var i :| 0 <= i < |g| && g[i] == e;
        assert r[i] == Message(e);
      }
    }
    r
  }

  /** The run stops exactly when some guard fails. */
  predicate Proceeds(inp: Inputs)
  {
    |Guards(inp)| == 0
  }

  /** The parameters the simulation receives from a run that passed the
      guards. */
  function SimParams(inp: Inputs, nuvarde: real, contrib: real): MonteCarlo.Params
  {
    MonteCarlo.Params(nuvarde, contrib, inp.cagr, inp.vol, inp.maxHorizon, inp.paths, inp.goal)
  }

  /** The guards cover every check of the simulation except the signs of the
      present value and of the mean contribution, which come from the files:
      with those non-negative a run that passed the guards is accepted. */
  lemma GuardsCoverSimulation(inp: Inputs, nuvarde: real, contrib: real)
    requires Proceeds(inp)
    ensures inp.hasTransactions && inp.hasPositions
    ensures MonteCarlo.Validate(SimParams(inp, nuvarde, contrib)).None? <==> nuvarde >= 0.0 && contrib >= 0.0
  {
    forall e ensures !Violated(inp, e) {
      assert e !in Guards(inp);
    }
    assert !Violated(inp, MissingTransactions) && !Violated(inp, MissingPositions);
    assert !Violated(inp, GoalNotPositive) && !Violated(inp, TooFewPaths) && !Violated(inp, NegativeVol);
    assert !Violated(inp, CagrOutOfRange) && !Violated(inp, HorizonTooShort);
  }

  /** A net outflow of contributions passes the guards but is rejected by
      the simulation. */
  lemma NegativeContributionPassesGuards(inp: Inputs, nuvarde: real, contrib: real)
    requires Proceeds(inp) && nuvarde >= 0.0 && contrib < 0.0
    ensures MonteCarlo.Validate(SimParams(inp, nuvarde, contrib)) == Some(MonteCarlo.NegativeContribution)
  {
    GuardsCoverSimulation(inp, nuvarde, contrib);
    var p := SimParams(inp, nuvarde, contrib);
    assert MonteCarlo.Violates(p, MonteCarlo.NegativeContribution);
  }
}
