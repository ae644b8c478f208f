/** Diagnostics: the money-weighted return (XIRR) of the portfolio, built from
    the deposits and withdrawals of the transaction table plus a terminal
    flow equal to today's market value. */
module Diagnostics {
  import opened Wrappers
  import opened Numeric
  import opened Calendar
  import opened Contrib
  import opened Mwrr

  const MarketValue: string := "Marknadsvärde"

  /** A position table: its column names and the market value of each
      holding. */
  datatype PosFrame = PosFrame(columns: set<string>, marketValues: seq<real>)

  datatype DiagError = MissingColumn(name: string) | NoSignMix

  /** The first column the computation reads that is missing: "Typ" of the
      transactions, then "Belopp", then "Datum", then the market value of
      the positions. */
  function FirstMissing(trx: TxnFrame, pos: PosFrame): (r: Option<string>)
    ensures r.None? <==> {"Typ", "Belopp", "Datum"} <= trx.columns && MarketValue in pos.columns
    ensures r == Some("Typ") <==> "Typ" !in trx.columns
    ensures r == Some("Belopp") <==> "Typ" in trx.columns && "Belopp" !in trx.columns
    ensures r == Some("Datum") <==> {"Typ", "Belopp"} <= trx.columns && "Datum" !in trx.columns
    ensures r == Some(MarketValue) <==> {"Typ", "Belopp", "Datum"} <= trx.columns && MarketValue !in pos.columns
  {
    if "Typ" !in trx.columns then Some("Typ")
    else if "Belopp" !in trx.columns then Some("Belopp")
    else if "Datum" !in trx.columns then Some("Datum")
    else if MarketValue !in pos.columns then Some(MarketValue)
    else None
  }

  /** The investor's view of a contribution: a deposit leaves the investor
      (negative), a withdrawal comes back (positive). */
  function FlowAmount(t: Txn): (r: real)
    ensures Abs(r) == Abs(t.amount)
    ensures t.kind == Deposit ==> r <= 0.0
    ensures t.kind == Withdrawal ==> r >= 0.0
  {
    if t.kind == Deposit then -Abs(t.amount) else Abs(t.amount)
  }

  /** The cash flows of the deposits and withdrawals, in table order. They
      are exactly the prepared contribution rows with the sign reversed. */
  function ContributionFlows(txns: seq<Txn>): (r: seq<CashFlow>)
    ensures |r| == |Prepared(txns)|
    ensures forall i :: 0 <= i < |r| ==>
              r[i].date == Prepared(txns)[i].date && r[i].amount == -Prepared(txns)[i].signed
  {
    if |txns| == 0 then []
    else
      var rest := ContributionFlows(txns[1..]);
      if IsContribution(txns[0]) then [CashFlow(txns[0].date, FlowAmount(txns[0]))] + rest else rest
  }

  /** The flows handed to the solver: the contribution flows followed by
      today's total market value, or the first missing column, or the lack
      of a flow of each sign. */
  function XirrFlows(trx: TxnFrame, pos: PosFrame, today: CalDate): (r: Result<seq<CashFlow>, DiagError>)
    ensures r.Failure? && FirstMissing(trx, pos).Some? ==> r.error == MissingColumn(FirstMissing(trx, pos).value)
    ensures FirstMissing(trx, pos).None? ==>
              var f := ContributionFlows(trx.rows) + [CashFlow(today, Sum(pos.marketValues))];
              (r.Failure? <==> !(HasNegative(f) && HasPositive(f)))
              && (r.Failure? ==> r.error == NoSignMix)
              && (r.Success? ==> r.value == f)
    ensures r.Success? ==> FirstMissing(trx, pos).None? && |r.value| == |Prepared(trx.rows)| + 1
  {
    match FirstMissing(trx, pos)
    case Some(c) => Failure(MissingColumn(c))
    case None =>
      var f := ContributionFlows(trx.rows) + [CashFlow(today, Sum(pos.marketValues))];
      if HasNegative(f) && HasPositive(f) then Success(f) else Failure(NoSignMix)
  }

  /** Without any deposit or withdrawal the only flow is the terminal one,
      which cannot carry both signs. */
  lemma NoContributionsNoRate(trx: TxnFrame, pos: PosFrame, today: CalDate)
    requires FirstMissing(trx, pos).None?
    requires forall t :: t in trx.rows ==> !IsContribution(t)
    ensures XirrFlows(trx, pos, today) == Failure(NoSignMix)
  {
    PreparedMembers(trx.rows, Txn(today, "", 0.0));
    var f := ContributionFlows(trx.rows) + [CashFlow(today, Sum(pos.marketValues))];
    assert |f| == 1;
  }

  /** A non-zero deposit and a positive market value always give the solver
      flows of both signs. */
  lemma DepositAndValueGiveFlows(trx: TxnFrame, pos: PosFrame, today: CalDate, t: Txn)
    requires FirstMissing(trx, pos).None?
    requires t in trx.rows && t.kind == Deposit && t.amount != 0.0
    requires Sum(pos.marketValues) > 0.0
    ensures XirrFlows(trx, pos, today).Success?
  {
    PreparedMembers(trx.rows, t);
    var p := Prepared(trx.rows);
    var c := ContributionFlows(trx.rows);
    var i :| 0 <= i < |p| && p[i] == RowOf(t);
    var f := c + [CashFlow(today, Sum(pos.marketValues))];
    assert f[i] == c[i];
    assert f[|f| - 1].amount > 0.0;
  }

  /** x is what the solver may return for the flows of the tables: a rate
      inside the widest bracket that either solves the NPV of the sorted
      flows by bisection or is the better endpoint. */
  ghost predicate IsXirrOf(trx: TxnFrame, pos: PosFrame, today: CalDate, pow: PowFn, x: real)
    requires XirrFlows(trx, pos, today).Success?
  {
    var f := SortByDate(XirrFlows(trx, pos, today).value);
    && |f| > 0
    && LoFloor <= x <= HiCeil
    && (Solved(NpvOf(pow, f), x) || BestEndpoint(NpvOf(pow, f), x))
  }

  /** The XIRR of the tables: the solver's rate for the flows, or why there
      is none. */
  method ComputeXirrFromFrames(trx: TxnFrame, pos: PosFrame, today: CalDate, pow: PowFn)
    returns (r: Result<real, DiagError>)
    ensures r.Failure? <==> XirrFlows(trx, pos, today).Failure?
    ensures r.Failure? ==> r.error == XirrFlows(trx, pos, today).error
    ensures r.Success? ==> IsXirrOf(trx, pos, today, pow, r.value)
  {
    var flows := XirrFlows(trx, pos, today);
    if flows.Failure? {
      return Failure(flows.error);
    }
    var x := Xirr(flows.value, pow);
    assert x.Success?;
    return Success(x.value);
  }

  /** The diagnostics table: a single entry "xirr". */
  method DiagnosticsDict(trx: TxnFrame, pos: PosFrame, today: CalDate, pow: PowFn)
    returns (r: Result<map<string, real>, DiagError>)
    ensures r.Failure? <==> XirrFlows(trx, pos, today).Failure?
    ensures r.Failure? ==> r.error == XirrFlows(trx, pos, today).error
    ensures r.Success? ==> r.value.Keys == {"xirr"} && IsXirrOf(trx, pos, today, pow, r.value["xirr"])
  {
    var x := ComputeXirrFromFrames(trx, pos, today, pow);
    match x
    case Failure(e) => return Failure(e);
    case Success(v) =>
      var m := map["xirr" := v];
      assert m.Keys == {"xirr"} && m["xirr"] == v;
      return Success(m);
  }
}
