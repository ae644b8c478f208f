/** Contributions: deposits and withdrawals of the transaction history, with a
    canonical sign, summed per calendar month and averaged over the months
    that have any. */
module Contrib {
  import opened Wrappers
  import opened Numeric
  import opened Calendar

  const Deposit: string := "Insättning"
  const Withdrawal: string := "Uttag"
  const ContribTypes: set<string> := {Deposit, Withdrawal}
  const Required: set<string> := {"Datum", "Typ", "Belopp"}

  /** One transaction row: date, kind ("Typ") and amount ("Belopp") as
      exported, with whatever sign the export used. */
  datatype Txn = Txn(date: CalDate, kind: string, amount: real)

  /** A transaction table: the column names it carries and its rows. */
  datatype TxnFrame = TxnFrame(columns: set<string>, rows: seq<Txn>)

  /** A calendar month, the grouping key "YYYY-MM". */
  datatype MonthKey = MonthKey(year: int, month: int)

  /** A prepared contribution row. */
  datatype Row = Row(date: CalDate, month: MonthKey, kind: string, signed: real)

  datatype ContribError = MissingColumns(missing: set<string>)

  /** A table is empty when it has no rows or no columns. */
  predicate IsEmpty(f: TxnFrame)
  {
    |f.rows| == 0 || |f.columns| == 0
  }

  predicate IsContribution(t: Txn)
  {
    t.kind in ContribTypes
  }

  function MonthOf(d: CalDate): MonthKey
  {
    MonthKey(d.year, d.month)
  }

  /** Deposits count positive and withdrawals negative, whatever the sign of
      the exported amount. */
  function SignedAmount(kind: string, amount: real): (r: real)
    ensures Abs(r) == Abs(amount)
    ensures kind == Deposit ==> r >= 0.0
    ensures kind != Deposit ==> r <= 0.0
  {
    if kind == Deposit then Abs(amount) else -Abs(amount)
  }

  /** The exported sign never matters. */
  lemma SignedAmountIgnoresExportSign(kind: string, amount: real)
    ensures SignedAmount(kind, -amount) == SignedAmount(kind, amount)
    ensures kind == Deposit ==> SignedAmount(kind, amount) == Abs(amount)
    ensures kind != Deposit ==> SignedAmount(kind, amount) == -Abs(amount)
  {
  }

  function RowOf(t: Txn): Row
  {
    Row(t.date, MonthOf(t.date), t.kind, SignedAmount(t.kind, t.amount))
  }

  /** The deposits and withdrawals of a row sequence, in order, prepared. */
  function Prepared(txns: seq<Txn>): (r: seq<Row>)
    ensures |r| <= |txns|
    ensures forall i :: 0 <= i < |r| ==> r[i].kind in ContribTypes
    ensures forall i :: 0 <= i < |r| ==> r[i].month == MonthOf(r[i].date)
    ensures forall i :: 0 <= i < |r| && r[i].kind == Deposit ==> r[i].signed >= 0.0
    ensures forall i :: 0 <= i < |r| && r[i].kind == Withdrawal ==> r[i].signed <= 0.0
  {
    if |txns| == 0 then []
    else
      var rest := Prepared(txns[1..]);
      if IsContribution(txns[0]) then [RowOf(txns[0])] + rest else rest
  }

  /** Filtering commutes with concatenation, so rows are kept in their
      original order. */
  lemma {:induction false} PreparedAppend(a: seq<Txn>, b: seq<Txn>)
    ensures Prepared(a + b) == Prepared(a) + Prepared(b)
  {
    if |a| == 0 {
      assert a + b == b;
    } else {
      assert (a + b)[1..] == a[1..] + b;
      PreparedAppend(a[1..], b);
    }
  }

  /** Exactly the deposits and withdrawals are kept. */
  lemma {:induction false} PreparedMembers(txns: seq<Txn>, t: Txn)
    ensures t in txns && IsContribution(t) ==> RowOf(t) in Prepared(txns)
    ensures (forall u :: u in txns ==> !IsContribution(u)) ==> Prepared(txns) == []
    ensures |Prepared(txns)| == |txns| <==> (forall u :: u in txns ==> IsContribution(u))
  {
    if |txns| > 0 {
      PreparedMembers(txns[1..], t);
      assert forall u :: u in txns[1..] ==> u in txns;
      if t in txns && t != txns[0] {
        assert t in txns[1..];
      }
    }
  }

  /** Every prepared row comes from a deposit or withdrawal of the input. */
  lemma {:induction false} PreparedOrigin(txns: seq<Txn>, x: Row)
    requires x in Prepared(txns)
    ensures exists t :: t in txns && IsContribution(t) && x == RowOf(t)
  {
    if x == RowOf(txns[0]) && IsContribution(txns[0]) {
      assert txns[0] in txns;
    } else {
      PreparedOrigin(txns[1..], x);
      var t :| t in txns[1..] && IsContribution(t) && x == RowOf(t);
      assert t in txns;
    }
  }

  /** No required column is missing exactly when all of them are present. */
  lemma MissingEmpty(columns: set<string>)
    ensures Required - columns == {} <==> Required <= columns
  {
    if !(Required <= columns) {
      var x :| x in Required && x !in columns;
      assert x in Required - columns;
    }
  }

  /** Prepares the contribution rows of a table: an empty table gives no
      rows; otherwise the three required columns must be present. */
  function PrepareRows(f: TxnFrame): (r: Result<seq<Row>, ContribError>)
    ensures r.Failure? <==> !IsEmpty(f) && !(Required <= f.columns)
    ensures r.Failure? ==> r.error.missing == Required - f.columns && r.error.missing != {}
    ensures r.Success? && IsEmpty(f) ==> r.value == []
    ensures r.Success? && !IsEmpty(f) ==> r.value == Prepared(f.rows)
  {
    if IsEmpty(f) then Success([])
    else
      MissingEmpty(f.columns);
      var missing := Required - f.columns;
      if missing != {} then Failure(MissingColumns(missing))
      else Success(Prepared(f.rows))
  }

  // ---------------------------------------------------------------------
  // Monthly net

  predicate KeyLess(a: MonthKey, b: MonthKey)
  {
    a.year < b.year || (a.year == b.year && a.month < b.month)
  }

  /** One group of the monthly series: the month and its net. */
  datatype MonthNet = MonthNet(key: MonthKey, net: real)

  ghost predicate StrictlyAscending(m: seq<MonthNet>)
  {
    forall i, j :: 0 <= i < j < |m| ==> KeyLess(m[i].key, m[j].key)
  }

  function Keys(m: seq<MonthNet>): set<MonthKey>
  {
    set i | 0 <= i < |m| :: m[i].key
  }

  /** The net recorded for a month, 0 when the month has no entry. */
  function Lookup(m: seq<MonthNet>, k: MonthKey): real
  {
    if |m| == 0 then 0.0
    else if m[0].key == k then m[0].net
    else Lookup(m[1..], k)
  }

  lemma {:induction false} LookupAbsent(m: seq<MonthNet>, k: MonthKey)
    requires k !in Keys(m)
    ensures Lookup(m, k) == 0.0
  {
    if |m| > 0 {
      assert m[0].key in Keys(m);
      assert Keys(m[1..]) <= Keys(m) by {
        forall x | x in Keys(m[1..]) ensures x in Keys(m) {
          var i :| 0 <= i < |m[1..]| && m[1..][i].key == x;
          assert m[i + 1].key == x;
        }
      }
      LookupAbsent(m[1..], k);
    }
  }

  lemma KeysCons(e: MonthNet, m: seq<MonthNet>)
    ensures Keys([e] + m) == {e.key} + Keys(m)
  {
    var c := [e] + m;
    forall x | x in Keys(c) ensures x in {e.key} + Keys(m) {
      var i :| 0 <= i < |c| && c[i].key == x;
      if i > 0 {
        assert m[i - 1].key == x;
      }
    }
    forall x | x in {e.key} + Keys(m) ensures x in Keys(c) {
      if x != e.key {
        var i :| 0 <= i < |m| && m[i].key == x;
        assert c[i + 1].key == x;
      }
      assert c[0].key == e.key;
    }
  }

  /** Sum of the nets of a monthly series. */
  function TotalNet(m: seq<MonthNet>): real
  {
    if |m| == 0 then 0.0 else m[0].net + TotalNet(m[1..])
  }

  /** Adds amount v to month k of an ascending series, creating the month in
      its sorted place when absent. */
  function AddTo(m: seq<MonthNet>, k: MonthKey, v: real): seq<MonthNet>
  {
    if |m| == 0 then [MonthNet(k, v)]
    else if m[0].key == k then [MonthNet(k, m[0].net + v)] + m[1..]
    else if KeyLess(k, m[0].key) then [MonthNet(k, v)] + m
    else [m[0]] + AddTo(m[1..], k, v)
  }

  lemma {:induction false} AddToKeys(m: seq<MonthNet>, k: MonthKey, v: real)
    ensures Keys(AddTo(m, k, v)) == Keys(m) + {k}
  {
    if |m| == 0 {
      KeysCons(MonthNet(k, v), []);
    } else {
      KeysCons(m[0], m[1..]);
      assert m == [m[0]] + m[1..];
      if m[0].key == k {
        KeysCons(MonthNet(k, m[0].net + v), m[1..]);
      } else if KeyLess(k, m[0].key) {
        KeysCons(MonthNet(k, v), m);
      } else {
        AddToKeys(m[1..], k, v);
        KeysCons(m[0], AddTo(m[1..], k, v));
      }
    }
  }

  lemma {:induction false} AddToTotal(m: seq<MonthNet>, k: MonthKey, v: real)
    ensures TotalNet(AddTo(m, k, v)) == TotalNet(m) + v
  {
    if |m| > 0 {
      var r := AddTo(m, k, v);
      if m[0].key == k {
        assert r[1..] == m[1..];
      } else if KeyLess(k, m[0].key) {
        assert r[1..] == m;
      } else {
        AddToTotal(m[1..], k, v);
        assert r[1..] == AddTo(m[1..], k, v);
      }
    }
  }

  lemma AscendingTail(m: seq<MonthNet>)
    requires |m| > 0 && StrictlyAscending(m)
    ensures StrictlyAscending(m[1..])
    ensures forall x :: x in Keys(m[1..]) ==> KeyLess(m[0].key, x)
  {
    forall x | x in Keys(m[1..]) ensures KeyLess(m[0].key, x) {
      var i :| 0 <= i < |m[1..]| && m[1..][i].key == x;
      assert m[i + 1].key == x;
    }
  }

  lemma {:induction false} AddToAscending(m: seq<MonthNet>, k: MonthKey, v: real)
    requires StrictlyAscending(m)
    ensures StrictlyAscending(AddTo(m, k, v))
  {
    if |m| > 0 && m[0].key != k && !KeyLess(k, m[0].key) {
      AscendingTail(m);
      var tail := AddTo(m[1..], k, v);
      AddToAscending(m[1..], k, v);
      AddToKeys(m[1..], k, v);
      var r := [m[0]] + tail;
      forall j | 0 <= j < |tail| ensures KeyLess(m[0].key, tail[j].key) {
        assert tail[j].key in Keys(tail);
      }
      assert forall i, j :: 0 < i < j < |r| ==> r[i] == tail[i - 1] && r[j] == tail[j - 1];
    }
  }

  lemma {:induction false} AddToLookup(m: seq<MonthNet>, k: MonthKey, v: real, key: MonthKey)
    requires StrictlyAscending(m)
    ensures Lookup(AddTo(m, k, v), key) == Lookup(m, key) + (if key == k then v else 0.0)
  {
    if |m| > 0 {
      var r := AddTo(m, k, v);
      if m[0].key == k {
        assert r[1..] == m[1..];
      } else if KeyLess(k, m[0].key) {
        assert r[1..] == m;
        if key == k {
          AscendingTail(m);
          assert k !in Keys(m[1..]);
          LookupAbsent(m[1..], k);
        }
      } else {
        AscendingTail(m);
        AddToLookup(m[1..], k, v, key);
        assert r[1..] == AddTo(m[1..], k, v);
      }
    }
  }

  /** The months that have at least one row. */
  function MonthsOf(rows: seq<Row>): set<MonthKey>
  {
    set i | 0 <= i < |rows| :: rows[i].month
  }

  /** Reference definition of a month's net: the sum of the signed amounts
      of its rows, in row order. */
  function NetFor(rows: seq<Row>, k: MonthKey): real
  {
    if |rows| == 0 then 0.0
    else NetFor(rows[..|rows| - 1], k) + (if rows[|rows| - 1].month == k then rows[|rows| - 1].signed else 0.0)
  }

  /** Sum of all signed amounts. */
  function TotalSigned(rows: seq<Row>): real
  {
    if |rows| == 0 then 0.0 else TotalSigned(rows[..|rows| - 1]) + rows[|rows| - 1].signed
  }

  /** The monthly net series, built by adding each row's signed amount to
      its month. It is ascending by month, has one entry per month that has
      rows, holds for each month the sum of that month's signed amounts, and
      so sums to the total of all rows. */
  function MonthlyNet(rows: seq<Row>): (m: seq<MonthNet>)
    ensures StrictlyAscending(m)
    ensures Keys(m) == MonthsOf(rows)
    ensures forall k :: Lookup(m, k) == NetFor(rows, k)
    ensures TotalNet(m) == TotalSigned(rows)
  {
    if |rows| == 0 then []
    else
      var init, last := rows[..|rows| - 1], rows[|rows| - 1];
      var prev := MonthlyNet(init);
      AddToAscending(prev, last.month, last.signed);
      AddToKeys(prev, last.month, last.signed);
      AddToTotal(prev, last.month, last.signed);
      MonthsOfSnoc(rows);
      AddToLookupAll(prev, last.month, last.signed);
      AddTo(prev, last.month, last.signed)
  }

  lemma AddToLookupAll(m: seq<MonthNet>, k: MonthKey, v: real)
    requires StrictlyAscending(m)
    ensures forall key :: Lookup(AddTo(m, k, v), key) == Lookup(m, key) + (if key == k then v else 0.0)
  {
    forall key ensures Lookup(AddTo(m, k, v), key) == Lookup(m, key) + (if key == k then v else 0.0) {
      AddToLookup(m, k, v, key);
    }
  }

  lemma MonthsOfSnoc(rows: seq<Row>)
    requires |rows| > 0
    ensures MonthsOf(rows) == MonthsOf(rows[..|rows| - 1]) + {rows[|rows| - 1].month}
  {
    var init := rows[..|rows| - 1];
    forall x | x in MonthsOf(rows) ensures x in MonthsOf(init) + {rows[|rows| - 1].month} {
      var i :| 0 <= i < |rows| && rows[i].month == x;
      if i < |rows| - 1 {
        assert init[i].month == x;
      }
    }
    forall x | x in MonthsOf(init) ensures x in MonthsOf(rows) {
      var i :| 0 <= i < |init| && init[i].month == x;
      assert rows[i].month == x;
    }
  }

  /** Mean of the monthly nets, 0 when there are no months. */
  function Mean(m: seq<MonthNet>): (r: real)
    ensures |m| > 0 ==> r * (|m| as real) == TotalNet(m)
    ensures |m| == 0 ==> r == 0.0
  {
    if |m| == 0 then 0.0 else TotalNet(m) / (|m| as real)
  }

  /** The mean monthly contribution: the total over all rows divided by the
      number of distinct months that have rows; 0 without rows. */
  function MeanMonthlyContribution(rows: seq<Row>): (r: real)
    ensures |rows| == 0 ==> r == 0.0
    ensures |rows| > 0 ==> |MonthsOf(rows)| > 0 && r == TotalSigned(rows) / (|MonthsOf(rows)| as real)
  {
    AscendingKeysCount(MonthlyNet(rows));
    assert |rows| > 0 ==> rows[0].month in MonthsOf(rows);
    Mean(MonthlyNet(rows))
  }

  /** A strictly ascending series has one entry per distinct month. */
  lemma {:induction false} AscendingKeysCount(m: seq<MonthNet>)
    requires StrictlyAscending(m)
    ensures |Keys(m)| == |m|
  {
    if |m| > 0 {
      AscendingTail(m);
      AscendingKeysCount(m[1..]);
      assert m == [m[0]] + m[1..];
      KeysCons(m[0], m[1..]);
      forall i | 0 <= i < |m[1..]| ensures m[1..][i].key != m[0].key {
        assert KeyLess(m[0].key, m[i + 1].key);
      }
      assert m[0].key !in Keys(m[1..]);
    }
  }

  /** Two deposits and two withdrawals over January and February 2025 give
      nets of 1500 and 500 and a mean of 1000. */
  lemma MonthlyExample()
    ensures var rows := Prepared(ExampleTxns());
            MonthlyNet(rows) == [MonthNet(MonthKey(2025, 1), 1500.0), MonthNet(MonthKey(2025, 2), 500.0)]
            && MeanMonthlyContribution(rows) == 1000.0
  {
    ExampleRows();
    var rows := Prepared(ExampleTxns());
    ExampleMonthlyNet(rows);
    var jan, feb := MonthKey(2025, 1), MonthKey(2025, 2);
    var m := [MonthNet(jan, 1500.0), MonthNet(feb, 500.0)];
    assert m[1..] == [MonthNet(feb, 500.0)] && m[1..][1..] == [];
    assert TotalNet(m[1..][1..]) == 0.0;
    assert TotalNet(m[1..]) == 500.0;
    assert TotalNet(m) == 2000.0;
  }

  /** A January with 2000 in and 500 out, and a February with 1500 in and
      1000 out; the withdrawals carry the export's negative sign. */
  function ExampleTxns(): seq<Txn>
  {
    [Txn(Date(2025, 1, 10), Deposit, 2000.0),
     Txn(Date(2025, 1, 20), Withdrawal, -500.0),
     Txn(Date(2025, 2, 5), Deposit, 1500.0),
     Txn(Date(2025, 2, 15), Withdrawal, -1000.0)]
  }

  lemma ExampleRows()
    ensures Prepared(ExampleTxns()) == [
              Row(Date(2025, 1, 10), MonthKey(2025, 1), Deposit, 2000.0),
              Row(Date(2025, 1, 20), MonthKey(2025, 1), Withdrawal, -500.0),
              Row(Date(2025, 2, 5), MonthKey(2025, 2), Deposit, 1500.0),
              Row(Date(2025, 2, 15), MonthKey(2025, 2), Withdrawal, -1000.0)]
  {
    var txns := ExampleTxns();
    var r1 := Row(Date(2025, 1, 20), MonthKey(2025, 1), Withdrawal, -500.0);
    var r2 := Row(Date(2025, 2, 5), MonthKey(2025, 2), Deposit, 1500.0);
    var r3 := Row(Date(2025, 2, 15), MonthKey(2025, 2), Withdrawal, -1000.0);
    assert Deposit in ContribTypes && Withdrawal in ContribTypes && Deposit != Withdrawal;
    assert Prepared(txns[3..]) == [r3];
    assert Prepared(txns[2..]) == [r2, r3];
    assert Prepared(txns[1..]) == [r1, r2, r3];
  }

  lemma ExampleMonthlyNet(rows: seq<Row>)
    requires rows == [
               Row(Date(2025, 1, 10), MonthKey(2025, 1), Deposit, 2000.0),
               Row(Date(2025, 1, 20), MonthKey(2025, 1), Withdrawal, -500.0),
               Row(Date(2025, 2, 5), MonthKey(2025, 2), Deposit, 1500.0),
               Row(Date(2025, 2, 15), MonthKey(2025, 2), Withdrawal, -1000.0)]
    ensures MonthlyNet(rows) == [MonthNet(MonthKey(2025, 1), 1500.0), MonthNet(MonthKey(2025, 2), 500.0)]
  {
    var r0, r1, r2 := rows[0], rows[1], rows[2];
    assert rows[..3] == [r0, r1, r2] && rows[..3][..2] == [r0, r1] && rows[..3][..2][..1] == [r0];
    var jan, feb := MonthKey(2025, 1), MonthKey(2025, 2);
    assert MonthlyNet([r0]) == [MonthNet(jan, 2000.0)];
    assert MonthlyNet([r0, r1]) == [MonthNet(jan, 1500.0)];
    assert [r0, r1][..1] == [r0] && [r0, r1, r2][..2] == [r0, r1];
    assert AddTo([], feb, 1500.0) == [MonthNet(feb, 1500.0)];
    assert AddTo([MonthNet(jan, 1500.0)], feb, 1500.0) == [MonthNet(jan, 1500.0), MonthNet(feb, 1500.0)];
    assert MonthlyNet([r0, r1, r2]) == [MonthNet(jan, 1500.0), MonthNet(feb, 1500.0)];
    var m2 := [MonthNet(jan, 1500.0), MonthNet(feb, 1500.0)];
    assert m2[1..] == [MonthNet(feb, 1500.0)];
    assert AddTo(m2[1..], feb, -1000.0) == [MonthNet(feb, 500.0)];
  }

  /** Rows of other kinds (buys, sells, dividends) give no contributions and
      a mean of 0. */
  lemma OtherKindsIgnored()
    ensures var rows := Prepared([
              Txn(Date(2025, 1, 1), "Köp", -1000.0),
              Txn(Date(2025, 1, 2), "Sälj", 1200.0),
              Txn(Date(2025, 1, 3), "Utdelning", 50.0)]);
            rows == [] && MeanMonthlyContribution(rows) == 0.0
  {
  }
}
