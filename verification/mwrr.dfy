/** The money-weighted return: net present value of dated cash flows and the
    bracketing bisection that finds the rate where it vanishes (XIRR). */
module Mwrr {

  import opened Wrappers
  import opened Numeric
  import opened Calendar
  import opened DayCount
  import Sorting

  /** A dated amount: negative when money goes into the portfolio, positive
      when it comes back to the investor. */
  datatype CashFlow = CashFlow(date: CalDate, amount: real)

  datatype XirrError = NoSignChange

  /** A rate at which the discount base 1 + rate is positive. */
  type Rate = r: real | r > -1.0 witness 0.0

  /** The power function `**` restricted to a positive base. Real exponents
      are not modelled; the model is parametric in this function. */
  type PowFn = (Pos, real) -> Pos

  const LoStart: Rate := -0.999999
  const LoFloor: Rate := -0.9999999
  const HiStart: Rate := 10.0
  const Widen: real := 1.5
  const WidenSteps: nat := 60
  const MaxBisect: nat := 200
  /** 1e-12: the NPV and bracket-width tolerance of the bisection. */
  const Tol: real := 0.000000000001

  /** The upper bracket after n widenings: 10 * 1.5^n. */
  function Widened(n: nat): (r: real)
    ensures r >= HiStart
  {
    if n == 0 then HiStart else Widened(n - 1) * Widen
  }

  lemma {:induction false} WidenedMonotone(i: nat, j: nat)
    requires i <= j
    ensures Widened(i) <= Widened(j)
  {
    if i < j {
      WidenedMonotone(i, j - 1);
    }
  }

  /** The largest upper bracket the expansion reaches: 10 * 1.5^60. */
  const HiCeil: Rate := Widened(WidenSteps)

  /** The bracket test of `xirr`, f_lo * f_hi <= 0, without the product:
      the two values lie on different sides of zero, or one of them is
      zero. */
  predicate Opposite(u: real, v: real)
  {
    (u <= 0.0 <= v) || (v <= 0.0 <= u)
  }

  /** w halved n times. */
  function Halved(w: real, n: nat): real
  {
    if n == 0 then w else Halved(w, n - 1) / 2.0
  }

  function DateKey(cf: CashFlow): int
  {
    Ordinal(cf.date)
  }

  /** `sorted(cashflows, key=lambda x: x[0])`. */
  function SortByDate(cfs: seq<CashFlow>): (r: seq<CashFlow>)
    ensures multiset(r) == multiset(cfs)
    ensures forall i, j :: 0 <= i < j < |r| ==> !Before(r[j].date, r[i].date)
  {
    var r := Sorting.SortBy(cfs, DateKey);
    forall i, j | 0 <= i < j < |r|
      ensures !Before(r[j].date, r[i].date)
    {
      assert DateKey(r[i]) <= DateKey(r[j]);
      if Before(r[j].date, r[i].date) {
        OrdinalMonotone(r[j].date, r[i].date);
      }
    }
    r
  }

  predicate HasNegative(cfs: seq<CashFlow>)
  {
    exists i :: 0 <= i < |cfs| && cfs[i].amount < 0.0
  }

  predicate HasPositive(cfs: seq<CashFlow>)
  {
    exists i :: 0 <= i < |cfs| && cfs[i].amount > 0.0
  }

  /** Sorting neither creates nor removes a sign. */
  lemma SortKeepsSigns(cfs: seq<CashFlow>)
    ensures HasNegative(SortByDate(cfs)) <==> HasNegative(cfs)
    ensures HasPositive(SortByDate(cfs)) <==> HasPositive(cfs)
  {
    var r := SortByDate(cfs);
    SameElements(r, cfs);
    SameElementsSameSigns(r, cfs);
  }

  lemma SameElements(a: seq<CashFlow>, b: seq<CashFlow>)
    requires multiset(a) == multiset(b)
    ensures forall x :: x in a <==> x in b
  {
    forall x | x in a ensures x in b {
      assert x in multiset(a);
    }
    forall x | x in b ensures x in a {
      assert x in multiset(b);
    }
  }

  lemma SameElementsSameSigns(r: seq<CashFlow>, cfs: seq<CashFlow>)
    requires forall x :: x in r <==> x in cfs
    ensures HasNegative(r) <==> HasNegative(cfs)
    ensures HasPositive(r) <==> HasPositive(cfs)
  {
    if HasNegative(r) {
      var i :| 0 <= i < |r| && r[i].amount < 0.0;
      assert r[i] in cfs;
    }
    if HasNegative(cfs) {
      var i :| 0 <= i < |cfs| && cfs[i].amount < 0.0;
      assert cfs[i] in r;
    }
    if HasPositive(r) {
      var i :| 0 <= i < |r| && r[i].amount > 0.0;
      assert r[i] in cfs;
    }
    if HasPositive(cfs) {
      var i :| 0 <= i < |cfs| && cfs[i].amount > 0.0;
      assert cfs[i] in r;
    }
  }

  /** Sum of amount / (1 + rate)^yearfrac(t0, date), left to right. Every
      discount factor is positive, so flows of one sign sum to that sign. */
  function Discounted(pow: PowFn, rate: Rate, t0: CalDate, cfs: seq<CashFlow>): (r: real)
    ensures !HasNegative(cfs) ==> r >= 0.0
    ensures !HasPositive(cfs) ==> r <= 0.0
    ensures !HasNegative(cfs) && HasPositive(cfs) ==> r > 0.0
    ensures !HasPositive(cfs) && HasNegative(cfs) ==> r < 0.0
  {
    if |cfs| == 0 then 0.0
    else
      var init, last := cfs[..|cfs| - 1], cfs[|cfs| - 1];
      var p := pow(1.0 + rate, YearFrac(t0, last.date));
      SignsOfSnoc(cfs);
      QuotientSign(last.amount, p);
      Discounted(pow, rate, t0, init) + last.amount / p
  }

  /** A list has a flow of a sign exactly when its prefix or its last flow
      has. */
  lemma SignsOfSnoc(cfs: seq<CashFlow>)
    requires |cfs| > 0
    ensures HasNegative(cfs) <==> HasNegative(cfs[..|cfs| - 1]) || cfs[|cfs| - 1].amount < 0.0
    ensures HasPositive(cfs) <==> HasPositive(cfs[..|cfs| - 1]) || cfs[|cfs| - 1].amount > 0.0
  {
    var init := cfs[..|cfs| - 1];
    if HasNegative(init) {
      var i :| 0 <= i < |init| && init[i].amount < 0.0;
      assert cfs[i] == init[i];
    }
    if HasPositive(init) {
      var i :| 0 <= i < |init| && init[i].amount > 0.0;
      assert cfs[i] == init[i];
    }
  }

  /** Dividing by a positive number keeps the sign. */
  lemma QuotientSign(a: real, p: real)
    requires p > 0.0
    ensures a >= 0.0 ==> a / p >= 0.0
    ensures a > 0.0 ==> a / p > 0.0
    ensures a <= 0.0 ==> a / p <= 0.0
    ensures a < 0.0 ==> a / p < 0.0
  {
    assert a == (a / p) * p;
  }

  /** Net present value with t0 the date of the first flow. Without a
      negative or without a positive flow it cannot vanish at any rate:
      that is why `xirr` demands both. */
  function Npv(pow: PowFn, rate: Rate, cfs: seq<CashFlow>): (r: real)
    requires |cfs| > 0
    ensures !HasNegative(cfs) && HasPositive(cfs) ==> r > 0.0
    ensures !HasPositive(cfs) && HasNegative(cfs) ==> r < 0.0
    ensures !HasNegative(cfs) && !HasPositive(cfs) ==> r == 0.0
  {
    Discounted(pow, rate, cfs[0].date, cfs)
  }

  /** After sorting, the first date is the earliest, so no flow is
      discounted with a negative exponent. */
  lemma SortedExponentsNonNegative(cfs: seq<CashFlow>)
    requires |cfs| > 0
    ensures var s := SortByDate(cfs);
            forall i :: 0 <= i < |s| ==> YearFrac(s[0].date, s[i].date) >= 0.0
  {
    var s := SortByDate(cfs);
    forall i | 0 <= i < |s|
      ensures YearFrac(s[0].date, s[i].date) >= 0.0
    {
      if i > 0 {
        assert !Before(s[i].date, s[0].date);
      }
    }
  }

  /** The sign test without a product is the product test of `xirr`. */
  lemma ProductSign(u: real, v: real)
    ensures u * v <= 0.0 <==> Opposite(u, v)
  {
    if u > 0.0 && v > 0.0 {
      assert u * v > 0.0;
    } else if u < 0.0 && v < 0.0 {
      assert u * v == (-u) * (-v);
    }
  }

  /** The widening loop stops after k steps: step k is the first whose
      value lies on the other side of zero from flo, or k is the last step. */
  ghost predicate WideningStop(f: Rate -> real, flo: real, k: nat)
  {
    && 1 <= k <= WidenSteps
    && (forall j :: 1 <= j < k ==> !Opposite(flo, f(Widened(j))))
    && (k < WidenSteps ==> Opposite(flo, f(Widened(k))))
  }

  /** The loop stops at one step only. */
  lemma WideningStopUnique(f: Rate -> real, flo: real, k1: nat, k2: nat)
    requires WideningStop(f, flo, k1) && WideningStop(f, flo, k2)
    ensures k1 == k2
  {
  }

  /** Widens the upper end by x1.5 up to 60 times until f changes sign over
      [lo, hi]. */
  method ExpandHi(f: Rate -> real, flo: real) returns (hi: Rate, fhi: real)
    ensures fhi == f(hi)
    ensures HiStart <= hi <= HiCeil
    ensures exists k :: WideningStop(f, flo, k) && hi == Widened(k)
    ensures !Opposite(flo, fhi) ==> hi == HiCeil
  {
    hi, fhi := HiStart, f(HiStart);
    var i := 0;
    while i < WidenSteps
      invariant 0 <= i <= WidenSteps
      invariant hi == Widened(i)
      invariant fhi == f(hi)
      invariant forall j :: 1 <= j <= i ==> !Opposite(flo, f(Widened(j)))
    {
      hi := hi * Widen;
      fhi := f(hi);
      i := i + 1;
      if Opposite(flo, fhi) {
        assert WideningStop(f, flo, i);
        WidenedMonotone(i, WidenSteps);
        return;
      }
    }
    assert WideningStop(f, flo, WidenSteps);
    WidenedMonotone(i, WidenSteps);
  }

  /** Moves the lower end towards -1 up to 60 times, clamped at -0.9999999.
      The step (lo - 1) * 1.5 + 1 lands below -1 already from the starting
      point, so the clamp fires on the first step and lo stays at the floor. */
  method ContractLo(f: Rate -> real, fhi: real) returns (lo: Rate, flo: real)
    ensures flo == f(lo)
    ensures lo == LoFloor
  {
    var l: real := LoStart;
    flo := f(LoStart);
    var i := 0;
    while i < WidenSteps
      invariant 0 <= i <= WidenSteps
      invariant if i == 0 then l == LoStart else l == LoFloor
      invariant flo == f(l)
    {
      var next := (l - 1.0) * Widen + 1.0;
      l := if next <= LoFloor then LoFloor else next;
      flo := f(l);
      i := i + 1;
      if Opposite(flo, fhi) {
        break;
      }
    }
    lo := l;
  }

  lemma ContractionStepLeavesDomain()
    ensures (LoStart - 1.0) * Widen + 1.0 < -1.0
  {
  }

  /** The loop invariant of the bisection after i halvings: [lo, hi] is a
      sub-bracket of [lo0, hi0] with a sign change whose width is the
      initial one halved i times. */
  ghost predicate Bracketed(f: Rate -> real, lo0: Rate, hi0: Rate, lo: Rate, hi: Rate, i: nat)
  {
    && lo0 <= lo < hi <= hi0
    && Opposite(f(lo), f(hi))
    && hi - lo == Halved(hi0 - lo0, i)
  }

  /** Keeping the half whose ends differ in sign preserves the invariant. */
  lemma BisectStep(f: Rate -> real, lo0: Rate, hi0: Rate, lo: Rate, hi: Rate, i: nat, mid: Rate)
    requires Bracketed(f, lo0, hi0, lo, hi, i)
    requires mid == (lo + hi) / 2.0
    ensures Opposite(f(lo), f(mid)) ==> Bracketed(f, lo0, hi0, lo, mid, i + 1)
    ensures !Opposite(f(lo), f(mid)) ==> Bracketed(f, lo0, hi0, mid, hi, i + 1)
  {
    assert Halved(hi0 - lo0, i + 1) == Halved(hi0 - lo0, i) / 2.0;
  }

  /** Bisection on a bracket with a sign change: at most `steps` halvings,
      stopping early once |f(mid)| or the bracket width is below 1e-12. */
  method Bisect(f: Rate -> real, lo0: Rate, hi0: Rate, steps: nat) returns (x: Rate)
    requires lo0 < hi0
    requires Opposite(f(lo0), f(hi0))
    ensures lo0 <= x <= hi0
    ensures Encloses(f, lo0, hi0, steps, x)
  {
    var lo: Rate, hi: Rate := lo0, hi0;
    var flo, fhi := f(lo), f(hi);
    var i := 0;
    while i < steps
      invariant 0 <= i <= steps
      invariant Bracketed(f, lo0, hi0, lo, hi, i)
      invariant flo == f(lo) && fhi == f(hi)
    {
      var mid: Rate := (lo + hi) / 2.0;
      var fmid := f(mid);
      if Abs(fmid) < Tol || hi - lo < Tol {
        EnclosesIntro(f, lo0, hi0, steps, mid, lo, hi);
        return mid;
      }
      BisectStep(f, lo0, hi0, lo, hi, i, mid);
      if Opposite(flo, fmid) {
        hi, fhi := mid, fmid;
      } else {
        lo, flo := mid, fmid;
      }
      i := i + 1;
    }
    x := (lo + hi) / 2.0;
    EnclosesIntro(f, lo0, hi0, steps, x, lo, hi);
  }

  /** x lies in a sub-bracket [a, b] of [lo0, hi0] over which f changes sign
      and which bisection has made narrow: |f(x)| or the width is below the
      tolerance, or the width is the initial one halved `steps` times. */
  ghost predicate Encloses(f: Rate -> real, lo0: Rate, hi0: Rate, steps: nat, x: Rate)
  {
    exists a: Rate, b: Rate ::
      && lo0 <= a <= x <= b <= hi0
      && Opposite(f(a), f(b))
      && (Abs(f(x)) < Tol || b - a < Tol || b - a == Halved(hi0 - lo0, steps))
  }

  lemma EnclosesIntro(f: Rate -> real, lo0: Rate, hi0: Rate, steps: nat, x: Rate, a: Rate, b: Rate)
    requires lo0 <= a <= x <= b <= hi0
    requires Opposite(f(a), f(b))
    requires Abs(f(x)) < Tol || b - a < Tol || b - a == Halved(hi0 - lo0, steps)
    ensures Encloses(f, lo0, hi0, steps, x)
  {
  }

  /** NPV of a fixed list as a function of the rate. */
  function NpvOf(pow: PowFn, cfs: seq<CashFlow>): (f: Rate -> real)
    requires |cfs| > 0
  {
    (x: Rate) => Npv(pow, x, cfs)
  }

  /** [lo, hi] is the bracket the search of `xirr` builds for f: the start
      [-0.999999, 10] when f changes sign over it; otherwise hi is where
      the widening loop stops, and lo moves to the floor exactly when f
      still does not change sign. */
  ghost predicate SearchedBracket(f: Rate -> real, lo: Rate, hi: Rate)
  {
    && (if Opposite(f(LoStart), f(HiStart)) then hi == HiStart
        else exists k :: WideningStop(f, f(LoStart), k) && hi == Widened(k))
    && lo == (if Opposite(f(LoStart), f(hi)) then LoStart else LoFloor)
  }

  /** The search builds one bracket only. */
  lemma SearchedBracketUnique(f: Rate -> real, lo1: Rate, hi1: Rate, lo2: Rate, hi2: Rate)
    requires SearchedBracket(f, lo1, hi1) && SearchedBracket(f, lo2, hi2)
    ensures lo1 == lo2 && hi1 == hi2
  {
    if !Opposite(f(LoStart), f(HiStart)) {
      var k1 :| WideningStop(f, f(LoStart), k1) && hi1 == Widened(k1);
      var k2 :| WideningStop(f, f(LoStart), k2) && hi2 == Widened(k2);
      WideningStopUnique(f, f(LoStart), k1, k2);
    }
  }

  /** x was found by bisection on the bracket the search built, over which
      f changes sign. */
  ghost predicate Solved(f: Rate -> real, x: Rate)
  {
    exists lo: Rate, hi: Rate ::
      && SearchedBracket(f, lo, hi)
      && LoFloor <= lo < hi <= HiCeil
      && Opposite(f(lo), f(hi))
      && Encloses(f, lo, hi, MaxBisect, x)
  }

  /** The search ended on the widest bracket without a sign change, and x is
      the endpoint with the smaller |f| (the upper one on a tie). */
  ghost predicate BestEndpoint(f: Rate -> real, x: real)
  {
    && SearchedBracket(f, LoFloor, HiCeil)
    && !Opposite(f(LoFloor), f(HiCeil))
    && (x == LoFloor || x == HiCeil)
    && Abs(f(x)) <= Abs(f(LoFloor))
    && Abs(f(x)) <= Abs(f(HiCeil))
    && (Abs(f(LoFloor)) == Abs(f(HiCeil)) ==> x == HiCeil)
  }

  /** Bisection and the endpoint fallback never both describe a run: the
      search builds one bracket, and it either changes sign or not. */
  lemma SolvedExcludesBestEndpoint(f: Rate -> real, x: Rate, y: real)
    requires Solved(f, x)
    ensures !BestEndpoint(f, y)
  {
    var lo: Rate, hi: Rate :|
      && SearchedBracket(f, lo, hi)
      && LoFloor <= lo < hi <= HiCeil
      && Opposite(f(lo), f(hi))
      && Encloses(f, lo, hi, MaxBisect, x);
    if BestEndpoint(f, y) {
      SearchedBracketUnique(f, lo, hi, LoFloor, HiCeil);
    }
  }

  /** `xirr`: sort by date, reject flows without both signs, build a bracket,
      then bisect; without any sign change return the better endpoint. */
  method Xirr(cashflows: seq<CashFlow>, pow: PowFn) returns (r: Result<real, XirrError>)
    ensures r.Failure? <==> !(HasNegative(cashflows) && HasPositive(cashflows))
    ensures r.Success? ==> LoFloor <= r.value <= HiCeil
    ensures r.Success? ==>
              && |SortByDate(cashflows)| > 0
              && (Solved(NpvOf(pow, SortByDate(cashflows)), r.value)
                  || BestEndpoint(NpvOf(pow, SortByDate(cashflows)), r.value))
  {
    var cfs := SortByDate(cashflows);
    SortKeepsSigns(cashflows);
    if !(HasNegative(cfs) && HasPositive(cfs)) {
      return Failure(NoSignChange);
    }
    var x := SolveRate(NpvOf(pow, cfs));
    return Success(x);
  }

  /** Steps 2 to 5 of `xirr` over an arbitrary NPV function f. */
  method SolveRate(f: Rate -> real) returns (x: Rate)
    ensures LoFloor <= x <= HiCeil
    ensures Solved(f, x) || BestEndpoint(f, x)
  {
    var lo, hi, flo, fhi := FindBracket(f);
    if !Opposite(flo, fhi) {
      x := if Abs(flo) < Abs(fhi) then lo else hi;
      assert BestEndpoint(f, x);
    } else {
      x := Bisect(f, lo, hi, MaxBisect);
      assert Solved(f, x);
    }
  }

  /** Steps 2 to 2b of `xirr`: start from [-0.999999, 10], widen the upper
      end, then move the lower end towards -1. When no sign change is found,
      the bracket is the widest one. */
  method FindBracket(f: Rate -> real) returns (lo: Rate, hi: Rate, flo: real, fhi: real)
    ensures LoFloor <= lo <= LoStart && HiStart <= hi <= HiCeil
    ensures flo == f(lo) && fhi == f(hi)
    ensures SearchedBracket(f, lo, hi)
    ensures !Opposite(flo, fhi) ==> lo == LoFloor && hi == HiCeil
  {
    lo, hi := LoStart, HiStart;
    flo, fhi := f(lo), f(hi);
    if !Opposite(flo, fhi) {
      hi, fhi := ExpandHi(f, flo);
    }
    if !Opposite(flo, fhi) {
      lo, flo := ContractLo(f, fhi);
    }
  }
}
