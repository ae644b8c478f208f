# Moneygoal in Dafny

Moneygoal reads an Avanza export and answers two questions. The first is
how many months it will take until the portfolio reaches a savings goal. A
Monte Carlo simulation answers it and reports the 10th, 50th and 90th
percentiles. The second is what money-weighted return (XIRR) the portfolio
has earned so far. This project models the core of that pipeline:

- **Contrib** (`contrib.py`) keeps the deposits ("Insättning") and
  withdrawals ("Uttag") of the transaction table. It gives each a canonical
  sign, adds them up per calendar month and takes the mean over the months
  that have any. That mean is the monthly contribution the simulation uses.
- **MonteCarlo** (`monte_carlo.py`) validates the parameters. Each path then
  grows the present value month by month with a growth factor plus the
  contribution, and records the first month the goal is reached, or
  `max_months + 1` if it never is. The sorted outcomes give P10/P50/P90
  through a rounded percentile index.
- **Mwrr** and **DayCount** (`mwrr.py`) cover the same solver:
  - the ACT/ACT ISDA year fraction;
  - the NPV of dated flows;
  - `xirr`, which expands and contracts a bracket around the root, falls back
    to the better endpoint, and bisects.

  **Calendar** supplies proleptic Gregorian dates and the leap-year rule.
- **Diagnostics** (`diagnostics.py`) turns the contribution rows into
  investor-signed cash flows, appends today's market value and calls `xirr`.
- **AvanzaCsv** (`avanza_csv.py`) parses Swedish-formatted numbers. It strips
  the text, removes thousands separators and turns the decimal comma into a
  point.
- **App** (`app/app.py`) holds the input guards of the web form and the
  conversion of a month count into years and months.

Floats are modelled as exact reals. Everything the source computes with
transcendental functions or randomness is a parameter of the model:

- a `Stream` of positive monthly growth factors stands for the lognormal
  draws;
- `growth` stands for (1 + cagr)^(1/12);
- `PowFn` stands for `**` with a real exponent in the NPV.

Python's `round` is modelled exactly (half to even). Python's `//` and `%`
by 12 agree with Dafny's Euclidean division.

## Model

| member | source | states |
|---|---|---|
| Calendar.LeapYearExamples | src/moneygoal/models/mwrr.py:16-18 | Gregorian rule: 2000 and 2020 are leap years, 1900 and 2021 are not |
| Calendar.IsLeap | src/moneygoal/models/mwrr.py:16-18 | a leap year is divisible by 4; every year divisible by 4 but not by 100 is one; a century year is one exactly when it is divisible by 400 |
| Calendar.Ordinal | src/moneygoal/models/mwrr.py:32-48 | the day number of a date lies inside its own year's block of 365 or 366 numbers after all earlier years, and 0001-01-01 is day 1 |
| Calendar.OrdinalInjective | src/moneygoal/models/mwrr.py:20-49 | the day number used for day differences identifies a valid date uniquely |
| DayCount.YearFrac | src/moneygoal/models/mwrr.py:20-49 | 0 for equal dates; forwards it is positive and equals the ISDA sum (the days in each calendar year touched over that year's length); backwards it is the negated sum of the swapped dates |
| DayCount.IsdaFromYearWhole | src/moneygoal/models/mwrr.py:42-46 | counted from a 1 January, each fully spanned calendar year contributes exactly 1, whatever its length |
| DayCount.YearFracAntisymmetric | src/moneygoal/models/mwrr.py:22-29 | equal dates give 0, and swapping the dates negates the fraction |
| DayCount.YearFracSameYear | src/moneygoal/models/mwrr.py:32-35 | inside one year the fraction is the day difference over 365 or 366 |
| DayCount.YearFracWholeYears | src/moneygoal/models/mwrr.py:42-43 | from 1 January of y0 to 1 January of y1 the fraction is exactly y1 - y0, across leap years |
| DayCount.YearFracExamples | src/moneygoal/models/mwrr.py:20-49 | half a leap year is 182/366, half a common year 181/365, and 2020-01-01 to 2021-01-01 is 1 |
| Mwrr.Npv | src/moneygoal/models/mwrr.py:65-68 | with only non-negative flows and at least one positive the NPV is positive at every rate; with only non-positive flows and one negative it is negative; all-zero flows give 0 |
| Mwrr.SortByDate | src/moneygoal/models/mwrr.py:96 | the result is a permutation of the flows in which no flow precedes an earlier-dated one |
| Mwrr.SortKeepsSigns | src/moneygoal/models/mwrr.py:96-98 | sorting neither creates nor removes a negative or a positive flow, so the sign check may run on the sorted list |
| Mwrr.SortedExponentsNonNegative | src/moneygoal/models/mwrr.py:65-68 | after sorting, t0 is the earliest date, so every discount exponent is >= 0 |
| Mwrr.ExpandHi | src/moneygoal/models/mwrr.py:104-110 | the upper end is 10*1.5^k for the first k whose NPV lies on the other side of zero from the lower end's, or k = 60 when none does; it stays within [10, 10*1.5^60] and its NPV is returned with it |
| Mwrr.WideningStopUnique | src/moneygoal/models/mwrr.py:106-110 | the widening loop can stop at one step only |
| Mwrr.ContractLo | src/moneygoal/models/mwrr.py:112-121 | the contraction always leaves the lower bracket at the clamp -0.9999999, since one step already overshoots |
| Mwrr.ContractionStepLeavesDomain | src/moneygoal/models/mwrr.py:116-118 | one unclamped step from -0.999999 lands below -1, outside the domain of 1 + rate |
| Mwrr.FindBracket | src/moneygoal/models/mwrr.py:100-121 | the bracket is exactly the one the source builds: [-0.999999, 10] when the NPV changes sign over it; otherwise the upper end is where the widening stops, and the lower end drops to -0.9999999 exactly when there is still no sign change |
| Mwrr.SearchedBracketUnique | src/moneygoal/models/mwrr.py:100-121 | the search determines one bracket, so bisection always starts from the same interval |
| Mwrr.Bisect | src/moneygoal/models/mwrr.py:128-141 | the result lies in a sub-bracket with a sign change whose |NPV| or width is below 1e-12, or whose width is the initial one halved 200 times |
| Mwrr.SolveRate | src/moneygoal/models/mwrr.py:100-141 | the rate is found by bisection on exactly the searched bracket when the NPV changes sign over it; otherwise the search ended on [-0.9999999, 10*1.5^60] without a sign change and the rate is the endpoint with the smaller |NPV| (the upper one on a tie) |
| Mwrr.SolvedExcludesBestEndpoint | src/moneygoal/models/mwrr.py:123-141 | bisection and the endpoint fallback never both apply to the same NPV |
| Mwrr.Xirr | src/moneygoal/models/mwrr.py:70-141 | fails exactly when the flows lack a negative or a positive amount; otherwise returns a rate in [-0.9999999, 10*1.5^60], bisected on the searched bracket of the sorted flows' NPV or, without a sign change, the better endpoint |
| MonteCarlo.Validate | src/moneygoal/sim/monte_carlo.py:25-38 | no error exactly when all seven parameter conditions hold; a reported error is violated, and no error checked earlier is |
| MonteCarlo.FirstHitUnique | src/moneygoal/sim/monte_carlo.py:55-58 | the recorded month of a path (first month at goal, or horizon+1) is unique |
| MonteCarlo.RunPath | src/moneygoal/sim/monte_carlo.py:63-70 | the loop returns the first month the value reaches the goal within the horizon, or horizon+1 when it never does |
| MonteCarlo.OutcomeRange | src/moneygoal/sim/monte_carlo.py:52-58 | starting below the goal, every path outcome is between 1 and max_months + 1 |
| MonteCarlo.SimulatePaths | src/moneygoal/sim/monte_carlo.py:59-70 | the paths consume one shared factor stream in sequence; the list holds one outcome per path |
| MonteCarlo.OutcomesRange | src/moneygoal/sim/monte_carlo.py:52-70 | every simulated outcome lies between 1 and max_months + 1 |
| MonteCarlo.PctIndex | src/moneygoal/sim/monte_carlo.py:74-77 | the index is within the list and, for p <= 100, lies within one half of p*(n-1)/100; at an exact half it is the even neighbour, as Python's round does |
| MonteCarlo.PctIndexTieExamples | src/moneygoal/sim/monte_carlo.py:76 | ties round to even: 10% of 106 outcomes gives index 10 (not 11), 50% of 5000 gives 2500 (2499.5 goes to the even neighbour) |
| MonteCarlo.PctIndexMonotone | src/moneygoal/sim/monte_carlo.py:74-79 | a higher percentile never picks an earlier index |
| MonteCarlo.SortedPickIsRank | src/moneygoal/sim/monte_carlo.py:72-79 | the element at index k of an ascending permutation of the outcomes has at most k outcomes strictly below it and more than k at or below it |
| MonteCarlo.RankUnique | src/moneygoal/sim/monte_carlo.py:72-79 | only one value has that rank property for a given k, so the pick does not depend on how ties are sorted |
| MonteCarlo.Summarize | src/moneygoal/sim/monte_carlo.py:72-79 | each of P10, P50 and P90 is the order statistic of the outcomes at the rounded index: fewer outcomes lie below it than the index, more lie at or below it; P10 <= P50 <= P90, and each is a simulated outcome |
| MonteCarlo.SummarizeConstant | src/moneygoal/sim/monte_carlo.py:49-58 | when every path gives the same month, all three percentiles equal it |
| MonteCarlo.TimeToGoal | src/moneygoal/sim/monte_carlo.py:6-79 | rejects exactly invalid parameters with the first violated check; returns 0/0/0 at or above the goal; otherwise P10/P50/P90 are the order statistics of the simulated outcomes at the rounded indices, ordered and in [1, max_months + 1]; with zero volatility they are all the deterministic month, which with zero cagr is the linear month count |
| MonteCarlo.LinearOutcome | src/moneygoal/sim/monte_carlo.py:51-58 | without growth the month is 0 at the goal, else ceil((goal - start)/contrib) when that fits in the horizon, else horizon + 1 |
| MonteCarlo.LinearExample | src/moneygoal/sim/monte_carlo.py:51-58 | 100 000 now, 2 000 a month, goal 200 000, no growth: 50 months |
| MonteCarlo.NoGrowthNoContributionUnreachable | src/moneygoal/sim/monte_carlo.py:51-58 | with no growth and no contribution a goal above the start is never reached (sentinel horizon + 1) |
| MonteCarlo.PathMonotone | src/moneygoal/sim/monte_carlo.py:63-70 | a larger start, a larger contribution and larger factors never reach the goal later |
| MonteCarlo.DeterministicMonotone | src/moneygoal/sim/monte_carlo.py:49-58 | in the deterministic branch, more growth or more contribution never delays the goal |
| Contrib.SignedAmount | src/moneygoal/contrib.py:59-60 | the signed amount keeps the magnitude; deposits are >= 0, everything else <= 0 |
| Contrib.SignedAmountIgnoresExportSign | src/moneygoal/contrib.py:56-60 | the sign in the export does not matter: deposit gives +abs, withdrawal gives -abs |
| Contrib.Prepared | src/moneygoal/contrib.py:50-63 | only deposit/withdrawal rows survive; their month is the month of their date; deposits are >= 0 and withdrawals <= 0 |
| Contrib.PreparedMembers | src/moneygoal/contrib.py:50 | every deposit or withdrawal is kept, without any the result is empty, and nothing is dropped exactly when all rows are contributions |
| Contrib.PreparedOrigin | src/moneygoal/contrib.py:50-63 | every prepared row comes from a contribution row of the input |
| Contrib.PrepareRows | src/moneygoal/contrib.py:40-66 | an empty table gives no rows; otherwise a missing required column is an error naming exactly the missing set, else the prepared rows |
| Contrib.MonthlyNet | src/moneygoal/contrib.py:82-84 | the monthly series is in strictly ascending month order, its keys are exactly the months that occur, each entry is that month's sum, and the total is preserved |
| Contrib.MeanMonthlyContribution | src/moneygoal/contrib.py:100-101 | 0 without rows; otherwise the total signed amount divided by the number of distinct months that occur, which is at least one |
| Contrib.MonthlyExample | tests/test_contrib.py:23-33 | January 2000 in and 500 out, February 1500 in and 1000 out: monthly nets 1500 and 500 in month order, mean 1000 |
| Contrib.OtherKindsIgnored | tests/test_contrib.py:35-43 | purchases, sales and dividends yield no rows and mean 0 |
| Diagnostics.FirstMissing | src/moneygoal/diagnostics.py:25-40 | the first column read that is absent: Typ, Belopp, Datum, then Marknadsvärde |
| Diagnostics.FlowAmount | src/moneygoal/diagnostics.py:29-35 | a deposit becomes an investor outflow (<= 0), a withdrawal an inflow (>= 0), with the magnitude kept |
| Diagnostics.ContributionFlows | src/moneygoal/diagnostics.py:25-37 | exactly the prepared contribution rows, in order, with the opposite sign |
| Diagnostics.XirrFlows | src/moneygoal/diagnostics.py:25-45 | a missing column is reported first; then the flows plus today's total market value, failing exactly when they lack both signs |
| Diagnostics.NoContributionsNoRate | src/moneygoal/diagnostics.py:43-44 | without deposits or withdrawals there is no XIRR |
| Diagnostics.DepositAndValueGiveFlows | src/moneygoal/diagnostics.py:39-45 | a non-zero deposit and a positive market value always pass the sign check |
| Diagnostics.ComputeXirrFromFrames | src/moneygoal/diagnostics.py:5-47 | fails exactly as the flow construction does; otherwise the solver's rate for those flows |
| Diagnostics.DiagnosticsDict | src/moneygoal/diagnostics.py:50-55 | a map with the single key "xirr" holding that rate, or the same error |
| AvanzaCsv.ParseNumber | src/moneygoal/io/avanza_csv.py:4-8 | succeeds exactly when the stripped text, without spaces and with a point for the comma, spells an optionally signed decimal (digits with at most one point, at least one digit), and then returns the value it spells; otherwise the error names that normalized text, which is what `float` complains about |
| AvanzaCsv.DecimalSound | src/moneygoal/io/avanza_csv.py:4 | every value the decimal reader returns is spelled by its text |
| AvanzaCsv.DecimalComplete | src/moneygoal/io/avanza_csv.py:4 | every text that spells a value is read as that value |
| AvanzaCsv.SpellingUnique | src/moneygoal/io/avanza_csv.py:4 | a text spells at most one number |
| AvanzaCsv.Normalize | src/moneygoal/io/avanza_csv.py:4-8 | the normalised text has no space or comma and no surrounding whitespace |
| AvanzaCsv.NormalizeIdempotent | src/moneygoal/io/avanza_csv.py:4-8 | normalising twice changes nothing |
| AvanzaCsv.ParseExportRoundTrip | src/moneygoal/io/avanza_csv.py:2-8 | an exported amount (sign, digits, decimal comma, surrounding whitespace) parses back to its value |
| AvanzaCsv.InnerSpaceIgnored | src/moneygoal/io/avanza_csv.py:4-8 | a thousands-separator space does not change whether or what a text parses to |
| AvanzaCsv.ParseIntegerRoundTrip | src/moneygoal/io/avanza_csv.py:4-8 | an optionally signed whole number with surrounding whitespace parses back to its value |
| AvanzaCsv.ParseDecimalCommaExample | tests/test_parse_number.py:4 | "1,23" parses to 1.23 |
| AvanzaCsv.ParseIntegerExample | tests/test_parse_number.py:5 | "123" parses to 123.0 |
| AvanzaCsv.ParseGroupedExample | tests/test_parse_number.py:6 | "-363 546,05" parses to -363546.05 |
| AvanzaCsv.ParseEmptyRejected | src/moneygoal/io/avanza_csv.py:4-8 | the empty text is not a number |
| AvanzaCsv.ParseTwoCommasRejected | src/moneygoal/io/avanza_csv.py:4-8 | "1,2,3" becomes "1.2.3", which is not a number |
| App.MonthsToYm | app/app.py:54-56 | years and months recombine to the input, with the month part in 0..11 |
| App.MonthsToYmUnique | app/app.py:54-56 | any split into whole years and a remainder 0..11 is the one returned |
| App.MonthsToYmExamples | app/app.py:54-56 | 50 months is 4 years 2 months; the sentinel 601 is 50 years 1 month |
| App.Guards | app/app.py:85-99 | an error is reported exactly when its check is violated, in the order of the guard block |
| App.Messages | app/app.py:101-105 | a message is shown exactly when its check is violated, one per reported error, and none exactly when the run proceeds |
| App.MessageInjective | app/app.py:85-99 | the seven messages are distinct |
| App.GuardsCoverSimulation | app/app.py:85-105 | past the guards both files are present, and the simulation accepts the run exactly when the present value and the mean contribution are non-negative |
| App.NegativeContributionPassesGuards | app/app.py:85-105 | a net outflow of contributions passes the guards but the simulation rejects it as a negative contribution |

## Left out

- Random numbers: `random.Random(seed)`, `gauss` and `exp`. A path is driven by a `Stream` of positive monthly factors. The lognormal paths draw from one stream in sequence, so path i starts where path i-1 stopped.
- Transcendental functions: `(1 + cagr) ** (1/12)` is the parameter `growth`, and `(1 + rate) ** t` is the parameter `pow`. Nothing is assumed about either beyond a positive result.
- Floating point: rounding, overflow and `inf` are not modelled; reals are exact. The percentile index rounds the exact rational p*(n-1)/100. For the three percentiles the program asks for, the float product `(p / 100.0) * (n - 1)` picks the same index whenever n is below 2^45. 0.5 is exact. The representation errors of 0.1 and 0.9 are relatively smaller than half a unit in the last place, so the product lands exactly on every x.5 tie. Elsewhere it stays within 0.1 of the exact value, which is at least 0.1 away from a tie. This is an argument about IEEE doubles, not something the model proves.
- MonteCarlo.PathMonotone: monotonicity is stated per path for dominated factor streams. It is not stated for whole lognormal runs, because a path that ends later consumes more draws and shifts every later path.
- Mwrr.SortByDate: the order of flows with equal dates is not stated. Python's sort is stable, but with exact reals the NPV does not depend on that order.
- Mwrr.Xirr: the result is characterised by the bracket it is bisected on, or as the endpoint fallback, not as a single numeric value; the exact midpoint sequence depends on float arithmetic.
- pandas: `to_datetime`, `to_numeric`, `astype(float)` and their exceptions. Tables carry typed dates and real amounts; the column set is modelled only for the "required columns" checks.
- Contrib.PrepareRows: the `KeyError` message text is not modelled; the error carries the set of missing columns.
- Diagnostics: `dt.date.today()` is the parameter `today`. A missing column or the sign check yields an error value instead of `KeyError` or `ValueError`.
- The month key "YYYY-MM" is a (year, month) pair ordered lexicographically, which is the string order for four-digit years.
- AvanzaCsv.ParseNumber: Python's `float` also accepts exponents, `inf`, `nan` and underscores between digits; the model accepts only an optional sign followed by digits with at most one decimal point. Python's `float` also accepts non-ASCII Unicode digits; the model accepts only 0-9. Surrounding whitespace is stripped for the whole set Python's `str.isspace` recognises. The error carries the normalized text; the wording of Python's message around it is not modelled.
- cli.py and the rest of app/app.py (saving uploads, reading and normalising the CSV files, the pipeline call, rendering) are input/output and are not modelled. `parse_date` and the read/normalise helpers are not part of this model.
