# CNVIX daily engine

A Dafny model of the per-day engine of `calc_cnvix.py`. The script computes a
VIX-style implied-volatility index (CNVIX) for the SSE 50ETF option chain.

The model covers five steps:

- **The trading-day calendar.** The distinct quote dates in ascending order.
  Each date has a zero-based position. An option's expiry is placed on the
  calendar by exact lookup. When that fails, it goes to the insertion point
  (`searchsorted`, side left). It is left unresolved when the insertion point
  is past the last trading day. Only quotes whose expiry lies a positive
  number of trading days after their quote date are kept.

- **The single-day index, `calc_cnvix_for_date`.**
  - The day's expiries are grouped with the mean trading-day count of each. The
    two whose counts lie nearest the 30-day target are selected.
  - For each of the two, if it has both calls and puts, the calls and puts are
    joined on strike.
  - The forward F is taken at the strike with the smallest call–put gap.
  - K0 is the largest joined strike not above F.
  - The out-of-the-money prices Q, the strike widths ΔK (`diff` then `bfill`)
    and the replication sum give σ² of the maturity.
  - Finally, total variance is interpolated linearly to 30/252 and annualised
    by 252/30.

- **The batch loop.** It runs over the quote dates that still have rows. A
  `math.sqrt` that raises skips the day. Each kept day records its index and its
  mean realized volatility. Then `dropna` and the sort by date are applied.

- **The comparison table.** It pairs each day with the realized volatility 30
  rows later (`shift(-30)` followed by `dropna`).

- **The whole pipeline.** Preparation, the batch loop and the comparison table
  run in sequence.

The model stands in for four things the script computes directly:

- **`e^{rT}`.** A parameter `growth: real -> real`, applied to `T`.
- **The CNVIX value.** The model carries its square,
  `CNVIX² = 100² · σ²₃₀ · 252 / 30`, instead of the value after `math.sqrt`.
  `Index(sq)` stands for the value `√sq`. `SqrtRaised` stands for the
  `ValueError` that `math.sqrt` raises on a negative argument.
- **NaN.** Represented by `None`. The source's outcome NaN is `Undefined`.
- **Prices and volatilities.** Exact reals. Strikes are positive reals, by type.

The files and modules:

| file | module | contents |
|---|---|---|
| `wrappers.dfy` | `Wrappers` | `Option` |
| `sorting.dfy` | `Sorting` | stable sort by a real key, first position of a minimum, permutation facts |
| `calendar.dfy` | `Calendar` | trading days, index lookup, `searchsorted`, expiry resolution |
| `chain.dfy` | `Chain` | quotes, prepared rows and the preparation method over arrays |
| `variance.dfy` | `Variance` | the join, F, K0, Q, ΔK, the replication sum and σ² of one maturity |
| `day_index.dfy` | `DayIndex` | grouping by expiry, selection of the two maturities, interpolation, the outcome of a day |
| `daily.dfy` | `Daily` | the per-day and batch loops, the realized mean, the daily table, the alignment and the pipeline |

The model follows what the code computes, including where that differs
from the usual reading of the VIX-style compilation scheme (《上证50ETF波动率指数编制方案》)
that the script's docstring cites:

- **A lone joined strike's missing width does not by itself make σ² NaN.**
  - `diff()` gives NaN for the only ΔK, and `bfill` has nothing to fill it with.
  - `np.sum` on a pandas Series skips NaN, so the sum is 0.
  - So σ² = −(F/K0 − 1)²/T when K0 exists, that is when the strike is not above F.
    Otherwise K0 is NaN (line 107) and so is σ² (`Variance.JoinedTermSpec`, `Variance.ReplicationSumSpec`).
- **A flat term structure `s` gives `CNVIX = 100·√s`.**
  - Lines 127–128 interpolate total variance and then multiply by 252/30 = 1/T₃₀.
  - So a flat variance of 0.04 gives 20, not a larger figure (`DayIndex.FlatTermStructure`).
- **An empty loop result aborts the run.** With no entry collected, line 144 builds a table
  without a `date` column and `sort_values('date')` raises `KeyError` outside the `try`.
  `Daily.DailySeries` and `Daily.Run` return `None` exactly then.

There is one exception, where the model departs from the code on purpose. When the two
selected maturities share the same time `T`, line 127 divides by a floating-point 0.0.
The model's `DayIndex.DayOutcome`, and so the daily table, uses the corrected
interpolation, which leaves such a day undefined. The code instead keeps an infinite
index for a positive numerator. Both halves are in the findings table at the end.

## Model

| member | source | states |
|---|---|---|
| Calendar.SortedUnique | calc_cnvix.py:52 | the trading days are strictly ascending and are exactly the dates that occur |
| Calendar.IndexOf | calc_cnvix.py:53-54 | the lookup succeeds exactly for a trading day and returns a position holding that day |
| Calendar.IndexOfPosition | calc_cnvix.py:53 | every trading day maps to its own position (the enumeration is a bijection) |
| Calendar.SearchSorted | calc_cnvix.py:60 | the insertion point has only earlier days before it and only days not earlier from it on |
| Calendar.ExpiryIndexSpec | calc_cnvix.py:56-65 | an expiry resolves exactly when it is not after the last trading day; it resolves to the first trading day on or after it, which is the expiry itself when it is a trading day and the next trading day otherwise |
| Calendar.ExpiryIndexMonotone | calc_cnvix.py:56-65 | a later expiry never resolves to an earlier trading day |
| Chain.Preprocess | calc_cnvix.py:52-71 | the calendar is the sorted distinct quote dates and the rows are exactly the prepared quotes in input order |
| Chain.PatchMissingExpiries | calc_cnvix.py:57-65 | after the in-place patch every entry of the expiry index array is the resolved expiry index, and unresolved past the end |
| Chain.KeepResolved | calc_cnvix.py:67-71 | the filter keeps, in order, the quotes with a resolved expiry and a positive trading-day count, with their indices and count |
| Chain.TradingCalendarSpec | calc_cnvix.py:52-54 | the calendar is strictly ascending, contains every quote date and nothing else, and every quote date finds its position |
| Chain.PreparedSpec | calc_cnvix.py:67-71 | every prepared row comes from an input quote that is kept, records its date's position, its expiry's index and their positive difference; every kept quote yields a row |
| Chain.PreparedConsistent | calc_cnvix.py:70 | rows with the same quote date and a later expiry never have a smaller trading-day count |
| Variance.LegsMembers | calc_cnvix.py:96-97 | a leg is listed exactly when a row of that right quotes that strike at that price; there are none exactly when no row has that right |
| Variance.LegsFilter | calc_cnvix.py:96-97 | selecting the legs is an order-keeping filter row by row: the legs of two runs of rows are those of the first followed by those of the second, and one row gives its own leg exactly when it has that right, so duplicates are kept |
| Variance.Join | calc_cnvix.py:98 | a joined row exists exactly when a call and a put are quoted at the same strike with those prices |
| Variance.JoinCount | calc_cnvix.py:98 | the inner join keeps every call–put pairing of a strike: each joined row occurs as many times as its call leg times its put leg |
| Variance.JoinAppend | calc_cnvix.py:98 | the joined rows come calls-major: joining two runs of calls gives the first run's pairs followed by the second's |
| Variance.Forward | calc_cnvix.py:105-106 | F is `K + e^{rT}(C − P)` at the first joined row of smallest call–put gap |
| Variance.AtMoneyStrike | calc_cnvix.py:107 | K0 is missing exactly when every joined strike exceeds F, and is otherwise the largest joined strike not above F |
| Variance.AtMoneyPrices | calc_cnvix.py:109-113 | Q is the call–put average at K0, the put below it and the call above it |
| Variance.StrikeWidths | calc_cnvix.py:114-115 | after sorting, a lone strike's width is missing and otherwise each width is the gap to the previous strike (the first copying the second), never negative |
| Variance.ReplicationSumSpec | calc_cnvix.py:115-117 | the NaN-skipping sum of `ΔK/K²·Q` equals the sum with explicit widths, and is 0 for a lone strike |
| Variance.MaturityUsable | calc_cnvix.py:93-100 | a maturity is skipped exactly when no strike is quoted on both sides, which covers a missing right; otherwise its term is that of the joined rows |
| Variance.JoinedTermSpec | calc_cnvix.py:102-120 | `T` is the first row's count over 252 and positive; σ² is missing exactly when K0 is, and is otherwise `2e^{rT}/T · Σ − (F/K0 − 1)²/T` over the joined strikes in ascending order |
| DayIndex.MaturityDaysSpec | calc_cnvix.py:83 | the maturities are the day's distinct expiries, each once with its mean count, in ascending order of count |
| DayIndex.Nearest | calc_cnvix.py:87 | two different positions: the first position of smallest distance to 30, then the first position of smallest distance among the rest |
| DayIndex.SelectionSpec | calc_cnvix.py:87-88 | the two selected expiries are different expiries of the day, in ascending order, and no other expiry is strictly nearer the target than either |
| DayIndex.SingleExpiryUndefined | calc_cnvix.py:84-85 | a day with a single expiry has no index |
| DayIndex.UnusableSelectionUndefined | calc_cnvix.py:91-100 | when a selected maturity has no strike quoted on both sides, the day has no index and no other expiry is tried in its place |
| DayIndex.UsableTermsPair | calc_cnvix.py:90-120 | the collected terms are those of the two selected maturities that are usable, in selection order |
| DayIndex.InterpolatesTotalVariance | calc_cnvix.py:127 | the interpolated total variance moves linearly from `T1·s1` toward `T2·s2` and hits each one when the target equals its time |
| DayIndex.FlatTermStructure | calc_cnvix.py:125-128 | equal variances `s` give `σ²₃₀ = s·T₃₀` and `CNVIX² = 100²·s`, or a raised square root when `s < 0` |
| DayIndex.NearTermOnTarget | calc_cnvix.py:125-128 | a near maturity exactly 30 trading days out gives that maturity's own `CNVIX² = 100²·s1` |
| DayIndex.InterpolateSpec | calc_cnvix.py:122-128 | the result does not depend on the order the terms were found in; it is defined exactly when both variances exist, the times differ and the interpolated variance is not negative; a defined square is not negative |
| DayIndex.DayOutcomeSquare | calc_cnvix.py:128 | a defined day's squared index is not negative |
| DayIndex.SharedExpiryIndex | calc_cnvix.py:52-71 | on the calendar `[1, 2, 5]` the non-trading expiries 3 and 4 both resolve to position 2, so quotes of day 1 on them are both kept with count 2 and share `T` |
| DayIndex.EqualTimesAsWritten | calc_cnvix.py:127 | with equal times 2/252 and variances 0.01 and 0.04 the code as written yields an infinite index, while the corrected interpolation leaves the day undefined |
| Daily.CnvixForDate | calc_cnvix.py:81-129 | the step-by-step computation of a day yields the day's outcome |
| Daily.CollectTerms | calc_cnvix.py:90-120 | the loop collects exactly the terms of the usable maturities among the listed expiries, in order |
| Daily.DayRealized | calc_cnvix.py:138 | the day's realized volatility is missing exactly when no row records one |
| Daily.RealizedBounds | calc_cnvix.py:138 | the day's realized volatility lies between the smallest and largest values recorded that day |
| Daily.AppendDay | calc_cnvix.py:134-141 | one pass of the loop body appends the day's entry: nothing when the square root raises, and otherwise the date with its index or NaN and its mean realized volatility |
| Daily.DayEntrySpec | calc_cnvix.py:134-141 | a day contributes no entry exactly when its square root raises and otherwise one, dated that day, carrying its realized volatility and an index exactly when the day's index is defined |
| Daily.EntriesEmpty | calc_cnvix.py:132-141 | no entry is collected exactly when no date contributes one, which covers a run without dates |
| Daily.DayEntryEmpty | calc_cnvix.py:134-141 | a date contributes no entry exactly when its square root raises |
| Daily.DailySeries | calc_cnvix.py:132-144 | the batch loop aborts (the `KeyError` of line 144) exactly when it collects no entry, and otherwise yields the daily table |
| Daily.SeriesSpec | calc_cnvix.py:133-144 | the daily table lists dates in strictly ascending order; each date has rows and carries its day's defined index and realized volatility; every such day is listed; no listed square is negative |
| Daily.AlignSpec | calc_cnvix.py:165-167 | the comparison table has 30 rows fewer than the daily table (or none) and pairs day `i` with the realized volatility of day `i + 30` |
| Daily.Run | calc_cnvix.py:52-167 | every prepared row has a positive count; the pipeline aborts exactly when the daily loop collects no entry, and otherwise yields the daily table of the prepared rows and its comparison table |

## Left out

- Reading the CSV and converting its columns (lines 39–41) are not modelled. Quotes arrive as values.
- The row filters of lines 42–43 are not modelled, because the types rule those rows out. A right is a call or a put, and strikes and prices are always present. The quote has no field for the `ptmday` column, so the model takes every quote to have passed line 43's `dropna` on it. For the same reason the `dropna` at line 98 is not modelled.
- The check for the realized-volatility column (lines 46–47) is not modelled, because every quote carries the field.
- Plots, CSV output and console messages (lines 145–158 and 168 on) are not modelled.
- `e^{rT}` and the constant rate 0.03 (lines 33, 103, 105, 117) are one parameter, `growth`. Its properties are not modelled.
- `math.sqrt` is not modelled. The index is carried squared, and a negative square is the raised `ValueError`.
- Floating-point rounding is not modelled. Neither is NaN propagation beyond the cases above: a missing K0, an empty realized column and a raised square root.
- Daily.SeriesSpec: the catch-all `except` at line 140 is modelled only for the `ValueError` of `math.sqrt`. Exceptions the data cannot raise in the model are not modelled.
- DayIndex.Nearest: the ordering of equal distances in `argsort` (line 87, quicksort, not stable) is modelled as stable. Likewise the ordering of equal counts in `sort_values` (line 83) and of equal strikes in `sort_values('exe_price')` (line 114) is modelled as stable, first in input order wins. `sorted` at line 125 is stable in Python.
- Variance.Join: the row order of `pd.merge` is modelled as calls-major in input order. The order decides the choice among equal call–put gaps (`idxmin`, line 106). It also decides which of several joined rows with the same strike gets the non-zero ΔK after the strike sort (line 114). Both affect σ².
- DayIndex.DayOutcome: when the two selected maturities share `T`, the model leaves the day undefined. There line 127 divides the numerator `T·(T₃₀ − T)·(s2 − s1)` by a floating-point 0.0, where s1 and s2 are the σ² of the earlier and the later maturity, and the code's day then depends on the numerator's sign (see the finding below). A positive numerator gives `+inf`, which `math.sqrt` accepts and `dropna` keeps, so the model's daily table omits a day the code keeps. A zero numerator (`T = T₃₀` or `s1 = s2`) gives NaN, which `dropna` drops, as the model's undefined day is dropped. A negative numerator, that is the earlier maturity having the larger σ² with `T < T₃₀` or the smaller one with `T > T₃₀`, gives `-inf`, and `math.sqrt` raises, so the code collects no entry for that day, while the model's undefined day still counts as a collected entry. If every date is like this, the code aborts at line 144 while `Daily.DailySeries` returns an empty table.

## Findings

| source | as written | input that shows it | evidently intended | confidence | as-written member | corrected member |
|---|---|---|---|---|---|---|
| calc_cnvix.py:127 | when both selected maturities have the same `T`, `T2 − T1` is a floating-point 0.0. A positive numerator gives `+inf`, `math.sqrt(inf)` does not raise, and `dropna` keeps the infinite CNVIX in the output | calendar `[1, 2, 5]`, day 1 (position 0), expiries 3 and 4 (both resolve to position 2, so count 2 and T = 2/252 for both, `DayIndex.SharedExpiryIndex`) with σ² 0.01 for expiry 3 and 0.04 for expiry 4 (`DayIndex.EqualTimesAsWritten`); with the two σ² swapped, `math.sqrt` raises instead and the day is skipped | such a day has no defined index | not executed | DayIndex.InterpolateAsWritten | DayIndex.Interpolate |
