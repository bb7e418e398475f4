/** The daily series: the index of every quote date that still has rows
    after preparation, next to the day's mean realized volatility, with
    undefined days dropped; and its alignment with the realized volatility
    30 rows later. */
module Daily {
  import opened Wrappers
  import opened Sorting
  import opened Calendar
  import opened Chain
  import opened Variance
  import opened DayIndex

  /** `calc_cnvix_for_date` as the source runs it: the two nearest
      expiries, the loop that collects the terms of the usable ones, and
      the interpolation of the first two collected. */
  method CnvixForDate(dayRows: seq<Row>, growth: real -> real) returns (out: Outcome)
    requires PositiveCounts(dayRows)
    ensures out == DayOutcome(dayRows, growth)
  {
    var maturityDays := MaturityDays(dayRows);
    if |maturityDays| < 2 {
      return Undefined;
    }
    var results := CollectTerms(dayRows, Selected(maturityDays), growth);
    if |results| < 2 {
      return Undefined;
    }
    out := Interpolate(results[0], results[1]);
  }

  /** The loop over the selected expiries: a maturity lacking calls or
      puts, or without a strike quoted on both sides, is skipped, and any
      other appends its term. */
  method CollectTerms(dayRows: seq<Row>, maturityList: seq<Date>, growth: real -> real)
    returns (results: seq<Variance.Term>)
    requires PositiveCounts(dayRows)
    ensures results == UsableTerms(dayRows, maturityList, growth)
  {
    results := [];
    for k := 0 to |maturityList|
      invariant results == UsableTerms(dayRows, maturityList[..k], growth)
    {
      UsableTermsStep(dayRows, maturityList, k, growth);
      var sub := ExpiryGroup(dayRows, maturityList[k]);
      var calls, puts := Legs(sub, Call), Legs(sub, Put);
      if calls != [] && puts != [] {
        var merged := Join(calls, puts);
        if merged != [] {
          results := results + [JoinedTerm(sub, merged, growth)];
        }
      }
    }
    assert maturityList[..|maturityList|] == maturityList;
  }

  function PresentSum(rows: seq<Row>): real {
    if rows == [] then 0.0
    else
      PresentSum(rows[..|rows| - 1])
        + match rows[|rows| - 1].quote.hisVol case None => 0.0 case Some(v) => v
  }

  /** The number of rows with a realized volatility. */
  function PresentCount(rows: seq<Row>): (c: nat)
    ensures c <= |rows|
    ensures c == 0 <==> forall i :: 0 <= i < |rows| ==> rows[i].quote.hisVol.None?
  {
    if rows == [] then 0
    else
      var p := rows[..|rows| - 1];
      assert forall i :: 0 <= i < |p| ==> p[i] == rows[i];
      PresentCount(p) + if rows[|rows| - 1].quote.hisVol.Some? then 1 else 0
  }

  /** `df_day['underlyinghisvol_30d'].mean()`: the mean of the values
      present, and NaN (`None`) when there is none. */
  function DayRealized(dayRows: seq<Row>): (v: Option<real>)
    ensures v.None? <==> forall i :: 0 <= i < |dayRows| ==> dayRows[i].quote.hisVol.None?
  {
    var c := PresentCount(dayRows);
    if c == 0 then None else Some(PresentSum(dayRows) / c as real)
  }

  /** `n` copies of `a` added up. */
  function Repeat(a: real, n: nat): real {
    if n == 0 then 0.0 else Repeat(a, n - 1) + a
  }

  lemma {:induction false} RepeatProduct(a: real, n: nat)
    ensures Repeat(a, n) == a * n as real
  {
    if n > 0 {
      RepeatProduct(a, n - 1);
      assert a * n as real == a * (n - 1) as real + a;
    }
  }

  lemma {:induction false} PresentBounds(rows: seq<Row>, lo: real, hi: real)
    requires forall i :: 0 <= i < |rows| && rows[i].quote.hisVol.Some? ==>
      lo <= rows[i].quote.hisVol.value <= hi
    ensures Repeat(lo, PresentCount(rows)) <= PresentSum(rows) <= Repeat(hi, PresentCount(rows))
  {
    if rows != [] {
      var p := rows[..|rows| - 1];
      forall i | 0 <= i < |p| && p[i].quote.hisVol.Some?
        ensures lo <= p[i].quote.hisVol.value <= hi
      {
        assert p[i] == rows[i];
      }
      PresentBounds(p, lo, hi);
    }
  }

  lemma QuotientBounds(x: real, c: real, lo: real, hi: real)
    requires c > 0.0 && lo * c <= x <= hi * c
    ensures lo <= x / c <= hi
  {
    assert x == (x / c) * c;
  }

  lemma MeanBounds(x: real, c: nat, lo: real, hi: real)
    requires c > 0 && Repeat(lo, c) <= x <= Repeat(hi, c)
    ensures lo <= x / c as real <= hi
  {
    RepeatProduct(lo, c);
    RepeatProduct(hi, c);
    QuotientBounds(x, c as real, lo, hi);
  }

  /** The day's realized volatility lies between the smallest and the
      largest value recorded that day; in particular a value recorded
      identically on every row is the day's value. */
  lemma RealizedBounds(dayRows: seq<Row>, lo: real, hi: real)
    requires forall i :: 0 <= i < |dayRows| && dayRows[i].quote.hisVol.Some? ==>
      lo <= dayRows[i].quote.hisVol.value <= hi
    ensures DayRealized(dayRows).Some? ==> lo <= DayRealized(dayRows).value <= hi
  {
    var c := PresentCount(dayRows);
    if c > 0 {
      PresentBounds(dayRows, lo, hi);
      MeanBounds(PresentSum(dayRows), c, lo, hi);
    }
  }

  /** One entry of `vix_list`: a date, its index (`None` for NaN) and its
      realized volatility (`None` for NaN). */
  datatype Entry = Entry(date: Date, cnvixSquared: Option<real>, realized: Option<real>)

  /** A row of the daily result: a date with a defined index and a
      defined realized volatility. */
  datatype Point = Point(date: Date, cnvixSquared: real, realized: real)

  function RowDates(rows: seq<Row>): (ds: seq<Date>)
    ensures |ds| == |rows| && forall k :: 0 <= k < |rows| ==> ds[k] == rows[k].quote.date
  {
    seq(|rows|, k requires 0 <= k < |rows| => rows[k].quote.date)
  }

  /** `df.groupby('date')` for one date: that date's rows, in row order. */
  function DayRows(rows: seq<Row>, d: Date): (g: seq<Row>)
    ensures forall i :: 0 <= i < |g| ==> g[i] in rows && g[i].quote.date == d
    ensures forall r :: r in rows && r.quote.date == d ==> r in g
    ensures PositiveCounts(rows) ==> PositiveCounts(g)
  {
    if rows == [] then []
    else
      var rest := DayRows(rows[1..], d);
      assert forall i :: 1 <= i < |rows| ==> rows[i] == rows[1..][i - 1];
      if rows[0].quote.date == d then [rows[0]] + rest else rest
  }

  /** What the loop body appends for one date: nothing when the square
      root raised (the exception is caught and the day skipped), and
      otherwise the day's index, or NaN, with its realized volatility. */
  function DayEntry(rows: seq<Row>, d: Date, growth: real -> real): seq<Entry>
    requires PositiveCounts(rows)
  {
    var g := DayRows(rows, d);
    EntryOf(d, DayOutcome(g, growth), DayRealized(g))
  }

  function EntryOf(d: Date, out: Outcome, realized: Option<real>): seq<Entry> {
    match out
    case SqrtRaised => []
    case Undefined => [Entry(d, None, realized)]
    case Index(sq) => [Entry(d, Some(sq), realized)]
  }

  /** `vix_list` after the loop over the dates `ds`. */
  function Entries(rows: seq<Row>, ds: seq<Date>, growth: real -> real): seq<Entry>
    requires PositiveCounts(rows)
  {
    if ds == [] then []
    else Entries(rows, ds[..|ds| - 1], growth) + DayEntry(rows, ds[|ds| - 1], growth)
  }

  /** `dropna()`: the entries whose index and realized volatility are
      both defined, in order. */
  function DropNaN(es: seq<Entry>): seq<Point> {
    if es == [] then []
    else
      var e := es[|es| - 1];
      DropNaN(es[..|es| - 1])
        + if e.cnvixSquared.Some? && e.realized.Some? then [Point(e.date, e.cnvixSquared.value, e.realized.value)] else []
  }

  function PointDate(p: Point): real {
    p.date as real
  }

  /** The daily result table: `DataFrame(vix_list).dropna().sort_values('date')`
      over the dates of the rows in ascending order. */
  function Series(rows: seq<Row>, growth: real -> real): seq<Point>
    requires PositiveCounts(rows)
  {
    SortBy(DropNaN(Entries(rows, SortedUnique(RowDates(rows)), growth)), PointDate)
  }

  /** The batch loop over the quote dates, then the result table; with
      no entry collected the table has no `date` column and
      `sort_values('date')` raises `KeyError`, which nothing catches. */
  method DailySeries(rows: seq<Row>, growth: real -> real) returns (result: Option<seq<Point>>)
    requires PositiveCounts(rows)
    ensures result.None? <==> Entries(rows, SortedUnique(RowDates(rows)), growth) == []
    ensures result.Some? ==> result.value == Series(rows, growth)
  {
    var dates := SortedUnique(RowDates(rows));
    var vixList: seq<Entry> := [];
    for k := 0 to |dates|
      invariant vixList == Entries(rows, dates[..k], growth)
    {
      vixList := AppendDay(rows, dates[k], growth, vixList);
      EntriesPrefixStep(rows, dates, k, growth);
    }
    assert dates[..|dates|] == dates;
    if vixList == [] {
      return None;
    }
    result := Some(SortBy(DropNaN(vixList), PointDate));
  }

  /** One pass of the loop body: the day's index, caught `ValueError`
      skipping the day, and the appended entry. */
  method AppendDay(rows: seq<Row>, d: Date, growth: real -> real, vixList: seq<Entry>) returns (next: seq<Entry>)
    requires PositiveCounts(rows)
    ensures next == vixList + DayEntry(rows, d, growth)
  {
    var dfDay := DayRows(rows, d);
    var vixValue := CnvixForDate(dfDay, growth);
    match vixValue
    case SqrtRaised =>
      next := vixList;
    case Undefined =>
      next := vixList + [Entry(d, None, DayRealized(dfDay))];
    case Index(sq) =>
      next := vixList + [Entry(d, Some(sq), DayRealized(dfDay))];
  }

  /** A point records its day's defined index and realized volatility. */
  ghost predicate Recorded(rows: seq<Row>, p: Point, growth: real -> real)
    requires PositiveCounts(rows)
  {
    var g := DayRows(rows, p.date);
    DayOutcome(g, growth) == Index(p.cnvixSquared) && DayRealized(g) == Some(p.realized)
  }

  /** A day whose index and realized volatility are both defined. */
  ghost predicate Defined(rows: seq<Row>, d: Date, growth: real -> real)
    requires PositiveCounts(rows)
  {
    var g := DayRows(rows, d);
    DayOutcome(g, growth).Index? && DayRealized(g).Some?
  }

  /** The entry a date contributes: none when the square root raised,
      and otherwise one carrying the day's index (when defined) and its
      realized volatility. */
  lemma DayEntrySpec(rows: seq<Row>, d: Date, growth: real -> real)
    requires PositiveCounts(rows)
    ensures var g := DayRows(rows, d);
      var out := DayOutcome(g, growth);
      && (|DayEntry(rows, d, growth)| == if out.SqrtRaised? then 0 else 1)
      && forall e :: e in DayEntry(rows, d, growth) ==>
           && e.date == d && e.realized == DayRealized(g)
           && (e.cnvixSquared.Some? <==> out.Index?)
           && (e.cnvixSquared.Some? ==> out == Index(e.cnvixSquared.value))
  {
  }

  lemma EntriesStep(rows: seq<Row>, ds: seq<Date>, growth: real -> real)
    requires PositiveCounts(rows) && ds != []
    ensures Entries(rows, ds, growth) == Entries(rows, ds[..|ds| - 1], growth) + DayEntry(rows, ds[|ds| - 1], growth)
  {
  }

  lemma EntriesPrefixStep(rows: seq<Row>, ds: seq<Date>, k: nat, growth: real -> real)
    requires PositiveCounts(rows) && k < |ds|
    ensures Entries(rows, ds[..k + 1], growth) == Entries(rows, ds[..k], growth) + DayEntry(rows, ds[k], growth)
  {
    assert ds[..k + 1][..k] == ds[..k];
  }

  /** Every entry of `vix_list` is the entry of one of the dates `ds`. */
  lemma {:induction false} EntriesMembers(rows: seq<Row>, ds: seq<Date>, growth: real -> real)
    requires PositiveCounts(rows)
    ensures forall e :: e in Entries(rows, ds, growth) ==> e.date in ds && e in DayEntry(rows, e.date, growth)
  {
    if ds != [] {
      var front := ds[..|ds| - 1];
      var last := ds[|ds| - 1];
      assert ds == front + [last];
      EntriesMembers(rows, front, growth);
      DayEntrySpec(rows, last, growth);
      EntriesStep(rows, ds, growth);
    }
  }

  /** Every date's entry is in `vix_list`. */
  lemma {:induction false} EntriesCover(rows: seq<Row>, ds: seq<Date>, growth: real -> real)
    requires PositiveCounts(rows)
    ensures forall d, e :: d in ds && e in DayEntry(rows, d, growth) ==> e in Entries(rows, ds, growth)
  {
    if ds != [] {
      var front := ds[..|ds| - 1];
      var last := ds[|ds| - 1];
      assert ds == front + [last];
      EntriesCover(rows, front, growth);
      EntriesStep(rows, ds, growth);
    }
  }

  /** `vix_list` is in ascending date order when the dates are. */
  lemma {:induction false} EntriesOrdered(rows: seq<Row>, ds: seq<Date>, growth: real -> real)
    requires PositiveCounts(rows) && StrictlyIncreasing(ds)
    ensures forall i, j :: 0 <= i < j < |Entries(rows, ds, growth)| ==>
      Entries(rows, ds, growth)[i].date < Entries(rows, ds, growth)[j].date
  {
    if ds != [] {
      EntriesOrdered(rows, ds[..|ds| - 1], growth);
      EntriesEarlier(rows, ds, growth);
      DayEntrySpec(rows, ds[|ds| - 1], growth);
      EntriesStep(rows, ds, growth);
    }
  }

  /** The entries of all but the last of ascending dates are dated before
      the last. */
  lemma EntriesEarlier(rows: seq<Row>, ds: seq<Date>, growth: real -> real)
    requires PositiveCounts(rows) && StrictlyIncreasing(ds) && ds != []
    ensures forall e :: e in Entries(rows, ds[..|ds| - 1], growth) ==> e.date < ds[|ds| - 1]
  {
    EntriesMembers(rows, ds[..|ds| - 1], growth);
    forall e | e in Entries(rows, ds[..|ds| - 1], growth) ensures e.date < ds[|ds| - 1] {
      var k :| 0 <= k < |ds| - 1 && ds[..|ds| - 1][k] == e.date;
      assert ds[k] == e.date;
    }
  }

  /** No entry is collected exactly when no date contributes one, which
      covers a run without dates. */
  lemma {:induction false} EntriesEmpty(rows: seq<Row>, ds: seq<Date>, growth: real -> real)
    requires PositiveCounts(rows)
    ensures Entries(rows, ds, growth) == [] <==> forall d :: d in ds ==> DayEntry(rows, d, growth) == []
  {
    if ds != [] {
      EntriesEmpty(rows, ds[..|ds| - 1], growth);
      EntriesStep(rows, ds, growth);
      EmptyConcat(Entries(rows, ds[..|ds| - 1], growth), DayEntry(rows, ds[|ds| - 1], growth));
      LastSplit(ds);
    }
  }

  lemma EmptyConcat<T>(a: seq<T>, b: seq<T>)
    ensures a + b == [] <==> a == [] && b == []
  {
    assert |a + b| == |a| + |b|;
  }

  lemma LastSplit(ds: seq<Date>)
    requires ds != []
    ensures forall d :: d in ds <==> d in ds[..|ds| - 1] || d == ds[|ds| - 1]
  {
    assert ds == ds[..|ds| - 1] + [ds[|ds| - 1]];
  }

  /** A date contributes no entry exactly when its square root raises. */
  lemma DayEntryEmpty(rows: seq<Row>, d: Date, growth: real -> real)
    requires PositiveCounts(rows)
    ensures DayEntry(rows, d, growth) == [] <==> DayOutcome(DayRows(rows, d), growth) == SqrtRaised
  {
  }

  /** `dropna()` keeps exactly the entries with both values defined. */
  lemma {:induction false} DropNaNSpec(es: seq<Entry>)
    ensures var ps := DropNaN(es);
      && (forall p :: p in ps ==> Entry(p.date, Some(p.cnvixSquared), Some(p.realized)) in es)
      && (forall e :: e in es && e.cnvixSquared.Some? && e.realized.Some? ==>
            Point(e.date, e.cnvixSquared.value, e.realized.value) in ps)
  {
    if es != [] {
      var front := es[..|es| - 1];
      var e := es[|es| - 1];
      assert es == front + [e];
      DropNaNSpec(front);
    }
  }

  /** `dropna()` keeps the entries in order. */
  lemma {:induction false} DropNaNOrdered(es: seq<Entry>)
    requires forall i, j :: 0 <= i < j < |es| ==> es[i].date < es[j].date
    ensures forall i, j :: 0 <= i < j < |DropNaN(es)| ==> DropNaN(es)[i].date < DropNaN(es)[j].date
  {
    if es != [] {
      assert forall i :: 0 <= i < |es| - 1 ==> es[..|es| - 1][i] == es[i];
      DropNaNOrdered(es[..|es| - 1]);
      DropNaNEarlier(es[..|es| - 1], es[|es| - 1]);
      forall i, j | 0 <= i < j < |DropNaN(es)| ensures DropNaN(es)[i].date < DropNaN(es)[j].date {
        if j >= |DropNaN(es[..|es| - 1])| {
          assert DropNaN(es)[i] == DropNaN(es[..|es| - 1])[i] && DropNaN(es)[j].date == es[|es| - 1].date;
          assert DropNaN(es[..|es| - 1])[i] in DropNaN(es[..|es| - 1]);
        } else {
          assert DropNaN(es)[i] == DropNaN(es[..|es| - 1])[i] && DropNaN(es)[j] == DropNaN(es[..|es| - 1])[j];
        }
      }
    }
  }

  /** The points kept from entries dated before `e` are dated before it. */
  lemma {:induction false} DropNaNEarlier(front: seq<Entry>, e: Entry)
    requires forall i :: 0 <= i < |front| ==> front[i].date < e.date
    ensures forall p :: p in DropNaN(front) ==> p.date < e.date
  {
    if front != [] {
      DropNaNEarlier(front[..|front| - 1], e);
    }
  }

  /** A point of the daily result records its day. */
  lemma PointRecorded(rows: seq<Row>, ds: seq<Date>, growth: real -> real, p: Point)
    requires PositiveCounts(rows) && p in DropNaN(Entries(rows, ds, growth))
    ensures p.date in ds && Recorded(rows, p, growth) && p.cnvixSquared >= 0.0
  {
    var es := Entries(rows, ds, growth);
    EntriesMembers(rows, ds, growth);
    DropNaNSpec(es);
    var e := Entry(p.date, Some(p.cnvixSquared), Some(p.realized));
    assert e in es;
    DayEntrySpec(rows, p.date, growth);
    DayOutcomeSquare(DayRows(rows, p.date), growth);
  }

  /** A defined day has its point in the daily result. */
  lemma PointListed(rows: seq<Row>, ds: seq<Date>, growth: real -> real, d: Date)
    requires PositiveCounts(rows) && d in ds && Defined(rows, d, growth)
    ensures exists p :: p in DropNaN(Entries(rows, ds, growth)) && p.date == d
  {
    var es := Entries(rows, ds, growth);
    EntriesCover(rows, ds, growth);
    DropNaNSpec(es);
    DayEntrySpec(rows, d, growth);
    var e := DayEntry(rows, d, growth)[0];
    assert e in DayEntry(rows, d, growth);
    assert e in es;
    var p := Point(e.date, e.cnvixSquared.value, e.realized.value);
    assert p in DropNaN(es);
  }

  /** Over ascending dates the points come out in ascending date order,
      so sorting them by date changes nothing. */
  lemma SortedPoints(rows: seq<Row>, ds: seq<Date>, growth: real -> real)
    requires PositiveCounts(rows) && StrictlyIncreasing(ds)
    ensures var ps := DropNaN(Entries(rows, ds, growth));
      && (forall i, j :: 0 <= i < j < |ps| ==> ps[i].date < ps[j].date)
      && SortBy(ps, PointDate) == ps
  {
    EntriesOrdered(rows, ds, growth);
    assert forall i, j :: 0 <= i < j < |Entries(rows, ds, growth)| ==>
      Entries(rows, ds, growth)[i].date < Entries(rows, ds, growth)[j].date;
    DropNaNOrdered(Entries(rows, ds, growth));
    assert SortedBy(DropNaN(Entries(rows, ds, growth)), PointDate);
    SortBySorted(DropNaN(Entries(rows, ds, growth)), PointDate);
  }

  /** The daily result lists the dates in strictly ascending order (the
      final sort changes nothing), each date having rows and carrying its
      day's defined index and realized volatility, and every date whose
      index and realized volatility are defined is listed; no listed
      squared index is negative. */
  lemma SeriesSpec(rows: seq<Row>, growth: real -> real)
    requires PositiveCounts(rows)
    ensures var s := Series(rows, growth);
      && (forall i, j :: 0 <= i < j < |s| ==> s[i].date < s[j].date)
      && (forall p :: p in s ==> p.date in RowDates(rows) && Recorded(rows, p, growth) && p.cnvixSquared >= 0.0)
      && (forall d :: d in RowDates(rows) && Defined(rows, d, growth) ==> exists p :: p in s && p.date == d)
  {
    var ds := SortedUnique(RowDates(rows));
    var ps := DropNaN(Entries(rows, ds, growth));
    SortedPoints(rows, ds, growth);
    forall p | p in ps
      ensures p.date in RowDates(rows) && Recorded(rows, p, growth) && p.cnvixSquared >= 0.0
    {
      PointRecorded(rows, ds, growth, p);
    }
    forall d | d in RowDates(rows) && Defined(rows, d, growth)
      ensures exists p :: p in ps && p.date == d
    {
      PointListed(rows, ds, growth, d);
    }
  }

  /** A row of the comparison table: a day's index and realized
      volatility with the realized volatility 30 rows later. */
  datatype Aligned = Aligned(date: Date, cnvixSquared: real, realized: real, realizedAhead: real)

  /** The number of rows the realized volatility is shifted by. */
  const Horizon: nat := 30

  /** `shift(-h)` of the realized volatility: each row's value `h` rows
      later, and NaN for the last `h` rows. */
  function Shifted(ps: seq<Point>, h: nat): (v: seq<Option<real>>)
    ensures |v| == |ps|
  {
    seq(|ps|, i requires 0 <= i < |ps| => if i + h < |ps| then Some(ps[i + h].realized) else None)
  }

  /** `dropna(subset=['CNVIX', shifted])`: the rows with a shifted value,
      in order. */
  function KeepShifted(ps: seq<Point>, v: seq<Option<real>>): seq<Aligned>
    requires |v| == |ps|
  {
    if ps == [] then []
    else
      var n := |ps|;
      var p := ps[n - 1];
      KeepShifted(ps[..n - 1], v[..n - 1])
        + if v[n - 1].Some? then [Aligned(p.date, p.cnvixSquared, p.realized, v[n - 1].value)] else []
  }

  /** The comparison table. */
  function Align(ps: seq<Point>): seq<Aligned> {
    KeepShifted(ps, Shifted(ps, Horizon))
  }

  lemma {:induction false} KeepShiftedCut(ps: seq<Point>, v: seq<Option<real>>, m: nat)
    requires |v| == |ps| && m <= |ps|
    requires forall i :: 0 <= i < m ==> v[i].Some?
    requires forall i :: m <= i < |ps| ==> v[i].None?
    ensures |KeepShifted(ps, v)| == m
    ensures forall i :: 0 <= i < m ==>
      KeepShifted(ps, v)[i] == Aligned(ps[i].date, ps[i].cnvixSquared, ps[i].realized, v[i].value)
  {
    if ps != [] {
      assert forall i :: 0 <= i < |ps| - 1 ==> ps[..|ps| - 1][i] == ps[i] && v[..|v| - 1][i] == v[i];
      KeepShiftedCut(ps[..|ps| - 1], v[..|v| - 1], if m == |ps| then m - 1 else m);
    }
  }

  /** The comparison table pairs the `i`-th day with the realized
      volatility of the day 30 rows later, for every day that has one:
      it has 30 rows fewer than the daily result, or none. */
  lemma AlignSpec(ps: seq<Point>)
    ensures |Align(ps)| == if |ps| > Horizon then |ps| - Horizon else 0
    ensures forall i :: 0 <= i < |Align(ps)| ==>
      Align(ps)[i] == Aligned(ps[i].date, ps[i].cnvixSquared, ps[i].realized, ps[i + Horizon].realized)
  {
    var m := if |ps| > Horizon then |ps| - Horizon else 0;
    KeepShiftedCut(ps, Shifted(ps, Horizon), m);
  }

  /** The two output tables. */
  datatype Report = Report(series: seq<Point>, compare: seq<Aligned>)

  /** The pipeline: preparation, the daily loop and the alignment, or the
      abort at the result table when no entry is collected. Every prepared
      row has a positive trading-day count. */
  method Run(quotes: seq<Quote>, growth: real -> real) returns (report: Option<Report>)
    ensures var rows := Prepared(TradingDays(quotes), quotes);
      && PositiveCounts(rows)
      && (report.None? <==> Entries(rows, SortedUnique(RowDates(rows)), growth) == [])
      && (report.Some? ==> report.value.series == Series(rows, growth)
                           && report.value.compare == Align(report.value.series))
  {
    var days, rows := Preprocess(quotes);
    TradingCalendarSpec(quotes);
    PreparedSpec(days, quotes);
    forall i | 0 <= i < |rows| ensures rows[i].tdm > 0 {
      assert rows[i] in rows;
    }
    var series := DailySeries(rows, growth);
    match series
    case None =>
      report := None;
    case Some(s) =>
      report := Some(Report(s, Align(s)));
  }
}
