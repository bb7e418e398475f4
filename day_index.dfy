/** One quote date's index: its expiries with their trading-day counts,
    the two whose counts are nearest the 30-day target, their terms, and
    the interpolation of total variance to the target horizon. */
module DayIndex {
  import opened Wrappers
  import opened Sorting
  import opened Calendar
  import opened Chain
  import opened Variance

  const TargetTradingDays: real := 30.0

  /** The target horizon in years, 30 / 252. */
  const TargetT: real := TargetTradingDays / TradingDaysPerYear

  /** An expiry offered on the day and the mean trading-day count of its
      quotes. */
  datatype Maturity = Maturity(expiry: Date, days: real)

  /** The outcome of one day: the square of its CNVIX value, the NaN the
      source returns when the day is undefined, or the `ValueError` that
      `math.sqrt` raises on a negative annualised variance. */
  datatype Outcome = Index(squared: real) | Undefined | SqrtRaised

  /** The day's rows for one expiry, in row order. */
  function ExpiryGroup(dayRows: seq<Row>, e: Date): (g: seq<Row>)
    ensures forall i :: 0 <= i < |g| ==> g[i] in dayRows && g[i].quote.expiry == e
    ensures forall r :: r in dayRows && r.quote.expiry == e ==> r in g
  {
    if dayRows == [] then []
    else
      var rest := ExpiryGroup(dayRows[1..], e);
      assert forall i :: 1 <= i < |dayRows| ==> dayRows[i] == dayRows[1..][i - 1];
      if dayRows[0].quote.expiry == e then [dayRows[0]] + rest else rest
  }

  function CountSum(g: seq<Row>): real {
    if g == [] then 0.0 else CountSum(g[..|g| - 1]) + g[|g| - 1].tdm as real
  }

  /** `groupby('exe_enddate')['tdm_trading'].mean()` for one expiry. */
  function MeanCount(g: seq<Row>): real {
    if g == [] then 0.0 else CountSum(g) / |g| as real
  }

  function RowExpiries(rows: seq<Row>): (es: seq<Date>)
    ensures |es| == |rows| && forall k :: 0 <= k < |rows| ==> es[k] == rows[k].quote.expiry
  {
    seq(|rows|, k requires 0 <= k < |rows| => rows[k].quote.expiry)
  }

  function MaturityOf(dayRows: seq<Row>, e: Date): Maturity {
    Maturity(e, MeanCount(ExpiryGroup(dayRows, e)))
  }

  function DaysOf(m: Maturity): real {
    m.days
  }

  /** The day's expiries in ascending order with their mean counts
      (`groupby`). */
  function Maturities(dayRows: seq<Row>): (ms: seq<Maturity>)
    ensures var es := SortedUnique(RowExpiries(dayRows));
      && |ms| == |es|
      && (forall i :: 0 <= i < |ms| ==> ms[i] == MaturityOf(dayRows, es[i]))
      && (forall m :: m in ms <==> m.expiry in es && m == MaturityOf(dayRows, m.expiry))
  {
    var es := SortedUnique(RowExpiries(dayRows));
    seq(|es|, i requires 0 <= i < |es| => MaturityOf(dayRows, es[i]))
  }

  /** The maturities sorted by mean count (`sort_values`). */
  function MaturityDays(dayRows: seq<Row>): seq<Maturity> {
    SortBy(Maturities(dayRows), DaysOf)
  }

  /** `|tdm - 30|`. */
  function Distance(m: Maturity): real {
    if m.days >= TargetTradingDays then m.days - TargetTradingDays else TargetTradingDays - m.days
  }

  /** `argsort()[:2]` on the distances to the target: the first position
      of the smallest distance, then the first position of the smallest
      distance among the others. */
  function Nearest(ms: seq<Maturity>): (sel: (nat, nat))
    requires |ms| >= 2
    ensures sel.0 < |ms| && sel.1 < |ms| && sel.0 != sel.1
    ensures forall k :: 0 <= k < |ms| ==> Distance(ms[sel.0]) <= Distance(ms[k])
    ensures forall k :: 0 <= k < |ms| && k != sel.0 ==> Distance(ms[sel.1]) <= Distance(ms[k])
    ensures forall k :: 0 <= k < sel.0 ==> Distance(ms[sel.0]) < Distance(ms[k])
    ensures forall k :: 0 <= k < sel.1 && k != sel.0 ==> Distance(ms[sel.1]) < Distance(ms[k])
  {
    var i := FirstMinBy(ms, Distance);
    (i, NextMinBy(ms, i, Distance))
  }

  /** The two selected expiries, in ascending date order. */
  function Selected(ms: seq<Maturity>): seq<Date>
    requires |ms| >= 2
  {
    var sel := Nearest(ms);
    var a, b := ms[sel.0].expiry, ms[sel.1].expiry;
    if a <= b then [a, b] else [b, a]
  }

  /** The selection holds the two nearest maturities' expiries, in
      ascending order when they differ. */
  lemma SelectedOrder(ms: seq<Maturity>)
    requires |ms| >= 2
    ensures var sel := Selected(ms);
      var a, b := ms[Nearest(ms).0].expiry, ms[Nearest(ms).1].expiry;
      && |sel| == 2 && sel[0] <= sel[1]
      && ((sel[0] == a && sel[1] == b) || (sel[0] == b && sel[1] == a))
  {
  }

  /** The term the loop appends for expiry `e`: none when the maturity is
      unusable. */
  function ExpiryTerm(dayRows: seq<Row>, e: Date, growth: real -> real): (ts: seq<Variance.Term>)
    requires PositiveCounts(dayRows)
    ensures |ts| <= 1
  {
    var g := ExpiryGroup(dayRows, e);
    assert PositiveCounts(g);
    match MaturityVariance(g, growth) case None => [] case Some(t) => [t]
  }

  /** The terms of the usable maturities among `es`, in order: what the
      loop over the selected expiries appends to `results`. */
  function UsableTerms(dayRows: seq<Row>, es: seq<Date>, growth: real -> real): (ts: seq<Variance.Term>)
    requires PositiveCounts(dayRows)
    ensures |ts| <= |es|
  {
    if es == [] then []
    else UsableTerms(dayRows, es[..|es| - 1], growth) + ExpiryTerm(dayRows, es[|es| - 1], growth)
  }

  lemma UsableTermsStep(dayRows: seq<Row>, es: seq<Date>, k: nat, growth: real -> real)
    requires PositiveCounts(dayRows) && k < |es|
    ensures UsableTerms(dayRows, es[..k + 1], growth)
      == UsableTerms(dayRows, es[..k], growth) + ExpiryTerm(dayRows, es[k], growth)
  {
    assert es[..k + 1][..k] == es[..k];
  }

  /** Total variance at the target horizon, interpolated linearly in time
      between the two maturities' total variances `T1 * s1` and `T2 * s2`. */
  function TotalVariance30(t1: real, s1: real, t2: real, s2: real): real
    requires t1 != t2
  {
    (t1 * s1 * (t2 - TargetT) + t2 * s2 * (TargetT - t1)) / (t2 - t1)
  }

  /** The two terms sorted by time (stably), then the index: undefined
      when either variance is missing or the two times coincide, a raised
      square root when the annualised variance is negative, and otherwise
      `CNVIX^2 = 100^2 * sigma2_30 * 252 / 30`. */
  function Interpolate(a: Variance.Term, b: Variance.Term): Outcome {
    var (near, far) := if b.t < a.t then (b, a) else (a, b);
    if near.variance.None? || far.variance.None? then Undefined
    else if near.t == far.t then Undefined
    else
      var annual := TotalVariance30(near.t, near.variance.value, far.t, far.variance.value)
        * TradingDaysPerYear / TargetTradingDays;
      if annual < 0.0 then SqrtRaised else Index(100.0 * 100.0 * annual)
  }

  /** The maturities are the day's distinct expiries, each once. */
  lemma MaturitiesDistinct(dayRows: seq<Row>)
    ensures Distinct(Maturities(dayRows))
  {
    var es := SortedUnique(RowExpiries(dayRows));
    var base := Maturities(dayRows);
    forall i, j | 0 <= i < j < |base| ensures base[i] != base[j] {
      assert base[i].expiry == es[i] && base[j].expiry == es[j];
    }
  }

  /** A maturity of the day is one of its expiries with that expiry's
      mean count. */
  lemma MaturityDaysMembers(dayRows: seq<Row>)
    ensures forall m :: m in MaturityDays(dayRows) <==>
      m.expiry in RowExpiries(dayRows) && m == MaturityOf(dayRows, m.expiry)
  {
    forall m ensures m in MaturityDays(dayRows) <==> m in Maturities(dayRows) {
      assert m in MaturityDays(dayRows) <==> m in multiset(MaturityDays(dayRows));
      assert m in Maturities(dayRows) <==> m in multiset(Maturities(dayRows));
    }
  }

  lemma MaturityDaysDistinct(dayRows: seq<Row>)
    ensures forall i, j :: 0 <= i < j < |MaturityDays(dayRows)| ==>
      MaturityDays(dayRows)[i].expiry != MaturityDays(dayRows)[j].expiry
  {
    MaturitiesDistinct(dayRows);
    DistinctPermutation(Maturities(dayRows), MaturityDays(dayRows));
    MaturityDaysMembers(dayRows);
    forall i, j | 0 <= i < j < |MaturityDays(dayRows)|
      ensures MaturityDays(dayRows)[i].expiry != MaturityDays(dayRows)[j].expiry
    {
      assert MaturityDays(dayRows)[i] in MaturityDays(dayRows);
      assert MaturityDays(dayRows)[j] in MaturityDays(dayRows);
    }
  }

  /** The day's maturities are its distinct expiries, each once, with
      each expiry's mean count, in ascending order of that count. */
  lemma MaturityDaysSpec(dayRows: seq<Row>)
    ensures var ms := MaturityDays(dayRows);
      && |ms| == |SortedUnique(RowExpiries(dayRows))|
      && SortedBy(ms, DaysOf)
      && (forall k :: 0 <= k < |ms| ==>
            ms[k] == MaturityOf(dayRows, ms[k].expiry) && ms[k].expiry in RowExpiries(dayRows))
      && (forall e :: e in RowExpiries(dayRows) ==> MaturityOf(dayRows, e) in ms)
      && (forall i, j :: 0 <= i < j < |ms| ==> ms[i].expiry != ms[j].expiry)
  {
    MaturityDaysMembers(dayRows);
    MaturityDaysDistinct(dayRows);
    forall k | 0 <= k < |MaturityDays(dayRows)|
      ensures MaturityDays(dayRows)[k] == MaturityOf(dayRows, MaturityDays(dayRows)[k].expiry)
      ensures MaturityDays(dayRows)[k].expiry in RowExpiries(dayRows)
    {
      assert MaturityDays(dayRows)[k] in MaturityDays(dayRows);
    }
  }

  /** The two selected expiries are two different expiries of the day, in
      ascending order, and no other expiry of the day has a mean count
      strictly nearer the target than either of them. */
  lemma SelectionSpec(dayRows: seq<Row>)
    requires |MaturityDays(dayRows)| >= 2
    ensures var sel := Selected(MaturityDays(dayRows));
      && |sel| == 2 && sel[0] < sel[1]
      && sel[0] in RowExpiries(dayRows) && sel[1] in RowExpiries(dayRows)
      && forall e :: e in RowExpiries(dayRows) && e != sel[0] && e != sel[1] ==>
           && Distance(MaturityOf(dayRows, sel[0])) <= Distance(MaturityOf(dayRows, e))
           && Distance(MaturityOf(dayRows, sel[1])) <= Distance(MaturityOf(dayRows, e))
  {
    SelectedOrder(MaturityDays(dayRows));
    NearestExpiries(dayRows, Nearest(MaturityDays(dayRows)).0, Nearest(MaturityDays(dayRows)).1);
    NearestDistances(dayRows, Nearest(MaturityDays(dayRows)).0, Nearest(MaturityDays(dayRows)).1);
  }

  /** The two nearest maturities are two different expiries of the day. */
  lemma NearestExpiries(dayRows: seq<Row>, i: nat, j: nat)
    requires |MaturityDays(dayRows)| >= 2 && (i, j) == Nearest(MaturityDays(dayRows))
    ensures MaturityDays(dayRows)[i].expiry != MaturityDays(dayRows)[j].expiry
    ensures MaturityDays(dayRows)[i] == MaturityOf(dayRows, MaturityDays(dayRows)[i].expiry)
    ensures MaturityDays(dayRows)[j] == MaturityOf(dayRows, MaturityDays(dayRows)[j].expiry)
    ensures MaturityDays(dayRows)[i].expiry in RowExpiries(dayRows)
    ensures MaturityDays(dayRows)[j].expiry in RowExpiries(dayRows)
  {
    MaturityDaysMembers(dayRows);
    MaturityDaysDistinct(dayRows);
    assert MaturityDays(dayRows)[i] in MaturityDays(dayRows);
    assert MaturityDays(dayRows)[j] in MaturityDays(dayRows);
  }

  /** No other expiry is strictly nearer the target than either of the
      two nearest maturities. */
  lemma NearestDistances(dayRows: seq<Row>, i: nat, j: nat)
    requires |MaturityDays(dayRows)| >= 2 && (i, j) == Nearest(MaturityDays(dayRows))
    ensures forall e :: (e in RowExpiries(dayRows)
        && e != MaturityDays(dayRows)[i].expiry && e != MaturityDays(dayRows)[j].expiry) ==>
      && Distance(MaturityDays(dayRows)[i]) <= Distance(MaturityOf(dayRows, e))
      && Distance(MaturityDays(dayRows)[j]) <= Distance(MaturityOf(dayRows, e))
  {
    MaturityDaysMembers(dayRows);
    forall e | e in RowExpiries(dayRows)
        && e != MaturityDays(dayRows)[i].expiry && e != MaturityDays(dayRows)[j].expiry
      ensures Distance(MaturityDays(dayRows)[i]) <= Distance(MaturityOf(dayRows, e))
      ensures Distance(MaturityDays(dayRows)[j]) <= Distance(MaturityOf(dayRows, e))
    {
      assert MaturityOf(dayRows, e) in MaturityDays(dayRows);
      var k :| 0 <= k < |MaturityDays(dayRows)| && MaturityDays(dayRows)[k] == MaturityOf(dayRows, e);
      assert k != i;
    }
  }

  /** `calc_cnvix_for_date`: its outcome for one day's rows. */
  function DayOutcome(dayRows: seq<Row>, growth: real -> real): Outcome
    requires PositiveCounts(dayRows)
  {
    var ms := MaturityDays(dayRows);
    if |ms| < 2 then Undefined
    else
      var results := UsableTerms(dayRows, Selected(ms), growth);
      if |results| < 2 then Undefined else Interpolate(results[0], results[1])
  }

  /** A defined day's squared index is never negative. */
  lemma DayOutcomeSquare(dayRows: seq<Row>, growth: real -> real)
    requires PositiveCounts(dayRows)
    ensures DayOutcome(dayRows, growth).Index? ==> DayOutcome(dayRows, growth).squared >= 0.0
  {
    var ms := MaturityDays(dayRows);
    if |ms| >= 2 {
      var results := UsableTerms(dayRows, Selected(ms), growth);
      if |results| >= 2 {
        InterpolateSpec(results[0], results[1]);
      }
    }
  }

  /** Linear interpolation of total variance: the interpolated total
      variance starts from `T1 * s1` and moves toward `T2 * s2` in
      proportion to how far the target lies from `T1`. */
  lemma InterpolatesTotalVariance(t1: real, s1: real, t2: real, s2: real)
    requires t1 < t2
    ensures TotalVariance30(t1, s1, t2, s2) == t1 * s1 + (t2 * s2 - t1 * s1) * (TargetT - t1) / (t2 - t1)
    ensures TargetT == t1 ==> TotalVariance30(t1, s1, t2, s2) == t1 * s1
    ensures TargetT == t2 ==> TotalVariance30(t1, s1, t2, s2) == t2 * s2
  {
    var d := t2 - t1;
    var num := t1 * s1 * (t2 - TargetT) + t2 * s2 * (TargetT - t1);
    assert num == t1 * s1 * d + (t2 * s2 - t1 * s1) * (TargetT - t1);
    assert num / d == t1 * s1 + (t2 * s2 - t1 * s1) * (TargetT - t1) / d;
  }

  /** A flat term structure: two maturities with the same variance `s`
      give `sigma2_30 = s * T_target`, hence `CNVIX^2 = 100^2 * s`, or a
      raised square root when `s` is negative. */
  lemma FlatTermStructure(a: Variance.Term, b: Variance.Term, s: real)
    requires a.t != b.t && a.variance == Some(s) && b.variance == Some(s)
    ensures TotalVariance30(a.t, s, b.t, s) == s * TargetT
    ensures Interpolate(a, b) == if s < 0.0 then SqrtRaised else Index(100.0 * 100.0 * s)
  {
    FlatInterpolation(a.t, b.t, s, TargetT);
    FlatInterpolation(b.t, a.t, s, TargetT);
    assert s * TargetT * TradingDaysPerYear / TargetTradingDays == s;
  }

  /** Interpolating a constant variance `s` linearly in total variance
      gives total variance `s * c` at any time `c`. */
  lemma FlatInterpolation(t1: real, t2: real, s: real, c: real)
    requires t1 != t2
    ensures (t1 * s * (t2 - c) + t2 * s * (c - t1)) / (t2 - t1) == s * c
  {
    assert t1 * s * (t2 - c) + t2 * s * (c - t1) == s * c * (t2 - t1);
  }

  /** When the nearer maturity sits exactly on the target horizon, the
      index is that maturity's own: `CNVIX^2 = 100^2 * s1`. */
  lemma NearTermOnTarget(a: Variance.Term, b: Variance.Term)
    requires a.t == TargetT < b.t && a.variance.Some? && b.variance.Some?
    ensures var s1 := a.variance.value;
      Interpolate(a, b) == if s1 < 0.0 then SqrtRaised else Index(100.0 * 100.0 * s1)
  {
    InterpolatesTotalVariance(a.t, a.variance.value, b.t, b.variance.value);
    assert a.t * a.variance.value * TradingDaysPerYear / TargetTradingDays == a.variance.value;
  }

  /** The index does not depend on the order in which the two terms were
      found, and it is defined exactly when both variances are present,
      the times differ and the interpolated variance is not negative; a
      defined square is never negative. */
  lemma InterpolateSpec(a: Variance.Term, b: Variance.Term)
    ensures a.t != b.t ==> Interpolate(a, b) == Interpolate(b, a)
    ensures Interpolate(a, b).Index? <==>
      && a.variance.Some? && b.variance.Some? && a.t != b.t
      && TotalVariance30(a.t, a.variance.value, b.t, b.variance.value) >= 0.0
    ensures Interpolate(a, b).Index? ==> Interpolate(a, b).squared >= 0.0
  {
    if a.variance.Some? && b.variance.Some? && a.t != b.t {
      var s1, s2 := a.variance.value, b.variance.value;
      var v := TotalVariance30(a.t, s1, b.t, s2);
      assert TotalVariance30(b.t, s2, a.t, s1) == v by {
        assert b.t * s2 * (a.t - TargetT) + a.t * s1 * (TargetT - b.t)
          == -(a.t * s1 * (b.t - TargetT) + b.t * s2 * (TargetT - a.t));
      }
      assert (v * TradingDaysPerYear / TargetTradingDays < 0.0) <==> v < 0.0;
    }
  }

  lemma UsableTermsPair(dayRows: seq<Row>, e0: Date, e1: Date, growth: real -> real)
    requires PositiveCounts(dayRows)
    ensures UsableTerms(dayRows, [e0, e1], growth)
      == ExpiryTerm(dayRows, e0, growth) + ExpiryTerm(dayRows, e1, growth)
  {
    assert [e0, e1][..1] == [e0];
    assert UsableTerms(dayRows, [e0], growth) == ExpiryTerm(dayRows, e0, growth) by {
      assert [e0][..0] == [];
    }
  }

  lemma OneExpiry(dayRows: seq<Row>, x: Date, y: Date)
    requires forall i, j :: 0 <= i < |dayRows| && 0 <= j < |dayRows| ==> dayRows[i].quote.expiry == dayRows[j].quote.expiry
    requires x in RowExpiries(dayRows) && y in RowExpiries(dayRows)
    ensures x == y
  {
    var es := RowExpiries(dayRows);
    var i :| 0 <= i < |es| && es[i] == x;
    var j :| 0 <= j < |es| && es[j] == y;
    assert dayRows[i].quote.expiry == dayRows[j].quote.expiry;
  }

  /** A day offering a single expiry has no index. */
  lemma SingleExpiryUndefined(dayRows: seq<Row>, growth: real -> real)
    requires PositiveCounts(dayRows)
    requires forall i, j :: 0 <= i < |dayRows| && 0 <= j < |dayRows| ==> dayRows[i].quote.expiry == dayRows[j].quote.expiry
    ensures DayOutcome(dayRows, growth) == Undefined
  {
    var es := SortedUnique(RowExpiries(dayRows));
    if |es| >= 2 {
      assert es[0] in RowExpiries(dayRows) && es[1] in RowExpiries(dayRows);
      OneExpiry(dayRows, es[0], es[1]);
      assert false;
    }
    assert |MaturityDays(dayRows)| < 2;
  }

  /** When a selected expiry has no strike with both a call and a put
      (in particular when it lacks calls or puts), the day has no index:
      no other expiry is tried in its place. */
  lemma UnusableSelectionUndefined(dayRows: seq<Row>, growth: real -> real, e: Date)
    requires PositiveCounts(dayRows)
    requires |MaturityDays(dayRows)| >= 2 && e in Selected(MaturityDays(dayRows))
    requires var g := ExpiryGroup(dayRows, e); Join(Legs(g, Call), Legs(g, Put)) == []
    ensures DayOutcome(dayRows, growth) == Undefined
  {
    SelectedOrder(MaturityDays(dayRows));
    var g := ExpiryGroup(dayRows, e);
    assert PositiveCounts(g);
    MaturityUsable(g, growth);
    assert ExpiryTerm(dayRows, e, growth) == [];
    FewTerms(dayRows, Selected(MaturityDays(dayRows)), e, growth);
  }

  /** Of two expiries one of which yields no term, fewer than two terms
      are collected. */
  lemma FewTerms(dayRows: seq<Row>, sel: seq<Date>, e: Date, growth: real -> real)
    requires PositiveCounts(dayRows) && |sel| == 2 && e in sel
    requires ExpiryTerm(dayRows, e, growth) == []
    ensures |UsableTerms(dayRows, sel, growth)| < 2
  {
    UsableTermsPair(dayRows, sel[0], sel[1], growth);
    assert sel == [sel[0], sel[1]];
  }

  /** What the interpolation yields as written, where a zero time
      difference is a floating-point division by zero: a finite outcome,
      or an infinite index, which the later `dropna` keeps. */
  datatype WrittenOutcome = Finite(outcome: Outcome) | Infinite

  /** The interpolation as written. With equal times the numerator is
      divided by `0.0`: a positive numerator gives `+inf` and an infinite
      index, a negative one `-inf` and a raised square root, and a zero
      one `NaN`. */
  function InterpolateAsWritten(a: Variance.Term, b: Variance.Term): (w: WrittenOutcome)
    ensures a.t != b.t ==> w == Finite(Interpolate(a, b))
  {
    var (near, far) := if b.t < a.t then (b, a) else (a, b);
    if near.variance.None? || far.variance.None? then Finite(Undefined)
    else if near.t != far.t then Finite(Interpolate(a, b))
    else
      var num := near.t * near.variance.value * (far.t - TargetT) + far.t * far.variance.value * (TargetT - near.t);
      if num > 0.0 then Infinite
      else if num < 0.0 then Finite(SqrtRaised)
      else Finite(Undefined)
  }

  /** Two different expiries can share a trading-day count: on the
      calendar `[1, 2, 5]` day 1 is at position 0 and the non-trading
      expiries 3 and 4 both resolve to position 2, so quotes of day 1 on
      them are both kept with count 2 and the same time `T = 2 / 252`. */
  lemma SharedExpiryIndex(q1: Quote, q2: Quote)
    requires q1.date == 1 && q1.expiry == 3 && q2.date == 1 && q2.expiry == 4
    ensures StrictlyIncreasing([1, 2, 5])
    ensures ExpiryIndex([1, 2, 5], 3) == Some(2) && ExpiryIndex([1, 2, 5], 4) == Some(2)
    ensures Prepare([1, 2, 5], q1).Some? && Prepare([1, 2, 5], q1).value.tdm == 2
    ensures Prepare([1, 2, 5], q2).Some? && Prepare([1, 2, 5], q2).value.tdm == 2
  {
    assert IndexOf([1, 2, 5], 1) == Some(0);
    assert IndexOf([1, 2, 5], 3) == None;
    assert IndexOf([1, 2, 5], 4) == None;
  }

  /** Two terms with that shared time two trading days out and variances
      0.01 and 0.04: as written the index is infinite, while the
      interpolation the model uses leaves the day undefined. */
  lemma EqualTimesAsWritten()
    ensures var a := Variance.Term(2.0 / 252.0, Some(0.01));
      var b := Variance.Term(2.0 / 252.0, Some(0.04));
      InterpolateAsWritten(a, b) == Infinite && Interpolate(a, b) == Undefined
  {
    var t := 2.0 / 252.0;
    assert t * 0.01 * (t - TargetT) + t * 0.04 * (TargetT - t) == t * (TargetT - t) * 0.03;
    assert t * (TargetT - t) * 0.03 > 0.0;
  }
}
