/** Option quotes and their preparation: every quote is placed on the
    trading-day calendar, quotes whose expiry cannot be resolved are
    dropped, and only quotes expiring a positive number of trading days
    after their quote date are kept. */
module Chain {
  import opened Wrappers
  import opened Calendar

  datatype Right = Call | Put

  /** Exercise prices are positive. */
  type Strike = k: real | k > 0.0 witness 1.0

  /** One observed option contract on one quote date, with the
      underlying's 30-day realized volatility recorded beside it (`None`
      where the data has no value). */
  datatype Quote = Quote(date: Date, expiry: Date, right: Right, strike: Strike, price: real, hisVol: Option<real>)

  /** A quote with its trading-day indices: `dateIdx` of its quote date,
      `expiryIdx` of its expiry and their difference `tdm`. */
  datatype Row = Row(quote: Quote, dateIdx: nat, expiryIdx: nat, tdm: int)

  function QuoteDates(qs: seq<Quote>): (ds: seq<Date>)
    ensures |ds| == |qs| && forall k :: 0 <= k < |qs| ==> ds[k] == qs[k].date
  {
    seq(|qs|, k requires 0 <= k < |qs| => qs[k].date)
  }

  /** The trading calendar of a data set: its distinct quote dates. */
  function TradingDays(qs: seq<Quote>): seq<Date> {
    SortedUnique(QuoteDates(qs))
  }

  /** The row a quote becomes, if it survives preparation. */
  function Prepare(days: seq<Date>, q: Quote): Option<Row>
    requires StrictlyIncreasing(days)
  {
    match IndexOf(days, q.date)
    case None => None
    case Some(di) =>
      match ExpiryIndex(days, q.expiry)
      case None => None
      case Some(ei) => if ei as int - di as int > 0 then Some(Row(q, di, ei, ei as int - di as int)) else None
  }

  /** The surviving rows, in input order. */
  function Prepared(days: seq<Date>, qs: seq<Quote>): seq<Row>
    requires StrictlyIncreasing(days)
  {
    if qs == [] then []
    else
      Prepared(days, qs[..|qs| - 1])
        + match Prepare(days, qs[|qs| - 1]) case None => [] case Some(r) => [r]
  }

  /** What a prepared row records: the calendar position of its quote
      date, the resolved index of its expiry and a positive difference. */
  ghost predicate WellFormed(days: seq<Date>, r: Row)
    requires StrictlyIncreasing(days)
  {
    && r.dateIdx < |days| && days[r.dateIdx] == r.quote.date
    && ExpiryIndex(days, r.quote.expiry) == Some(r.expiryIdx)
    && r.tdm == r.expiryIdx - r.dateIdx
    && r.tdm > 0
  }

  /** Whether a quote expires after its quote date on the calendar. */
  ghost predicate Kept(days: seq<Date>, q: Quote)
    requires StrictlyIncreasing(days)
  {
    && q.date in days
    && ExpiryIndex(days, q.expiry).Some?
    && ExpiryIndex(days, q.expiry).value > IndexOf(days, q.date).value
  }

  /** Rows with the same quote date and expiry have the same trading-day
      count, and a later expiry never has a smaller one. */
  ghost predicate Consistent(rows: seq<Row>) {
    forall i, j :: 0 <= i < |rows| && 0 <= j < |rows| &&
      rows[i].quote.date == rows[j].quote.date && rows[i].quote.expiry <= rows[j].quote.expiry
      ==> rows[i].tdm <= rows[j].tdm
  }

  /** Steps of the preparation as the data frame is transformed: the date
      index column and the expiry index column by exact lookup, the in-place
      patch of unresolved expiries by insertion point (positions past the
      end left unresolved), and the filter on a resolved, positive count. */
  method Preprocess(quotes: seq<Quote>) returns (days: seq<Date>, rows: seq<Row>)
    ensures days == TradingDays(quotes)
    ensures rows == Prepared(days, quotes)
  {
    days := TradingDays(quotes);
    var n := |quotes|;
    forall k | 0 <= k < n ensures IndexOf(days, quotes[k].date).Some? {
      OnOwnCalendar(quotes, k);
    }
    var dayIdx := new nat[n](k requires 0 <= k < n => IndexOf(days, quotes[k].date).value);
    var expiryIdx := new Option<nat>[n](k requires 0 <= k < n => IndexOf(days, quotes[k].expiry));
    PatchMissingExpiries(days, quotes, expiryIdx);
    rows := KeepResolved(days, quotes, dayIdx[..], expiryIdx[..]);
  }


  /** Overwrites, in place, each unresolved expiry index with the
      insertion point of the expiry, or leaves it unresolved when that
      point lies past the last trading day. */
  method PatchMissingExpiries(days: seq<Date>, quotes: seq<Quote>, expiryIdx: array<Option<nat>>)
    requires StrictlyIncreasing(days)
    requires expiryIdx.Length == |quotes|
    requires forall j :: 0 <= j < |quotes| ==> expiryIdx[j] == IndexOf(days, quotes[j].expiry)
    modifies expiryIdx
    ensures forall j :: 0 <= j < |quotes| ==> expiryIdx[j] == ExpiryIndex(days, quotes[j].expiry)
  {
    for k := 0 to |quotes|
      invariant forall j :: 0 <= j < k ==> expiryIdx[j] == ExpiryIndex(days, quotes[j].expiry)
      invariant forall j :: k <= j < |quotes| ==> expiryIdx[j] == IndexOf(days, quotes[j].expiry)
    {
      if expiryIdx[k].None? {
        var p := SearchSorted(days, quotes[k].expiry);
        expiryIdx[k] := if p >= |days| then None else Some(p);
      }
    }
  }

  /** `dropna` on the expiry index, then `tdm_trading > 0`. */
  method KeepResolved(days: seq<Date>, quotes: seq<Quote>, dateCol: seq<nat>, expiryCol: seq<Option<nat>>)
    returns (rows: seq<Row>)
    requires StrictlyIncreasing(days)
    requires |dateCol| == |quotes| == |expiryCol|
    requires forall j :: 0 <= j < |quotes| ==> IndexOf(days, quotes[j].date) == Some(dateCol[j])
    requires forall j :: 0 <= j < |quotes| ==> expiryCol[j] == ExpiryIndex(days, quotes[j].expiry)
    ensures rows == Prepared(days, quotes)
  {
    rows := [];
    for k := 0 to |quotes|
      invariant rows == Prepared(days, quotes[..k])
    {
      PreparedStep(days, quotes, k);
      var di, ei := dateCol[k], expiryCol[k];
      PrepareResolved(days, quotes[k], di, ei);
      if ei.Some? && ei.value as int - di as int > 0 {
        rows := rows + [Row(quotes[k], di, ei.value, ei.value as int - di as int)];
      }
    }
    assert quotes[..|quotes|] == quotes;
  }

  /** Every quote date is a trading day of the data set's own calendar. */
  lemma OnOwnCalendar(qs: seq<Quote>, k: nat)
    requires k < |qs|
    ensures IndexOf(TradingDays(qs), qs[k].date).Some?
  {
    assert QuoteDates(qs)[k] == qs[k].date;
    assert qs[k].date in QuoteDates(qs);
  }

  /** With both indices known, a quote is kept exactly when its expiry
      index is resolved and lies after its date index. */
  lemma PrepareResolved(days: seq<Date>, q: Quote, di: nat, ei: Option<nat>)
    requires StrictlyIncreasing(days)
    requires IndexOf(days, q.date) == Some(di) && ei == ExpiryIndex(days, q.expiry)
    ensures Prepare(days, q) ==
      if ei.Some? && ei.value as int - di as int > 0 then Some(Row(q, di, ei.value, ei.value as int - di as int)) else None
  {
  }

  lemma PreparedStep(days: seq<Date>, qs: seq<Quote>, k: nat)
    requires StrictlyIncreasing(days) && k < |qs|
    ensures Prepared(days, qs[..k + 1]) ==
      Prepared(days, qs[..k]) + match Prepare(days, qs[k]) case None => [] case Some(r) => [r]
  {
    assert qs[..k + 1][..k] == qs[..k];
  }

  /** The prepared rows are exactly the kept quotes, each well formed. */
  lemma {:induction false} PreparedSpec(days: seq<Date>, qs: seq<Quote>)
    requires StrictlyIncreasing(days)
    ensures forall r :: r in Prepared(days, qs) ==> r.quote in qs && Kept(days, r.quote) && WellFormed(days, r)
    ensures forall q :: q in qs && Kept(days, q) ==>
      exists r :: r in Prepared(days, qs) && r.quote == q
  {
    if qs != [] {
      var p := qs[..|qs| - 1];
      var q := qs[|qs| - 1];
      PreparedSpec(days, p);
      assert qs == p + [q];
      var rows := Prepared(days, qs);
      assert Prepared(days, p) <= rows;
      if Kept(days, q) {
        var r := Prepare(days, q).value;
        assert r in rows && r.quote == q;
      }
      match IndexOf(days, q.date)
      case None =>
      case Some(di) =>
        IndexOfPosition(days, di);
    }
  }

  /** The calendar is strictly increasing, holds exactly the observed
      quote dates, and maps each of its days to its own position. */
  lemma TradingCalendarSpec(qs: seq<Quote>)
    ensures StrictlyIncreasing(TradingDays(qs))
    ensures forall k :: 0 <= k < |qs| ==> qs[k].date in TradingDays(qs)
    ensures forall d :: d in TradingDays(qs) ==> exists k :: 0 <= k < |qs| && qs[k].date == d
    ensures forall i :: 0 <= i < |TradingDays(qs)| ==> IndexOf(TradingDays(qs), TradingDays(qs)[i]) == Some(i)
  {
    var days := TradingDays(qs);
    forall k | 0 <= k < |qs| ensures qs[k].date in days {
      OnOwnCalendar(qs, k);
    }
    forall d | d in days ensures exists k :: 0 <= k < |qs| && qs[k].date == d {
      assert d in QuoteDates(qs);
      var k :| 0 <= k < |qs| && QuoteDates(qs)[k] == d;
    }
    forall i | 0 <= i < |days| ensures IndexOf(days, days[i]) == Some(i) {
      IndexOfPosition(days, i);
    }
  }

  /** The trading-day count depends only on the quote date and the
      expiry, and grows with the expiry. */
  lemma PreparedConsistent(days: seq<Date>, qs: seq<Quote>)
    requires StrictlyIncreasing(days)
    ensures Consistent(Prepared(days, qs))
  {
    var rows := Prepared(days, qs);
    PreparedSpec(days, qs);
    forall i, j | 0 <= i < |rows| && 0 <= j < |rows| &&
      rows[i].quote.date == rows[j].quote.date && rows[i].quote.expiry <= rows[j].quote.expiry
      ensures rows[i].tdm <= rows[j].tdm
    {
      assert rows[i] in rows && rows[j] in rows;
      IndexOfPosition(days, rows[i].dateIdx);
      IndexOfPosition(days, rows[j].dateIdx);
      ExpiryIndexMonotone(days, rows[i].quote.expiry, rows[j].quote.expiry);
    }
  }
}
