/** The trading-day calendar: the distinct observed quote dates in
    ascending order, each identified by its zero-based position, and the
    lookup that places an option's expiry on it. */
module Calendar {
  import opened Wrappers

  /** A calendar day, as a day number: later days have larger numbers. */
  type Date = int

  ghost predicate StrictlyIncreasing(s: seq<Date>) {
    forall i, j :: 0 <= i < j < |s| ==> s[i] < s[j]
  }

  /** Adds one date to an ascending, repetition-free sequence. */
  function Insert(s: seq<Date>, d: Date): (r: seq<Date>)
    requires StrictlyIncreasing(s)
    ensures StrictlyIncreasing(r)
    ensures forall x :: x in r <==> x in s || x == d
  {
    if s == [] then [d]
    else if d < s[0] then [d] + s
    else if d == s[0] then s
    else
      assert s == [s[0]] + s[1..];
      var rest := Insert(s[1..], d);
      assert forall j :: 0 <= j < |rest| ==> s[0] < rest[j] by {
        forall j | 0 <= j < |rest| ensures s[0] < rest[j] {
          assert rest[j] in rest;
        }
      }
      [s[0]] + rest
  }

  /** `np.sort(dates.unique())`: the distinct dates in ascending order. */
  function SortedUnique(dates: seq<Date>): (days: seq<Date>)
    ensures StrictlyIncreasing(days)
    ensures forall x :: x in days <==> x in dates
  {
    if dates == [] then []
    else
      assert dates == dates[..|dates| - 1] + [dates[|dates| - 1]];
      Insert(SortedUnique(dates[..|dates| - 1]), dates[|dates| - 1])
  }

  /** The `{day: idx for idx, day in enumerate(trading_days)}` lookup:
      the position of `d`, if it is a trading day. */
  function IndexOf(days: seq<Date>, d: Date): (r: Option<nat>)
    ensures r.Some? <==> d in days
    ensures r.Some? ==> r.value < |days| && days[r.value] == d
  {
    if days == [] then None
    else if days[0] == d then Some(0)
    else
      match IndexOf(days[1..], d)
      case None => None
      case Some(i) => Some(i + 1)
  }

  /** `np.searchsorted(days, x)` (side "left"): the number of trading days
      strictly before `x`, which is where `x` would be inserted. */
  function SearchSorted(days: seq<Date>, x: Date): (p: nat)
    requires StrictlyIncreasing(days)
    ensures p <= |days|
    ensures forall i :: 0 <= i < p ==> days[i] < x
    ensures forall i :: p <= i < |days| ==> x <= days[i]
  {
    if days == [] || x <= days[0] then 0
    else 1 + SearchSorted(days[1..], x)
  }

  /** The trading-day index of an option's expiry: its own position when
      it is a trading day, the insertion point otherwise, and nothing when
      the insertion point lies past the last trading day. */
  function ExpiryIndex(days: seq<Date>, e: Date): (r: Option<nat>)
    requires StrictlyIncreasing(days)
  {
    match IndexOf(days, e)
    case Some(i) => Some(i)
    case None =>
      var p := SearchSorted(days, e);
      if p >= |days| then None else Some(p)
  }

  /** Every trading day maps to its own position in the calendar. */
  lemma {:induction false} IndexOfPosition(days: seq<Date>, i: nat)
    requires StrictlyIncreasing(days) && i < |days|
    ensures IndexOf(days, days[i]) == Some(i)
  {
    if i > 0 {
      IndexOfPosition(days[1..], i - 1);
      assert days[1..][i - 1] == days[i];
    }
  }

  /** An expiry is resolved exactly when it does not lie after the last
      trading day; it resolves to the first trading day on or after it,
      which is the trading day itself when it is one and the first
      trading day strictly after it when it is not. */
  lemma ExpiryIndexSpec(days: seq<Date>, e: Date)
    requires StrictlyIncreasing(days)
    ensures ExpiryIndex(days, e).Some? <==> |days| > 0 && e <= days[|days| - 1]
    ensures ExpiryIndex(days, e).Some? ==>
      var i := ExpiryIndex(days, e).value;
      && i < |days| && e <= days[i]
      && (forall j :: 0 <= j < i ==> days[j] < e)
      && (e in days ==> days[i] == e)
      && (e !in days ==> e < days[i])
  {
    var p := SearchSorted(days, e);
    match IndexOf(days, e)
    case Some(i) =>
      IndexOfPosition(days, i);
    case None =>
  }

  /** A later expiry never resolves to an earlier trading day. */
  lemma ExpiryIndexMonotone(days: seq<Date>, e1: Date, e2: Date)
    requires StrictlyIncreasing(days)
    requires e1 <= e2 && ExpiryIndex(days, e2).Some?
    ensures ExpiryIndex(days, e1).Some?
    ensures ExpiryIndex(days, e1).value <= ExpiryIndex(days, e2).value
  {
    ExpiryIndexSpec(days, e1);
    ExpiryIndexSpec(days, e2);
  }
}
