/** The model-free implied variance of one maturity on one quote date:
    calls and puts joined on strike, the forward price from put-call
    parity at the joined strike with the smallest call-put gap, the
    at-the-money strike K0, the out-of-the-money prices Q(K), the strike
    widths dK and the discretised variance-swap integral. */
module Variance {
  import opened Wrappers
  import opened Sorting
  import opened Chain

  const TradingDaysPerYear: real := 252.0

  /** One quoted leg: a strike and the price of the option at it. */
  datatype Leg = Leg(strike: Strike, price: real)

  /** A strike quoted on both sides, with its call and put prices. */
  datatype Pair = Pair(strike: Strike, call: real, put: real)

  /** An annualised time to maturity and the variance computed for it;
      no variance is NaN in the source (no joined strike lies at or below
      the forward price). */
  datatype Term = Term(t: real, variance: Option<real>)

  /** The legs of one option type, in row order. */
  function Legs(sub: seq<Row>, right: Right): seq<Leg> {
    if sub == [] then []
    else
      var q := sub[0].quote;
      (if q.right == right then [Leg(q.strike, q.price)] else []) + Legs(sub[1..], right)
  }

  /** A leg is listed exactly when a row of that right quotes it, and
      there are none exactly when no row has that right. */
  lemma {:induction false} LegsMembers(sub: seq<Row>, right: Right)
    ensures forall l :: l in Legs(sub, right) <==>
      exists i :: 0 <= i < |sub| && sub[i].quote.right == right && l == Leg(sub[i].quote.strike, sub[i].quote.price)
    ensures Legs(sub, right) == [] <==> forall i :: 0 <= i < |sub| ==> sub[i].quote.right != right
  {
    if sub != [] {
      LegsMembers(sub[1..], right);
      assert forall i :: 1 <= i < |sub| ==> sub[i] == sub[1..][i - 1];
    }
  }

  /** The puts matching one call's strike, paired with it, in put order. */
  function Matches(c: Leg, puts: seq<Leg>): (m: seq<Pair>)
    ensures forall x :: x in m <==> x.strike == c.strike && x.call == c.price && Leg(c.strike, x.put) in puts
  {
    if puts == [] then []
    else
      var rest := Matches(c, puts[1..]);
      assert puts == [puts[0]] + puts[1..];
      if puts[0].strike == c.strike then [Pair(c.strike, c.price, puts[0].price)] + rest else rest
  }

  /** The inner join on strike: every call paired with every put at its
      strike, calls in order and, for each call, its puts in order. */
  function Join(calls: seq<Leg>, puts: seq<Leg>): (m: seq<Pair>)
    ensures forall x :: x in m <==> Leg(x.strike, x.call) in calls && Leg(x.strike, x.put) in puts
  {
    if calls == [] then []
    else
      assert calls == [calls[0]] + calls[1..];
      Matches(calls[0], puts) + Join(calls[1..], puts)
  }

  /** Selecting the legs is an order-keeping filter over the rows, row
      by row: the legs of two consecutive runs of rows are those of the
      first run followed by those of the second, and a single row gives
      its own leg when it has that right and none otherwise. */
  lemma {:induction false} LegsFilter(a: seq<Row>, b: seq<Row>, right: Right)
    ensures Legs(a + b, right) == Legs(a, right) + Legs(b, right)
    ensures |a| == 1 ==>
      Legs(a, right) == (if a[0].quote.right == right then [Leg(a[0].quote.strike, a[0].quote.price)] else [])
  {
    if a == [] {
      assert a + b == b;
    } else {
      var q := a[0].quote;
      var h := if q.right == right then [Leg(q.strike, q.price)] else [];
      assert (a + b)[0] == a[0];
      assert (a + b)[1..] == a[1..] + b;
      assert Legs(a + b, right) == h + Legs(a[1..] + b, right);
      LegsFilter(a[1..], b, right);
      Associative(h, Legs(a[1..], right), Legs(b, right));
      if |a| == 1 {
        assert a[1..] == [];
      }
    }
  }

  /** A call at strike K is paired once with each put at K: a pair with
      the call's strike and price occurs as often as its put leg does. */
  lemma {:induction false} MatchesCount(c: Leg, puts: seq<Leg>, x: Pair)
    ensures multiset(Matches(c, puts))[x] ==
      if x.strike == c.strike && x.call == c.price then multiset(puts)[Leg(x.strike, x.put)] else 0
  {
    if puts != [] {
      MatchesCount(c, puts[1..], x);
      assert puts == [puts[0]] + puts[1..];
      assert multiset(puts)[Leg(x.strike, x.put)]
        == multiset([puts[0]])[Leg(x.strike, x.put)] + multiset(puts[1..])[Leg(x.strike, x.put)];
    }
  }

  /** The inner join keeps every call-put pairing of a strike: a joined
      row occurs as many times as its call leg times its put leg. */
  lemma {:induction false} JoinCount(calls: seq<Leg>, puts: seq<Leg>, x: Pair)
    ensures multiset(Join(calls, puts))[x]
      == multiset(calls)[Leg(x.strike, x.call)] * multiset(puts)[Leg(x.strike, x.put)]
  {
    if calls != [] {
      JoinCount(calls[1..], puts, x);
      MatchesCount(calls[0], puts, x);
      HeadCount(calls, Leg(x.strike, x.call));
      ConcatCount(Matches(calls[0], puts), Join(calls[1..], puts), x);
      Distribute(if calls[0] == Leg(x.strike, x.call) then 1 else 0,
        multiset(calls[1..])[Leg(x.strike, x.call)], multiset(puts)[Leg(x.strike, x.put)]);
    }
  }

  lemma Distribute(h: int, r: int, n: int)
    ensures (h + r) * n == h * n + r * n
  {
  }

  /** The joined rows come calls-major: joining two runs of calls gives
      the first run's pairs followed by the second's. */
  lemma {:induction false} JoinAppend(c1: seq<Leg>, c2: seq<Leg>, puts: seq<Leg>)
    ensures Join(c1 + c2, puts) == Join(c1, puts) + Join(c2, puts)
  {
    if c1 == [] {
      assert c1 + c2 == c2;
    } else {
      assert (c1 + c2)[0] == c1[0];
      assert (c1 + c2)[1..] == c1[1..] + c2;
      JoinAppend(c1[1..], c2, puts);
      Associative(Matches(c1[0], puts), Join(c1[1..], puts), Join(c2, puts));
    }
  }

  function Gap(p: Pair): real {
    if p.call >= p.put then p.call - p.put else p.put - p.call
  }

  /** Row `i` is a first joined row of smallest call-put gap and `f` is
      the put-call parity forward `K + g * (C - P)` read off it. */
  predicate ForwardAt(m: seq<Pair>, g: real, i: int, f: real) {
    && 0 <= i < |m|
    && f == m[i].strike + g * (m[i].call - m[i].put)
    && (forall j :: 0 <= j < |m| ==> Gap(m[i]) <= Gap(m[j]))
    && (forall j :: 0 <= j < i ==> Gap(m[j]) > Gap(m[i]))
  }

  /** The forward price by put-call parity, `K + g * (C - P)`, at the
      first joined row whose call-put gap is smallest. */
  function Forward(m: seq<Pair>, g: real): (f: real)
    requires |m| > 0
    ensures exists i :: ForwardAt(m, g, i, f)
  {
    var i := FirstMinBy(m, Gap);
    assert ForwardAt(m, g, i, m[i].strike + g * (m[i].call - m[i].put));
    m[i].strike + g * (m[i].call - m[i].put)
  }

  /** K0: the largest joined strike not above the forward price, or none
      when every joined strike lies above it. */
  function AtMoneyStrike(m: seq<Pair>, f: real): (k0: Option<Strike>)
    ensures k0.None? <==> forall i :: 0 <= i < |m| ==> m[i].strike > f
    ensures k0.Some? ==> k0.value <= f && exists i :: 0 <= i < |m| && m[i].strike == k0.value
    ensures k0.Some? ==> forall i :: 0 <= i < |m| && m[i].strike <= f ==> m[i].strike <= k0.value
  {
    if m == [] then None
    else
      var last := m[|m| - 1];
      var best := AtMoneyStrike(m[..|m| - 1], f);
      assert forall i :: 0 <= i < |m| - 1 ==> m[i] == m[..|m| - 1][i];
      if last.strike > f then best
      else if best.Some? && best.value >= last.strike then best
      else Some(last.strike)
  }

  /** Q(K): the put price below K0, the call price above it, and the
      average of the two at K0. */
  function OutOfMoney(p: Pair, k0: real): real {
    if p.strike < k0 then p.put
    else if p.strike > k0 then p.call
    else 0.5 * (p.call + p.put)
  }

  function Strikes(s: seq<Pair>): (ks: seq<real>)
    ensures |ks| == |s| && forall i :: 0 <= i < |s| ==> ks[i] == s[i].strike
  {
    seq(|s|, i requires 0 <= i < |s| => s[i].strike as real)
  }

  function StrikeOf(p: Pair): real {
    p.strike
  }

  /** `diff()`: no value first, then each strike minus the one before. */
  function Diff(ks: seq<real>): (d: seq<Option<real>>)
    ensures |d| == |ks|
  {
    seq(|ks|, i requires 0 <= i < |ks| => if i == 0 then None else Some(ks[i] - ks[i - 1]))
  }

  /** `bfill()`: every missing value takes the next present one after
      it; one with nothing present after it stays missing. */
  function BackFill(w: seq<Option<real>>): (r: seq<Option<real>>)
    ensures |r| == |w|
  {
    if w == [] then []
    else
      var rest := BackFill(w[1..]);
      [if w[0].None? && rest != [] then rest[0] else w[0]] + rest
  }

  /** The integrand `dK / K^2 * Q` per sorted row; missing where dK is. */
  function Contributions(s: seq<Pair>, k0: real): (ts: seq<Option<real>>)
    ensures |ts| == |s|
  {
    var widths := BackFill(Diff(Strikes(s)));
    seq(|s|, i requires 0 <= i < |s| => Contribution(widths[i], s[i], k0))
  }

  function Contribution(width: Option<real>, p: Pair, k0: real): Option<real> {
    match width
    case None => None
    case Some(dk) => Some(Integrand(dk, p, k0))
  }

  /** `dK / K^2 * Q(K)` for one row. */
  function Integrand(dk: real, p: Pair, k0: real): real {
    dk / (p.strike * p.strike) * OutOfMoney(p, k0)
  }

  /** `np.sum` of a pandas column, which skips missing values: the sum of
      the present values, 0 when there are none. */
  function SkipNaNSum(ts: seq<Option<real>>): real {
    if ts == [] then 0.0
    else
      SkipNaNSum(ts[..|ts| - 1]) + match ts[|ts| - 1] case None => 0.0 case Some(v) => v
  }

  /** sigma^2 with the sum of `dK / K^2 * Q` taken as pandas takes it,
      over the joined rows sorted by strike. */
  function ImpliedVariance(t: real, g: real, f: real, k0: Strike, m: seq<Pair>): real
    requires t > 0.0
  {
    var sorted := SortBy(m, StrikeOf);
    VarianceFormula(t, g, SkipNaNSum(Contributions(sorted, k0)), f, k0)
  }

  /** `(2 g / T) * integral - (1 / T) * (F / K0 - 1)^2`. */
  function VarianceFormula(t: real, g: real, integral: real, f: real, k0: Strike): real
    requires t > 0.0
  {
    (2.0 * g / t) * integral - (1.0 / t) * ((f / k0 - 1.0) * (f / k0 - 1.0))
  }

  ghost predicate PositiveCounts(rows: seq<Row>) {
    forall i :: 0 <= i < |rows| ==> rows[i].tdm > 0
  }

  /** One maturity's `(T, sigma^2)`, or nothing when it is unusable (no
      call or no put, or no strike quoted on both sides). `growth(T)`
      stands for `e^{rT}`. */
  function MaturityVariance(sub: seq<Row>, growth: real -> real): Option<Term>
    requires PositiveCounts(sub)
  {
    var calls := Legs(sub, Call);
    var puts := Legs(sub, Put);
    if calls == [] || puts == [] then None
    else
      var m := Join(calls, puts);
      if m == [] then None else Some(JoinedTerm(sub, m, growth))
  }

  /** `(T, sigma^2)` of a maturity whose joined rows are `m`, with `T` the
      first row's trading-day count over 252. */
  function JoinedTerm(sub: seq<Row>, m: seq<Pair>, growth: real -> real): Term
    requires PositiveCounts(sub) && |sub| > 0 && |m| > 0
  {
    var t := sub[0].tdm as real / TradingDaysPerYear;
    var g := growth(t);
    var f := Forward(m, g);
    match AtMoneyStrike(m, f)
    case None => Term(t, None)
    case Some(k0) => Term(t, Some(ImpliedVariance(t, g, f, k0, m)))
  }

  /** Q at the at-the-money strike K0 is the call-put average: K0 is one
      of the joined strikes, rows below it are priced by their puts and
      rows above it by their calls. */
  lemma AtMoneyPrices(m: seq<Pair>, f: real)
    requires AtMoneyStrike(m, f).Some?
    ensures var k0 := AtMoneyStrike(m, f).value;
      && (exists i :: 0 <= i < |m| && m[i].strike == k0 && OutOfMoney(m[i], k0) == (m[i].call + m[i].put) / 2.0)
      && (forall i :: 0 <= i < |m| && m[i].strike < k0 ==> OutOfMoney(m[i], k0) == m[i].put)
      && (forall i :: 0 <= i < |m| && m[i].strike > k0 ==> OutOfMoney(m[i], k0) == m[i].call)
  {
    var k0 := AtMoneyStrike(m, f).value;
    var i :| 0 <= i < |m| && m[i].strike == k0;
    assert OutOfMoney(m[i], k0) == (m[i].call + m[i].put) / 2.0;
  }

  /** The width of the i-th sorted strike: the gap to the strike before
      it, and for the lowest strike the gap to the next one. */
  function Width(s: seq<Pair>, i: nat): real
    requires 2 <= |s| && i < |s|
  {
    if i == 0 then s[1].strike - s[0].strike else s[i].strike - s[i - 1].strike
  }

  /** The first `n` terms of the replication sum, with explicit widths. */
  function ReferenceSum(s: seq<Pair>, k0: real, n: nat): real
    requires 2 <= |s| && n <= |s|
  {
    if n == 0 then 0.0
    else ReferenceSum(s, k0, n - 1) + Integrand(Width(s, n - 1), s[n - 1], k0)
  }

  lemma {:induction false} BackFillPresent(w: seq<Option<real>>)
    requires forall i :: 0 <= i < |w| ==> w[i].Some?
    ensures BackFill(w) == w
  {
    if w != [] {
      BackFillPresent(w[1..]);
    }
  }

  /** After an ascending sort, `diff().bfill()` gives every strike its
      width, the lowest one the width of the next, and all widths are
      non-negative; a lone strike has no width at all. */
  lemma StrikeWidths(s: seq<Pair>)
    requires SortedBy(s, StrikeOf)
    ensures |s| == 1 ==> BackFill(Diff(Strikes(s))) == [None]
    ensures |s| >= 2 ==> forall i :: 0 <= i < |s| ==>
      BackFill(Diff(Strikes(s)))[i] == Some(Width(s, i)) && Width(s, i) >= 0.0
  {
    var d := Diff(Strikes(s));
    if |s| >= 2 {
      BackFillPresent(d[1..]);
      assert d == [d[0]] + d[1..];
      forall i | 0 <= i < |s| ensures Width(s, i) >= 0.0 {
        if i == 0 {
          assert StrikeOf(s[0]) <= StrikeOf(s[1]);
        } else {
          assert StrikeOf(s[i - 1]) <= StrikeOf(s[i]);
        }
      }
    }
  }

  lemma SkipNaNSumStep(ts: seq<Option<real>>, n: nat)
    requires 0 < n <= |ts|
    ensures SkipNaNSum(ts[..n]) == SkipNaNSum(ts[..n - 1]) + match ts[n - 1] case None => 0.0 case Some(v) => v
  {
    assert ts[..n][..n - 1] == ts[..n - 1];
    assert ts[..n][n - 1] == ts[n - 1];
  }

  lemma {:induction false} SkipNaNSumPrefix(s: seq<Pair>, k0: real, n: nat)
    requires 2 <= |s| && n <= |s|
    requires forall i :: 0 <= i < |s| ==> BackFill(Diff(Strikes(s)))[i] == Some(Width(s, i))
    ensures SkipNaNSum(Contributions(s, k0)[..n]) == ReferenceSum(s, k0, n)
  {
    if n > 0 {
      SkipNaNSumPrefix(s, k0, n - 1);
      assert Contributions(s, k0)[n - 1] == Some(Integrand(Width(s, n - 1), s[n - 1], k0));
      SkipNaNSumStep(Contributions(s, k0), n);
    }
  }

  /** The pandas form of the sum (`diff`, `bfill`, NaN-skipping `np.sum`)
      equals the sum with explicit widths; with one joined strike its only
      width is missing and the sum is 0. */
  lemma ReplicationSumSpec(s: seq<Pair>, k0: real)
    requires SortedBy(s, StrikeOf) && |s| >= 1
    ensures |s| == 1 ==> SkipNaNSum(Contributions(s, k0)) == 0.0
    ensures |s| >= 2 ==> SkipNaNSum(Contributions(s, k0)) == ReferenceSum(s, k0, |s|)
  {
    StrikeWidths(s);
    var ts := Contributions(s, k0);
    if |s| >= 2 {
      SkipNaNSumPrefix(s, k0, |s|);
      assert ts[..|s|] == ts;
    } else {
      assert ts[..0] == [];
    }
  }

  lemma JoinEmpty(calls: seq<Leg>, puts: seq<Leg>)
    requires calls == [] || puts == []
    ensures Join(calls, puts) == []
  {
    var m := Join(calls, puts);
    assert forall x :: x !in m;
  }

  /** A maturity is unusable exactly when no strike is quoted on both
      sides, which covers a maturity lacking calls or lacking puts; a
      usable one yields the term of its joined rows. */
  lemma MaturityUsable(sub: seq<Row>, growth: real -> real)
    requires PositiveCounts(sub)
    ensures var m := Join(Legs(sub, Call), Legs(sub, Put));
      && (MaturityVariance(sub, growth).None? <==> m == [])
      && (m != [] ==> |sub| > 0 && MaturityVariance(sub, growth) == Some(JoinedTerm(sub, m, growth)))
  {
    var calls, puts := Legs(sub, Call), Legs(sub, Put);
    if calls == [] || puts == [] {
      JoinEmpty(calls, puts);
    }
  }

  /** A joined maturity's time is its trading-day count over 252, its
      variance is missing exactly when K0 is, and its variance is
      `2 g / T` times the replication integral over the joined strikes in
      ascending order (0 for a lone strike), minus `(F / K0 - 1)^2 / T`. */
  lemma JoinedTermSpec(sub: seq<Row>, m: seq<Pair>, growth: real -> real)
    requires PositiveCounts(sub) && |sub| > 0 && |m| > 0
    ensures var r := JoinedTerm(sub, m, growth);
      var g := growth(r.t);
      var f := Forward(m, g);
      && r.t == sub[0].tdm as real / TradingDaysPerYear && r.t > 0.0
      && (r.variance.None? <==> AtMoneyStrike(m, f).None?)
      && (r.variance.Some? ==>
            var k0 := AtMoneyStrike(m, f).value;
            var s := SortBy(m, StrikeOf);
            var integral := if |s| == 1 then 0.0 else ReferenceSum(s, k0, |s|);
            r.variance.value == VarianceFormula(r.t, g, integral, f, k0))
  {
    var t := sub[0].tdm as real / TradingDaysPerYear;
    JoinedTermParts(sub, m, growth, t);
    if AtMoneyStrike(m, Forward(m, growth(t))).Some? {
      ImpliedVarianceSpec(t, growth(t), Forward(m, growth(t)), AtMoneyStrike(m, Forward(m, growth(t))).value, m);
    }
  }

  lemma JoinedTermParts(sub: seq<Row>, m: seq<Pair>, growth: real -> real, t: real)
    requires PositiveCounts(sub) && |sub| > 0 && |m| > 0
    requires t == sub[0].tdm as real / TradingDaysPerYear
    ensures t > 0.0 && JoinedTerm(sub, m, growth).t == t
    ensures JoinedTerm(sub, m, growth).variance
      == match AtMoneyStrike(m, Forward(m, growth(t)))
         case None => None
         case Some(k0) => Some(ImpliedVariance(t, growth(t), Forward(m, growth(t)), k0, m))
  {
  }

  lemma ImpliedVarianceSpec(t: real, g: real, f: real, k0: Strike, m: seq<Pair>)
    requires t > 0.0 && |m| > 0
    ensures var s := SortBy(m, StrikeOf);
      ImpliedVariance(t, g, f, k0, m)
        == VarianceFormula(t, g, if |s| == 1 then 0.0 else ReferenceSum(s, k0, |s|), f, k0)
  {
    ReplicationSumSpec(SortBy(m, StrikeOf), k0);
  }
}
