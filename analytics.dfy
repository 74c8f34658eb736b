/** The analytics layer of notebook/analytics.py: daily P&L, historical VaR,
    exposure tables and the BI / Tableau exports (the frames returned, not the
    CSV files written). */
module Analytics {
  import opened Wrappers
  import opened Seqs
  import opened Sorting
  import opened Dates
  import opened TransformTrades

  // ---------------------------------------------------------------- daily_pnl

  /** One row of the daily P&L series. */
  datatype DailyRow = DailyRow(tradeDate: Date, pnlTotal: real)

  function DateOf(t: Trade): Date { t.tradeDate }
  function DailyDateOf(r: DailyRow): Date { r.tradeDate }
  function DailyTotalOf(r: DailyRow): real { r.pnlTotal }

  ghost predicate StrictlyAscending(ds: seq<Date>)
  {
    forall i, j :: 0 <= i < j < |ds| ==> Before(ds[i], ds[j])
  }

  /** Adds a date to a strictly ascending list of dates, unless already there. */
  function InsertDate(d: Date, ds: seq<Date>): (r: seq<Date>)
    requires StrictlyAscending(ds)
    ensures StrictlyAscending(r)
    ensures forall e :: e in r <==> e == d || e in ds
  {
    if |ds| == 0 then [d]
    else if d == ds[0] then ds
    else if Before(d, ds[0]) then [d] + ds
    else
      var rest := InsertDate(d, ds[1..]);
      assert forall e :: e in rest ==> Before(ds[0], e) by {
        forall e | e in rest ensures Before(ds[0], e) {
          if e != d {
            var j :| 0 <= j < |ds[1..]| && ds[1..][j] == e;
            assert ds[j + 1] == e;
          }
        }
      }
      assert ds == [ds[0]] + ds[1..];
      assert forall j :: 0 <= j < |rest| ==> rest[j] in rest;
      [ds[0]] + rest
  }

  /** The given dates, ascending and without repeats. */
  function AscendingDates(ds: seq<Date>): (r: seq<Date>)
    ensures StrictlyAscending(r)
    ensures forall e :: e in r <==> e in ds
  {
    if |ds| == 0 then []
    else
      assert ds == [ds[0]] + ds[1..];
      InsertDate(ds[0], AscendingDates(ds[1..]))
  }

  lemma StrictlyAscendingNoDups(ds: seq<Date>)
    requires StrictlyAscending(ds)
    ensures NoDups(ds)
  {
  }

  /** The distinct trade dates, ascending: the sorted group keys of `groupby("trade_date")`. */
  function TradeDates(ts: seq<Trade>): (ds: seq<Date>)
    ensures StrictlyAscending(ds)
    ensures forall d :: d in ds <==> exists i :: 0 <= i < |ts| && DateOf(ts[i]) == d
  {
    AscendingDates(GroupKeys(ts, DateOf))
  }

  function DailyRows(ts: seq<Trade>, ds: seq<Date>): (r: seq<DailyRow>)
    ensures |r| == |ds|
    ensures forall i :: 0 <= i < |ds| ==> r[i] == DailyRow(ds[i], SumWhere(ts, DateOf, ds[i], PnlOf))
  {
    if |ds| == 0 then [] else [DailyRow(ds[0], SumWhere(ts, DateOf, ds[0], PnlOf))] + DailyRows(ts, ds[1..])
  }

  /** `daily_pnl`: the P&L summed per trade date, ascending by date. */
  function DailyPnl(ts: seq<Trade>): (r: seq<DailyRow>)
    ensures forall i, j :: 0 <= i < j < |r| ==> Before(r[i].tradeDate, r[j].tradeDate)
  {
    DailyRows(ts, TradeDates(ts))
  }

  /** The daily series has a row for exactly the dates that have trades, and
      each row's total is the sum of that date's P&L. */
  lemma DailyPnlGroups(ts: seq<Trade>)
    ensures forall d :: d in Project(DailyPnl(ts), DailyDateOf) <==> exists i :: 0 <= i < |ts| && DateOf(ts[i]) == d
    ensures forall r :: r in DailyPnl(ts) ==> r.pnlTotal == SumWhere(ts, DateOf, r.tradeDate, PnlOf)
  {
    var out := DailyPnl(ts);
    assert Project(out, DailyDateOf) == TradeDates(ts);
  }

  /** Summing the daily series gives the total P&L of all trades. */
  lemma DailyPnlTotal(ts: seq<Trade>)
    ensures Sum(DailyPnl(ts), DailyTotalOf) == Sum(ts, PnlOf)
  {
    var ds := TradeDates(ts);
    DailyRowsSum(ts, ds);
    StrictlyAscendingNoDups(ds);
    GroupSumsPartition(ts, DateOf, PnlOf, ds);
  }

  lemma {:induction false} DailyRowsSum(ts: seq<Trade>, ds: seq<Date>)
    ensures Sum(DailyRows(ts, ds), DailyTotalOf) == SumOverKeys(ts, DateOf, PnlOf, ds)
  {
    if |ds| > 0 {
      assert DailyRows(ts, ds)[1..] == DailyRows(ts, ds[1..]);
      DailyRowsSum(ts, ds[1..]);
    }
  }

  // ----------------------------------------------------------- historical_var

  /** The outcome of `historical_var`: NaN (too few observations), a value, or
      the `ValueError` numpy raises for a quantile level outside [0, 1]. */
  datatype VaRResult = Undefined | VaR(value: real) | QuantileOutOfRange

  /** `dropna()` on a series: the present values, in order. */
  function PresentValues(s: seq<Option<real>>): (r: seq<real>)
    ensures |r| <= |s|
    ensures forall x :: x in r <==> Some(x) in s
  {
    if |s| == 0 then []
    else
      var init := PresentValues(s[..|s| - 1]);
      assert s == s[..|s| - 1] + [s[|s| - 1]];
      match s[|s| - 1]
      case Some(x) => init + [x]
      case None => init
  }

  function IsPresent(o: Option<real>): bool { o.Some? }

  /** `dropna()` keeps the present values in their order and with their
      multiplicity: the k-th value is the k-th present entry of the series
      (whose positions `FilterKeepsExactly` gives). */
  lemma {:induction false} PresentValuesKeepOrder(s: seq<Option<real>>)
    ensures |PresentValues(s)| == |Filter(s, IsPresent)|
    ensures forall k :: 0 <= k < |PresentValues(s)| ==> Filter(s, IsPresent)[k] == Some(PresentValues(s)[k])
  {
    if |s| > 0 {
      PresentValuesKeepOrder(s[..|s| - 1]);
    }
  }

  /** A series without missing values loses nothing to `dropna()`. */
  lemma {:induction false} PresentValuesAllPresent(s: seq<Option<real>>)
    requires forall i :: 0 <= i < |s| ==> s[i].Some?
    ensures |PresentValues(s)| == |s|
    ensures forall i :: 0 <= i < |s| ==> PresentValues(s)[i] == s[i].value
  {
    if |s| > 0 {
      PresentValuesAllPresent(s[..|s| - 1]);
    }
  }

  /** The observations VaR is computed from: missing values are dropped first,
      then the last `lookback` values are kept. */
  function VaRWindow(series: seq<Option<real>>, lookback: int): (w: seq<real>)
    ensures var p := PresentValues(series); |w| <= |p| && w == p[|p| - |w|..]
    ensures 0 <= lookback ==> |w| == Min(lookback, |PresentValues(series)|)
  {
    Tail(PresentValues(series), lookback)
  }

  function Neg(x: real): real { -x }

  ghost predicate Ascending(v: seq<real>)
  {
    forall i, j :: 0 <= i < j < |v| ==> v[i] <= v[j]
  }

  /** The values in ascending order. */
  function SortAsc(w: seq<real>): (v: seq<real>)
    ensures multiset(v) == multiset(w) && |v| == |w|
    ensures Ascending(v)
  {
    var v := SortDesc(w, Neg);
    assert |v| == |multiset(v)| == |multiset(w)| == |w|;
    assert forall i, j :: 0 <= i < j < |v| ==> Neg(v[i]) >= Neg(v[j]);
    v
  }

  lemma ScaleBounds(a: real, q: real)
    requires 0.0 <= a && 0.0 <= q <= 1.0
    ensures 0.0 <= a * q <= a && a * q == q * a
  {
  }

  /** Linear interpolation between order statistics at fractional position `h`:
      `v[j] + (h - j)(v[j+1] - v[j])` for `j = floor(h)`, and `v[j]` at the last
      position. At a whole position it is that order statistic; otherwise it
      lies between the two neighbouring ones. */
  function Interpolate(v: seq<real>, h: real): (x: real)
    requires 0.0 <= h <= (|v| - 1) as real
    ensures h == h.Floor as real ==> x == v[h.Floor]
    ensures var j := h.Floor; j + 1 < |v| && v[j] <= v[j + 1] ==> v[j] <= x <= v[j + 1]
  {
    var j := h.Floor;
    if j + 1 < |v| then
      var t, d := h - j as real, v[j + 1] - v[j];
      if 0.0 <= d then
        ScaleBounds(d, t);
        v[j] + t * d
      else
        v[j] + t * d
    else v[j]
  }

  /** The empirical quantile at level `q` (numpy's default `"linear"` method,
      Hyndman-Fan definition 7): interpolation at position `(n-1)q` of the sorted
      values. It lies between the smallest and the largest observation, and the
      levels 0 and 1 give exactly those. */
  function Quantile(w: seq<real>, q: real): (x: real)
    requires |w| > 0 && 0.0 <= q <= 1.0
    ensures q == 0.0 ==> x == MinOf(w)
    ensures q == 1.0 ==> x == MaxOf(w)
    ensures MinOf(w) <= x <= MaxOf(w)
  {
    SortAscEnds(w);
    PositionEnds(|w|, q);
    InterpolateBounds(SortAsc(w), Position(|w|, q));
    Interpolate(SortAsc(w), Position(|w|, q))
  }

  /** The sorted window starts with the smallest and ends with the largest value. */
  lemma SortAscEnds(w: seq<real>)
    requires |w| > 0
    ensures SortAsc(w)[0] == MinOf(w) && SortAsc(w)[|w| - 1] == MaxOf(w)
  {
    AscendingEnds(SortAsc(w), w);
  }

  /** An ascending permutation of `w` runs from its minimum to its maximum. */
  lemma AscendingEnds(v: seq<real>, w: seq<real>)
    requires multiset(v) == multiset(w) && |v| == |w| > 0 && Ascending(v)
    ensures v[0] == MinOf(w) && v[|v| - 1] == MaxOf(w)
  {
    var lo, hi := MinOf(w), MaxOf(w);
    assert v[0] in multiset(w) && v[|v| - 1] in multiset(w);
    assert lo in multiset(v) && hi in multiset(v);
    var i :| 0 <= i < |v| && v[i] == lo;
    var j :| 0 <= j < |v| && v[j] == hi;
    assert v[0] <= v[i] && v[j] <= v[|v| - 1];
    assert v[0] in w && v[|v| - 1] in w;
  }

  /** The fractional position `(n-1)q` of the level-`q` quantile among `n` sorted values. */
  function Position(n: nat, q: real): (h: real)
    requires n > 0 && 0.0 <= q <= 1.0
    ensures 0.0 <= h <= (n - 1) as real
  {
    Scaled(n - 1, q)
  }

  /** `k * q`, written as `k` additions of `q` so that callers reason about it
      linearly; `ScaledIsProduct` connects it to the product. */
  function Scaled(k: nat, q: real): (h: real)
    requires 0.0 <= q <= 1.0
    ensures 0.0 <= h <= k as real
  {
    if k == 0 then 0.0 else Scaled(k - 1, q) + q
  }

  lemma {:induction false} ScaledIsProduct(k: nat, q: real)
    requires 0.0 <= q <= 1.0
    ensures Scaled(k, q) == k as real * q
  {
    if k > 0 {
      ScaledIsProduct(k - 1, q);
      assert k as real * q == (k - 1) as real * q + q;
    }
  }

  /** The position is `(n-1)q`; the extreme levels sit on the first and the
      last order statistic. */
  lemma PositionEnds(n: nat, q: real)
    requires n > 0 && 0.0 <= q <= 1.0
    ensures Position(n, q) == (n - 1) as real * q
    ensures q == 0.0 ==> Position(n, q) == 0.0
    ensures q == 1.0 ==> Position(n, q) == (n - 1) as real
  {
    ScaledIsProduct(n - 1, q);
  }

  /** VaR from a window of observations: undefined below five observations,
      otherwise the negated `(1 - alpha)` quantile. */
  function VaROfWindow(w: seq<real>, alpha: real): (r: VaRResult)
    ensures r.Undefined? <==> |w| < 5
    ensures r.QuantileOutOfRange? <==> |w| >= 5 && !(0.0 <= 1.0 - alpha <= 1.0)
  {
    if |w| < 5 then Undefined
    else if !(0.0 <= 1.0 - alpha <= 1.0) then QuantileOutOfRange
    else VaR(-Quantile(w, 1.0 - alpha))
  }

  /** `historical_var`: VaR over the last `lookback` present observations. */
  function HistoricalVaR(series: seq<Option<real>>, alpha: real, lookback: int): (r: VaRResult)
    ensures r.Undefined? <==> |VaRWindow(series, lookback)| < 5
    ensures r.QuantileOutOfRange? <==> |VaRWindow(series, lookback)| >= 5 && !(0.0 <= 1.0 - alpha <= 1.0)
  {
    VaROfWindow(VaRWindow(series, lookback), alpha)
  }

  function MinOf(s: seq<real>): (m: real)
    requires |s| > 0
    ensures m in s && forall x :: x in s ==> m <= x
  {
    if |s| == 1 then s[0]
    else
      var rest := MinOf(s[1..]);
      assert s == [s[0]] + s[1..];
      if s[0] <= rest then s[0] else rest
  }

  function MaxOf(s: seq<real>): (m: real)
    requires |s| > 0
    ensures m in s && forall x :: x in s ==> x <= m
  {
    if |s| == 1 then s[0]
    else
      var rest := MaxOf(s[1..]);
      assert s == [s[0]] + s[1..];
      if s[0] >= rest then s[0] else rest
  }

  /** Interpolating a sorted sequence stays between its first and last value. */
  lemma InterpolateBounds(v: seq<real>, h: real)
    requires Ascending(v) && 0.0 <= h <= (|v| - 1) as real
    ensures v[0] <= Interpolate(v, h) <= v[|v| - 1]
  {
    var j := h.Floor;
    var t := h - j as real;
    assert 0 <= j < |v| && 0.0 <= t < 1.0;
    assert v[0] <= v[j] <= v[|v| - 1];
    if j + 1 < |v| {
      var d := v[j + 1] - v[j];
      assert v[j] <= v[j + 1] <= v[|v| - 1];
      ScaleBounds(d, t);
      assert Interpolate(v, h) == v[j] + t * d;
      assert v[j] <= v[j] + t * d <= v[j + 1];
    } else {
      assert Interpolate(v, h) == v[j];
    }
  }

  /** A defined VaR over a window lies between its negated maximum and its negated minimum. */
  lemma VaROfWindowBounds(w: seq<real>, alpha: real)
    ensures var r := VaROfWindow(w, alpha); r.VaR? ==> |w| >= 5 && -MaxOf(w) <= r.value <= -MinOf(w)
  {
    if |w| >= 5 && 0.0 <= 1.0 - alpha <= 1.0 {
      DefinedVaRBounds(w, alpha);
    }
  }

  /** The bound once the window is long enough and the level is in range. */
  lemma DefinedVaRBounds(w: seq<real>, alpha: real)
    requires |w| >= 5 && 0.0 <= 1.0 - alpha <= 1.0
    ensures -MaxOf(w) <= VaROfWindow(w, alpha).value <= -MinOf(w)
  {
    VaROfWindowDefined(w, alpha);
  }

  lemma VaRBounds(series: seq<Option<real>>, alpha: real, lookback: int)
    ensures var r, w := HistoricalVaR(series, alpha, lookback), VaRWindow(series, lookback);
      r.VaR? ==> |w| >= 5 && -MaxOf(w) <= r.value <= -MinOf(w)
  {
    VaROfWindowBounds(VaRWindow(series, lookback), alpha);
  }

  /** The quantile depends only on the multiset of observations. */
  lemma QuantilePermutationInvariant(a: seq<real>, b: seq<real>, q: real)
    requires multiset(a) == multiset(b) && |a| > 0 && 0.0 <= q <= 1.0
    ensures |b| > 0 && Quantile(a, q) == Quantile(b, q)
  {
    assert |b| == |multiset(b)| == |multiset(a)| == |a|;
    assert forall x, y {:trigger x in a, y in a} :: x in a && y in a && Neg(x) == Neg(y) ==> x == y;
    SortDescPermutationInvariant(a, b, Neg);
    assert SortAsc(a) == SortAsc(b);
  }

  lemma VaROfWindowDefined(w: seq<real>, alpha: real)
    requires |w| >= 5 && 0.0 <= 1.0 - alpha <= 1.0
    ensures VaROfWindow(w, alpha) == VaR(-Quantile(w, 1.0 - alpha))
  {
  }

  lemma SameLength(a: seq<real>, b: seq<real>)
    requires multiset(a) == multiset(b)
    ensures |a| == |b|
  {
    assert |a| == |multiset(a)| == |multiset(b)| == |b|;
  }

  lemma DefinedVaRPermutationInvariant(w1: seq<real>, w2: seq<real>, alpha: real)
    requires multiset(w1) == multiset(w2) && |w1| >= 5 && 0.0 <= 1.0 - alpha <= 1.0
    ensures VaROfWindow(w1, alpha) == VaROfWindow(w2, alpha)
  {
    SameLength(w1, w2);
    QuantilePermutationInvariant(w1, w2, 1.0 - alpha);
    VaROfWindowDefined(w1, alpha);
    VaROfWindowDefined(w2, alpha);
  }

  /** VaR from a window depends only on the multiset of its values. */
  lemma VaROfWindowPermutationInvariant(w1: seq<real>, w2: seq<real>, alpha: real)
    requires multiset(w1) == multiset(w2)
    ensures VaROfWindow(w1, alpha) == VaROfWindow(w2, alpha)
  {
    SameLength(w1, w2);
    if |w1| >= 5 && 0.0 <= 1.0 - alpha <= 1.0 {
      DefinedVaRPermutationInvariant(w1, w2, alpha);
    }
  }

  /** VaR depends only on the multiset of window values: reordering them does not change it. */
  lemma VaRPermutationInvariant(s1: seq<Option<real>>, s2: seq<Option<real>>, alpha: real, lookback: int)
    requires multiset(VaRWindow(s1, lookback)) == multiset(VaRWindow(s2, lookback))
    ensures HistoricalVaR(s1, alpha, lookback) == HistoricalVaR(s2, alpha, lookback)
  {
    VaROfWindowPermutationInvariant(VaRWindow(s1, lookback), VaRWindow(s2, lookback), alpha);
  }

  lemma FiveObservationsWindow(series: seq<Option<real>>)
    requires series == [Some(-100.0), Some(-50.0), Some(0.0), Some(50.0), Some(100.0)]
    ensures VaRWindow(series, 60) == [-100.0, -50.0, 0.0, 50.0, 100.0]
  {
    PresentValuesAllPresent(series);
    assert PresentValues(series) == [-100.0, -50.0, 0.0, 50.0, 100.0];
  }

  lemma AscendingIsSorted(w: seq<real>)
    requires Ascending(w)
    ensures SortAsc(w) == w
  {
    var v := SortAsc(w);
    assert NonIncreasing(w, Neg);
    assert forall x, y {:trigger x in v, y in v} :: x in v && y in v && Neg(x) == Neg(y) ==> x == y;
    SortedPermutationUnique(v, w, Neg);
  }

  lemma FiveObservationsAscending(w: seq<real>)
    requires w == [-100.0, -50.0, 0.0, 50.0, 100.0]
    ensures Ascending(w)
  {
  }

  lemma FiveObservationsInterpolate(w: seq<real>)
    requires w == [-100.0, -50.0, 0.0, 50.0, 100.0]
    ensures Interpolate(w, Position(|w|, 0.05)) == -90.0
  {
    PositionEnds(5, 0.05);
    assert Position(5, 0.05) == 0.2;
    assert (0.2).Floor == 0;
    assert Interpolate(w, 0.2) == w[0] + 0.2 * (w[1] - w[0]);
  }

  lemma FiveObservationsQuantile(w: seq<real>)
    requires w == [-100.0, -50.0, 0.0, 50.0, 100.0]
    ensures Quantile(w, 0.05) == -90.0
  {
    FiveObservationsAscending(w);
    AscendingIsSorted(w);
    FiveObservationsInterpolate(w);
  }

  /** Five observations -100, -50, 0, 50, 100 at 95%: the position is
      `4 * 0.05 = 0.2`, so the quantile is `-100 + 0.2 * 50 = -90` and VaR is 90. */
  lemma VaRFiveObservations(series: seq<Option<real>>)
    requires series == [Some(-100.0), Some(-50.0), Some(0.0), Some(50.0), Some(100.0)]
    ensures HistoricalVaR(series, 0.95, 60) == VaR(90.0)
  {
    var w := VaRWindow(series, 60);
    FiveObservationsWindow(series);
    FiveObservationsQuantile(w);
    VaROfWindowDefined(w, 0.95);
  }

  // ---------------------------------------------------------- exposure_tables

  /** One row of an exposure table: a counterparty or an asset class and its exposure. */
  datatype Exposure = Exposure(key: string, exposureMn: real)

  function ExposureKeyOf(e: Exposure): string { e.key }
  function ExposureMnOf(e: Exposure): real { e.exposureMn }

  function ExposureRows(ts: seq<Trade>, key: Trade -> string, ks: seq<string>): (r: seq<Exposure>)
    ensures |r| == |ks|
    ensures forall i :: 0 <= i < |ks| ==> r[i] == Exposure(ks[i], SumWhere(ts, key, ks[i], NotionalMnOf))
  {
    if |ks| == 0 then [] else [Exposure(ks[0], SumWhere(ts, key, ks[0], NotionalMnOf))] + ExposureRows(ts, key, ks[1..])
  }

  /** `notional_mn` summed per key, sorted descending by exposure. */
  function ExposureBy(ts: seq<Trade>, key: Trade -> string): (r: seq<Exposure>)
    ensures NonIncreasing(r, ExposureMnOf)
  {
    SortDesc(ExposureRows(ts, key, GroupKeys(ts, key)), ExposureMnOf)
  }

  /** `exposure_tables`: by counterparty and by asset class. */
  function ExposureTables(ts: seq<Trade>): (r: (seq<Exposure>, seq<Exposure>))
    ensures NonIncreasing(r.0, ExposureMnOf) && NonIncreasing(r.1, ExposureMnOf)
  {
    (ExposureBy(ts, CounterpartyOf), ExposureBy(ts, AssetClassOf))
  }

  /** No key has two rows. */
  lemma ExposureKeysDistinct(ts: seq<Trade>, key: Trade -> string)
    ensures KeysDistinct(ExposureBy(ts, key), ExposureKeyOf)
  {
    var rows := ExposureRows(ts, key, GroupKeys(ts, key));
    assert KeysDistinct(rows, ExposureKeyOf);
    SortDescKeepsKeysDistinct(rows, ExposureMnOf, ExposureKeyOf);
  }

  /** Every row is a key that occurs, with that key's `notional_mn` sum. */
  lemma ExposureRowsAggregate(ts: seq<Trade>, key: Trade -> string)
    ensures forall e :: e in ExposureBy(ts, key) ==>
              e.exposureMn == SumWhere(ts, key, e.key, NotionalMnOf) &&
              exists i :: 0 <= i < |ts| && key(ts[i]) == e.key
  {
    var ks := GroupKeys(ts, key);
    var rows := ExposureRows(ts, key, ks);
    SortDescSameRows(rows, ExposureMnOf);
    forall e | e in ExposureBy(ts, key)
      ensures e.exposureMn == SumWhere(ts, key, e.key, NotionalMnOf) && exists i :: 0 <= i < |ts| && key(ts[i]) == e.key
    {
      assert e in rows;
      var j :| 0 <= j < |rows| && rows[j] == e;
      assert e == Exposure(ks[j], SumWhere(ts, key, ks[j], NotionalMnOf));
      assert ks[j] in ks;
      var i :| 0 <= i < |ts| && key(ts[i]) == ks[j];
    }
  }

  /** Every key that occurs has a row. */
  lemma ExposureCoversInput(ts: seq<Trade>, key: Trade -> string)
    ensures forall i :: 0 <= i < |ts| ==> exists e :: e in ExposureBy(ts, key) && e.key == key(ts[i])
  {
    var ks := GroupKeys(ts, key);
    var rows := ExposureRows(ts, key, ks);
    SortDescSameRows(rows, ExposureMnOf);
    forall i | 0 <= i < |ts| ensures exists e :: e in ExposureBy(ts, key) && e.key == key(ts[i]) {
      assert key(ts[i]) in ks;
      var j :| 0 <= j < |ks| && ks[j] == key(ts[i]);
      assert rows[j] in rows;
    }
  }

  lemma {:induction false} ExposureRowsSum(ts: seq<Trade>, key: Trade -> string, ks: seq<string>)
    ensures Sum(ExposureRows(ts, key, ks), ExposureMnOf) == SumOverKeys(ts, key, NotionalMnOf, ks)
  {
    if |ks| > 0 {
      assert ExposureRows(ts, key, ks)[1..] == ExposureRows(ts, key, ks[1..]);
      ExposureRowsSum(ts, key, ks[1..]);
    }
  }

  /** The exposure column adds up to the table's `notional_mn` total. */
  lemma ExposureTotal(ts: seq<Trade>, key: Trade -> string)
    ensures Sum(ExposureBy(ts, key), ExposureMnOf) == Sum(ts, NotionalMnOf)
  {
    var ks := GroupKeys(ts, key);
    var rows := ExposureRows(ts, key, ks);
    SumPermutation(ExposureBy(ts, key), rows, ExposureMnOf);
    ExposureRowsSum(ts, key, ks);
    GroupSumsPartition(ts, key, NotionalMnOf, ks);
  }

  /** Both exposure tables reconcile with the total `notional_mn`. */
  lemma ExposureTablesTotals(ts: seq<Trade>)
    ensures Sum(ExposureTables(ts).0, ExposureMnOf) == Sum(ts, NotionalMnOf)
    ensures Sum(ExposureTables(ts).1, ExposureMnOf) == Sum(ts, NotionalMnOf)
  {
    ExposureTotal(ts, CounterpartyOf);
    ExposureTotal(ts, AssetClassOf);
  }

  // ------------------------------------------------------- portfolio VaR run

  /** The daily totals as the series `historical_var` receives (`pnl["pnl_total"]`). */
  function DailySeries(rows: seq<DailyRow>): (s: seq<Option<real>>)
    ensures |s| == |rows|
    ensures forall i :: 0 <= i < |rows| ==> s[i] == Some(rows[i].pnlTotal)
  {
    seq(|rows|, i requires 0 <= i < |rows| => Some(rows[i].pnlTotal))
  }

  /** The script's VaR figure: 95% over 60 daily totals. */
  function PortfolioVaR(ts: seq<Trade>): (r: VaRResult)
    ensures !r.QuantileOutOfRange?
  {
    HistoricalVaR(DailySeries(DailyPnl(ts)), 0.95, 60)
  }

  /** VaR over the daily series is undefined while fewer than five trade dates exist;
      in particular when every trade falls on one date. */
  lemma PortfolioVaRNeedsFiveDates(ts: seq<Trade>)
    ensures PortfolioVaR(ts).Undefined? <==> |TradeDates(ts)| < 5
  {
    var s := DailySeries(DailyPnl(ts));
    PresentValuesAllPresent(s);
  }

  lemma OneDateOneRow(ts: seq<Trade>, d: Date)
    requires forall i :: 0 <= i < |ts| ==> ts[i].tradeDate == d
    ensures |TradeDates(ts)| <= 1
  {
    var ds := TradeDates(ts);
    forall k | 0 <= k < |ds| ensures ds[k] == d {
      assert ds[k] in ds;
    }
    assert |ds| >= 2 ==> Before(ds[0], ds[1]);
  }

  /** Trades that all fall on one date give one daily total, too few for VaR. */
  lemma SingleDateVaRUndefined(ts: seq<Trade>, d: Date)
    requires forall i :: 0 <= i < |ts| ==> ts[i].tradeDate == d
    ensures PortfolioVaR(ts) == Undefined
  {
    OneDateOneRow(ts, d);
    PortfolioVaRNeedsFiveDates(ts);
  }

  // --------------------------------------------------------------- bi_export

  /** One row of the BI extract: `trade_date`, `yyyymm`, `counterparty`,
      `asset_class`, `currency`, `trade_type`, `notional`, `notional_mn`,
      `pnl`, in that order. */
  datatype BiRow = BiRow(
    tradeDate: Date, yyyymm: string, counterparty: string, assetClass: string,
    currency: string, tradeType: string, notional: real, notionalMn: real, pnl: real)

  function BiRowOf(t: Trade): BiRow
  {
    BiRow(t.tradeDate, YearMonth(t.tradeDate), t.counterparty, t.assetClass,
          t.currency, t.tradeType, t.notional, t.notionalMn, t.pnl)
  }

  /** `bi_export`: every row, with the selected columns and the month label. */
  function BiExport(ts: seq<Trade>): (r: seq<BiRow>)
    ensures |r| == |ts|
  {
    seq(|ts|, i requires 0 <= i < |ts| => BiRowOf(ts[i]))
  }

  /** The BI extract keeps the rows in order and their values unchanged, and
      each month label reads back as that row's year and month. */
  lemma BiExportFaithful(ts: seq<Trade>)
    ensures |BiExport(ts)| == |ts|
    ensures forall i :: 0 <= i < |ts| ==>
      var b, t := BiExport(ts)[i], ts[i];
      && b.tradeDate == t.tradeDate && b.counterparty == t.counterparty
      && b.assetClass == t.assetClass && b.currency == t.currency && b.tradeType == t.tradeType
      && b.notional == t.notional && b.notionalMn == t.notionalMn && b.pnl == t.pnl
      && ParseYearMonth(b.yyyymm) == Some((t.tradeDate.year, t.tradeDate.month))
  {
    forall i | 0 <= i < |ts|
      ensures ParseYearMonth(BiExport(ts)[i].yyyymm) == Some((ts[i].tradeDate.year, ts[i].tradeDate.month))
    {
      YearMonthRoundTrip(ts[i].tradeDate);
    }
  }

  /** Rows of one month, and only those, share a month label. */
  lemma BiExportMonthLabels(ts: seq<Trade>, i: int, j: int)
    requires 0 <= i < |ts| && 0 <= j < |ts|
    ensures BiExport(ts)[i].yyyymm == BiExport(ts)[j].yyyymm <==>
            ts[i].tradeDate.year == ts[j].tradeDate.year && ts[i].tradeDate.month == ts[j].tradeDate.month
  {
    YearMonthSameMonth(ts[i].tradeDate, ts[j].tradeDate);
  }

  // ------------------------------------------------------ tableau_long_export

  /** The measures that `melt` turns into rows, in `value_vars` order. */
  datatype Metric = Notional | NotionalMn | Pnl

  /** The label written in the `metric` column. */
  function MetricName(m: Metric): string
  {
    match m
    case Notional => "notional"
    case NotionalMn => "notional_mn"
    case Pnl => "pnl"
  }

  /** Grouping by the metric is grouping by its label: no two metrics share one. */
  lemma MetricNamesDistinct(a: Metric, b: Metric)
    ensures MetricName(a) == MetricName(b) <==> a == b
  {
  }

  /** The trade column a metric reads. */
  function MetricColumn(m: Metric): Trade -> real
  {
    match m
    case Notional => NotionalOf
    case NotionalMn => NotionalMnOf
    case Pnl => PnlOf
  }

  /** One row of the long table: the six dimensions, a metric and its value. */
  datatype LongRow = LongRow(
    tradeDate: Date, yyyymm: string, counterparty: string, assetClass: string,
    currency: string, tradeType: string, metric: Metric, value: real)

  function MetricOf(r: LongRow): Metric { r.metric }
  function ValueOf(r: LongRow): real { r.value }

  function LongRowOf(t: Trade, m: Metric): LongRow
  {
    LongRow(t.tradeDate, YearMonth(t.tradeDate), t.counterparty, t.assetClass,
            t.currency, t.tradeType, m, MetricColumn(m)(t))
  }

  /** One block of the melt: every trade's row for metric `m`, in order. */
  function MeltMetric(ts: seq<Trade>, m: Metric): (r: seq<LongRow>)
    ensures |r| == |ts|
    ensures forall i :: 0 <= i < |ts| ==> r[i] == LongRowOf(ts[i], m)
  {
    if |ts| == 0 then [] else [LongRowOf(ts[0], m)] + MeltMetric(ts[1..], m)
  }

  /** `tableau_long_export`: the notional block, then notional_mn, then pnl. */
  function TableauLongExport(ts: seq<Trade>): (r: seq<LongRow>)
    ensures |r| == 3 * |ts|
  {
    MeltMetric(ts, Notional) + MeltMetric(ts, NotionalMn) + MeltMetric(ts, Pnl)
  }

  /** Row `i` of the input reappears as row `i` of each metric's block, with
      its dimensions, the metric's label and the metric's value. */
  lemma LongExportLayout(ts: seq<Trade>)
    ensures forall i :: 0 <= i < |ts| ==> LongExportRowAt(ts, i)
  {
    forall i | 0 <= i < |ts| {
      LongExportRow(ts, i);
    }
  }

  /** Row `i` of the input as it appears in each of the three blocks. */
  predicate LongExportRowAt(ts: seq<Trade>, i: int)
    requires 0 <= i < |ts|
  {
    var n, r := |ts|, TableauLongExport(ts);
    && r[i] == LongRowOf(ts[i], Notional) && r[i].value == ts[i].notional
    && MetricName(r[i].metric) == "notional"
    && r[n + i] == LongRowOf(ts[i], NotionalMn) && r[n + i].value == ts[i].notionalMn
    && MetricName(r[n + i].metric) == "notional_mn"
    && r[2 * n + i] == LongRowOf(ts[i], Pnl) && r[2 * n + i].value == ts[i].pnl
    && MetricName(r[2 * n + i].metric) == "pnl"
  }

  lemma LongExportRow(ts: seq<Trade>, i: int)
    requires 0 <= i < |ts|
    ensures LongExportRowAt(ts, i)
  {
    var n := |ts|;
    var a, b, c := MeltMetric(ts, Notional), MeltMetric(ts, NotionalMn), MeltMetric(ts, Pnl);
    assert TableauLongExport(ts) == a + b + c;
    assert (a + b + c)[i] == (a + b)[i] == a[i];
    assert (a + b + c)[n + i] == (a + b)[n + i] == b[i];
    assert (a + b + c)[2 * n + i] == c[i];
    assert MetricName(Notional) == "notional" && MetricName(NotionalMn) == "notional_mn" && MetricName(Pnl) == "pnl";
  }

  function ValueIfMetric(m: Metric, r: LongRow): real
  {
    if r.metric == m then r.value else 0.0
  }

  lemma {:induction false} MeltMetricRestrictedSum(ts: seq<Trade>, k: Metric, m: Metric, g: LongRow -> real)
    requires forall x :: g(x) == ValueIfMetric(m, x)
    ensures Sum(MeltMetric(ts, k), g) == if k == m then Sum(ts, MetricColumn(m)) else 0.0
  {
    if |ts| > 0 {
      assert MeltMetric(ts, k)[1..] == MeltMetric(ts[1..], k);
      MeltMetricRestrictedSum(ts[1..], k, m, g);
    }
  }

  /** Summing the long table's values for one metric gives that column's total. */
  lemma LongExportMetricTotals(ts: seq<Trade>, m: Metric)
    ensures SumWhere(TableauLongExport(ts), MetricOf, m, ValueOf) == Sum(ts, MetricColumn(m))
  {
    var g := (x: LongRow) => ValueIfMetric(m, x);
    var a, b, c := MeltMetric(ts, Notional), MeltMetric(ts, NotionalMn), MeltMetric(ts, Pnl);
    SumOfRestricted(a + b + c, MetricOf, m, ValueOf, g);
    SumAppend(a + b, c, g);
    SumAppend(a, b, g);
    MeltMetricRestrictedSum(ts, Notional, m, g);
    MeltMetricRestrictedSum(ts, NotionalMn, m, g);
    MeltMetricRestrictedSum(ts, Pnl, m, g);
  }

  // --------------------------------------------------- tableau_long_daily_agg

  /** The seven grouping columns of the daily aggregate. */
  datatype LongKey = LongKey(
    tradeDate: Date, yyyymm: string, counterparty: string, assetClass: string,
    currency: string, tradeType: string, metric: Metric)

  function KeyOf(r: LongRow): LongKey
  {
    LongKey(r.tradeDate, r.yyyymm, r.counterparty, r.assetClass, r.currency, r.tradeType, r.metric)
  }

  function AggRowOf(long: seq<LongRow>, k: LongKey): (r: LongRow)
    ensures KeyOf(r) == k
  {
    LongRow(k.tradeDate, k.yyyymm, k.counterparty, k.assetClass, k.currency, k.tradeType, k.metric,
            SumWhere(long, KeyOf, k, ValueOf))
  }

  function AggRows(long: seq<LongRow>, ks: seq<LongKey>): (r: seq<LongRow>)
    ensures |r| == |ks|
    ensures forall i :: 0 <= i < |ks| ==> r[i] == AggRowOf(long, ks[i])
  {
    if |ks| == 0 then [] else [AggRowOf(long, ks[0])] + AggRows(long, ks[1..])
  }

  /** `tableau_long_daily_agg`: `value` summed per combination of the seven key columns. */
  function TableauLongDailyAgg(long: seq<LongRow>): (r: seq<LongRow>)
    ensures |r| <= |long|
    ensures KeysDistinct(r, KeyOf)
  {
    var ks := GroupKeys(long, KeyOf);
    var r := AggRows(long, ks);
    assert forall i :: 0 <= i < |r| ==> KeyOf(r[i]) == ks[i];
    r
  }

  /** Every aggregate row is a key combination that occurs, carrying the sum of
      its values; every key combination that occurs has a row. */
  lemma DailyAggGroups(long: seq<LongRow>)
    ensures forall r :: r in TableauLongDailyAgg(long) ==>
              r.value == SumWhere(long, KeyOf, KeyOf(r), ValueOf) &&
              exists i :: 0 <= i < |long| && KeyOf(long[i]) == KeyOf(r)
    ensures forall i :: 0 <= i < |long| ==>
              exists r :: r in TableauLongDailyAgg(long) && KeyOf(r) == KeyOf(long[i])
  {
    var ks := GroupKeys(long, KeyOf);
    var out := TableauLongDailyAgg(long);
    forall r | r in out
      ensures r.value == SumWhere(long, KeyOf, KeyOf(r), ValueOf) &&
              exists i :: 0 <= i < |long| && KeyOf(long[i]) == KeyOf(r)
    {
      var j :| 0 <= j < |out| && out[j] == r;
      assert ks[j] in ks;
    }
    forall i | 0 <= i < |long| ensures exists r :: r in out && KeyOf(r) == KeyOf(long[i]) {
      assert KeyOf(long[i]) in ks;
      var j :| 0 <= j < |ks| && ks[j] == KeyOf(long[i]);
      assert out[j] in out;
    }
  }

  lemma {:induction false} AggRowsRestrictedSum(long: seq<LongRow>, ks: seq<LongKey>, m: Metric, g: LongRow -> real)
    requires forall x :: g(x) == ValueIfMetric(m, x)
    ensures SumWhere(AggRows(long, ks), MetricOf, m, ValueOf) == SumOverKeys(long, KeyOf, g, ks)
  {
    if |ks| > 0 {
      var k := ks[0];
      assert AggRows(long, ks)[1..] == AggRows(long, ks[1..]);
      AggRowsRestrictedSum(long, ks[1..], m, g);
      SumWhereRestricted(long, KeyOf, k, MetricOf, m, k.metric, ValueOf, g);
    }
  }

  /** Aggregating keeps each metric's total. */
  lemma DailyAggMetricTotals(long: seq<LongRow>, m: Metric)
    ensures SumWhere(TableauLongDailyAgg(long), MetricOf, m, ValueOf) == SumWhere(long, MetricOf, m, ValueOf)
  {
    var g := (x: LongRow) => ValueIfMetric(m, x);
    var ks := GroupKeys(long, KeyOf);
    AggRowsRestrictedSum(long, ks, m, g);
    GroupSumsPartition(long, KeyOf, g, ks);
    SumOfRestricted(long, MetricOf, m, ValueOf, g);
  }

  /** Exporting and then aggregating reconciles with the trade table: per metric,
      the aggregate's values add up to that column's total. */
  lemma LongPipelineTotals(ts: seq<Trade>, m: Metric)
    ensures SumWhere(TableauLongDailyAgg(TableauLongExport(ts)), MetricOf, m, ValueOf) == Sum(ts, MetricColumn(m))
  {
    DailyAggMetricTotals(TableauLongExport(ts), m);
    LongExportMetricTotals(ts, m);
  }
}
