/** The computation helpers of app/dashboard.py: the sidebar filter, the
    week-over-week P&L delta and the "Total Trades" distinct count. */
module Dashboard {
  import opened Wrappers
  import opened Seqs
  import opened Sorting
  import opened Dates
  import opened TransformTrades
  import opened Analytics

  // ------------------------------------------------------------ apply_filters

  /** A row passes when its date is within `[d1, d2]` (both ends included) and,
      for each non-empty include-list, its field is on the list. Only a
      non-empty range lets anything pass. */
  predicate Passes(t: Trade, d1: Date, d2: Date, cps: seq<string>, acs: seq<string>)
    ensures Passes(t, d1, d2, cps, acs) ==> OnOrBefore(d1, d2)
  {
    && OnOrBefore(d1, t.tradeDate) && OnOrBefore(t.tradeDate, d2)
    && (cps == [] || t.counterparty in cps)
    && (acs == [] || t.assetClass in acs)
  }

  function Mask(d1: Date, d2: Date, cps: seq<string>, acs: seq<string>): Trade -> bool
  {
    t => Passes(t, d1, d2, cps, acs)
  }

  /** `apply_filters`: the rows the combined mask selects. */
  function ApplyFilters(ts: seq<Trade>, d1: Date, d2: Date, cps: seq<string>, acs: seq<string>): (r: seq<Trade>)
    ensures |r| <= |ts|
    ensures forall t :: t in r <==> t in ts && Passes(t, d1, d2, cps, acs)
  {
    Filter(ts, Mask(d1, d2, cps, acs))
  }

  /** The positions of the selected rows. */
  function SelectedRows(ts: seq<Trade>, d1: Date, d2: Date, cps: seq<string>, acs: seq<string>): seq<int>
  {
    Indices(ts, Mask(d1, d2, cps, acs))
  }

  /** The filtered table is the subsequence of exactly the passing rows, in
      their original order and unchanged. */
  lemma ApplyFiltersExactly(ts: seq<Trade>, d1: Date, d2: Date, cps: seq<string>, acs: seq<string>)
    ensures var ix, r := SelectedRows(ts, d1, d2, cps, acs), ApplyFilters(ts, d1, d2, cps, acs);
      && |r| == |ix|
      && (forall k, l :: 0 <= k < l < |ix| ==> ix[k] < ix[l])
      && (forall i :: 0 <= i < |ts| ==> (Passes(ts[i], d1, d2, cps, acs) <==> i in ix))
      && (forall k :: 0 <= k < |ix| ==> 0 <= ix[k] < |ts| && r[k] == ts[ix[k]])
  {
    FilterKeepsExactly(ts, Mask(d1, d2, cps, acs));
  }

  /** An empty counterparty list selects like the list of every counterparty present. */
  lemma EmptyCounterpartyListSelectsAll(ts: seq<Trade>, d1: Date, d2: Date, acs: seq<string>)
    ensures ApplyFilters(ts, d1, d2, [], acs) == ApplyFilters(ts, d1, d2, GroupKeys(ts, CounterpartyOf), acs)
  {
    var all := GroupKeys(ts, CounterpartyOf);
    forall t | t in ts ensures Mask(d1, d2, [], acs)(t) == Mask(d1, d2, all, acs)(t) {
      var i :| 0 <= i < |ts| && ts[i] == t;
      assert CounterpartyOf(ts[i]) in all;
    }
    FilterCongruent(ts, Mask(d1, d2, [], acs), Mask(d1, d2, all, acs));
  }

  /** An empty asset-class list selects like the list of every asset class present. */
  lemma EmptyAssetClassListSelectsAll(ts: seq<Trade>, d1: Date, d2: Date, cps: seq<string>)
    ensures ApplyFilters(ts, d1, d2, cps, []) == ApplyFilters(ts, d1, d2, cps, GroupKeys(ts, AssetClassOf))
  {
    var all := GroupKeys(ts, AssetClassOf);
    forall t | t in ts ensures Mask(d1, d2, cps, [])(t) == Mask(d1, d2, cps, all)(t) {
      var i :| 0 <= i < |ts| && ts[i] == t;
      assert AssetClassOf(ts[i]) in all;
    }
    FilterCongruent(ts, Mask(d1, d2, cps, []), Mask(d1, d2, cps, all));
  }

  /** With no trade date inside the range, in particular when `d1` is after
      `d2`, nothing is selected. */
  lemma EmptyRangeSelectsNothing(ts: seq<Trade>, d1: Date, d2: Date, cps: seq<string>, acs: seq<string>)
    requires Before(d2, d1) || forall i :: 0 <= i < |ts| ==> !(OnOrBefore(d1, ts[i].tradeDate) && OnOrBefore(ts[i].tradeDate, d2))
    ensures ApplyFilters(ts, d1, d2, cps, acs) == []
  {
    forall t | t in ts ensures !Mask(d1, d2, cps, acs)(t) {
      var i :| 0 <= i < |ts| && ts[i] == t;
      DayKeyOrdersDates(d1, t.tradeDate);
      DayKeyOrdersDates(t.tradeDate, d2);
      DayKeyOrdersDates(d2, d1);
    }
    FilterKeepsNone(ts, Mask(d1, d2, cps, acs));
  }

  // -------------------------------------------------------- last_period_delta

  /** An entry of a date-indexed series. */
  datatype Point = Point(index: Date, value: real)

  function PointValue(p: Point): real { p.value }
  function IndexOf(p: Point): Date { p.index }

  /** Ordering score that sorts a series by ascending index. */
  function IndexScore(p: Point): real { -(DayKey(p.index) as real) }

  /** `sort_index()`: the entries by ascending date. */
  function SortIndex(s: seq<Point>): (r: seq<Point>)
    ensures multiset(r) == multiset(s) && |r| == |s|
    ensures forall i, j :: 0 <= i < j < |r| ==> OnOrBefore(r[i].index, r[j].index)
  {
    var r := SortDesc(s, IndexScore);
    assert |r| == |multiset(r)| == |multiset(s)| == |s|;
    forall i, j | 0 <= i < j < |r| ensures OnOrBefore(r[i].index, r[j].index) {
      assert IndexScore(r[i]) >= IndexScore(r[j]);
      DayKeyOrdersDates(r[i].index, r[j].index);
    }
    r
  }

  /** The delta over a series already in index order: the sum of the last
      `days` values minus the sum of the `days` values before them, or nothing
      when the series holds fewer than `days + 1` entries. */
  function PeriodDelta(s: seq<Point>, days: int): (r: Option<real>)
    ensures r.None? <==> |s| < days + 1
  {
    if |s| < days + 1 then None
    else
      var curr := Sum(Tail(s, days), PointValue);
      var prev := Sum(Head(Tail(s, days * 2), days), PointValue);
      Some(curr - prev)
  }

  /** `last_period_delta`: sorts by index, then takes the delta. */
  function LastPeriodDelta(series: seq<Point>, days: int): (r: Option<real>)
    ensures r.None? <==> |series| < days + 1
  {
    PeriodDelta(SortIndex(series), days)
  }

  /** With at least two full periods, the delta compares the last `days` entries
      with the `days` entries just before them. */
  lemma DeltaTwoFullPeriods(s: seq<Point>, days: int)
    requires days >= 0 && |s| >= 2 * days && |s| >= days + 1
    ensures var n := |s|;
      PeriodDelta(s, days) == Some(Sum(s[n - days..], PointValue) - Sum(s[n - 2 * days..n - days], PointValue))
  {
    var n := |s|;
    assert Tail(s, days * 2) == s[n - 2 * days..];
    assert Head(s[n - 2 * days..], days) == s[n - 2 * days..n - days];
  }

  /** With fewer than two periods, the previous window is the first `days`
      entries, which overlaps the current one. */
  lemma DeltaOverlappingPeriods(s: seq<Point>, days: int)
    requires days >= 0 && days + 1 <= |s| < 2 * days
    ensures var n := |s|;
      && PeriodDelta(s, days) == Some(Sum(s[n - days..], PointValue) - Sum(s[..days], PointValue))
      && n - days < days
  {
    assert Tail(s, days * 2) == s;
    assert Head(s, days) == s[..days];
  }

  /** With distinct dates, the delta does not depend on the order the entries come in. */
  lemma DeltaOrderIndependent(a: seq<Point>, b: seq<Point>, days: int)
    requires multiset(a) == multiset(b)
    requires KeysDistinct(a, IndexOf)
    ensures LastPeriodDelta(a, days) == LastPeriodDelta(b, days)
  {
    forall x, y | x in a && y in a && IndexScore(x) == IndexScore(y) ensures x == y {
      DayKeyOrdersDates(x.index, y.index);
      var i :| 0 <= i < |a| && a[i] == x;
      var j :| 0 <= j < |a| && a[j] == y;
      assert i == j;
    }
    SortDescPermutationInvariant(a, b, IndexScore);
  }

  /** The dashboard's series: the daily P&L indexed by trade date. */
  function DailyPnlSeries(rows: seq<DailyRow>): (s: seq<Point>)
    ensures |s| == |rows|
    ensures forall i :: 0 <= i < |rows| ==> s[i] == Point(rows[i].tradeDate, rows[i].pnlTotal)
  {
    seq(|rows|, i requires 0 <= i < |rows| => Point(rows[i].tradeDate, rows[i].pnlTotal))
  }

  /** Sorting a series whose dates already ascend strictly changes nothing. */
  lemma SortIndexOfAscending(s: seq<Point>)
    requires forall i, j :: 0 <= i < j < |s| ==> Before(s[i].index, s[j].index)
    ensures SortIndex(s) == s
  {
    var r := SortIndex(s);
    forall i, j | 0 <= i < j < |s| ensures IndexScore(s[i]) >= IndexScore(s[j]) {
      DayKeyOrdersDates(s[i].index, s[j].index);
    }
    forall x, y {:trigger x in r, y in r} | x in r && y in r && IndexScore(x) == IndexScore(y) ensures x == y {
      assert x in multiset(r) && y in multiset(r);
      var i :| 0 <= i < |s| && s[i] == x;
      var j :| 0 <= j < |s| && s[j] == y;
      DayKeyOrdersDates(x.index, y.index);
      assert i == j;
    }
    SortedPermutationUnique(r, s, IndexScore);
  }

  /** The daily P&L is already in date order, so the dashboard's delta is taken
      over the daily rows as they come. */
  lemma DailyDeltaKeepsDateOrder(ts: seq<Trade>, days: int)
    ensures var s := DailyPnlSeries(DailyPnl(ts));
      LastPeriodDelta(s, days) == PeriodDelta(s, days)
  {
    SortIndexOfAscending(DailyPnlSeries(DailyPnl(ts)));
  }

  // ------------------------------------------------------------- Total Trades

  function TradeIdOf(t: Trade): string { t.tradeId }

  /** The set of trade ids among the rows. */
  function TradeIds(rows: seq<Trade>): (ids: set<string>)
    ensures forall id :: id in ids <==> exists i :: 0 <= i < |rows| && rows[i].tradeId == id
  {
    if |rows| == 0 then {}
    else
      var rest := TradeIds(rows[1..]);
      assert forall id :: id in rest <==> exists i :: 0 <= i < |rows[1..]| && rows[1..][i].tradeId == id;
      assert forall i :: 1 <= i < |rows| ==> rows[i] == rows[1..][i - 1];
      {rows[0].tradeId} + rest
  }

  /** There are never more distinct ids than rows. */
  lemma {:induction false} TradeIdsAtMostRows(rows: seq<Trade>)
    ensures |TradeIds(rows)| <= |rows|
  {
    if |rows| > 0 {
      TradeIdsAtMostRows(rows[1..]);
      assert TradeIds(rows) == {rows[0].tradeId} + TradeIds(rows[1..]);
    }
  }

  /** The "Total Trades" KPI: `f['trade_id'].nunique()`. It is zero exactly
      for no rows and never exceeds the row count. */
  function TotalTrades(rows: seq<Trade>): (n: nat)
    ensures n <= |rows|
    ensures n == 0 <==> |rows| == 0
  {
    TradeIdsAtMostRows(rows);
    assert |rows| > 0 ==> rows[0].tradeId in TradeIds(rows);
    |TradeIds(rows)|
  }

  lemma KeysDistinctCons(rows: seq<Trade>)
    requires |rows| > 0
    ensures KeysDistinct(rows, TradeIdOf) <==>
            KeysDistinct(rows[1..], TradeIdOf) && rows[0].tradeId !in TradeIds(rows[1..])
  {
    var tail := rows[1..];
    if KeysDistinct(rows, TradeIdOf) {
      forall i, j | 0 <= i < j < |tail| ensures TradeIdOf(tail[i]) != TradeIdOf(tail[j]) {
        assert tail[i] == rows[i + 1] && tail[j] == rows[j + 1];
      }
      forall i | 0 <= i < |tail| ensures tail[i].tradeId != rows[0].tradeId {
        assert tail[i] == rows[i + 1];
      }
    }
    if KeysDistinct(tail, TradeIdOf) && rows[0].tradeId !in TradeIds(tail) {
      forall i, j | 0 <= i < j < |rows| ensures TradeIdOf(rows[i]) != TradeIdOf(rows[j]) {
        assert rows[j] == tail[j - 1];
        if i > 0 {
          assert rows[i] == tail[i - 1];
        }
      }
    }
  }

  /** The distinct count never exceeds the row count, and reaches it exactly
      when no trade id repeats. */
  lemma {:induction false} TotalTradesBound(rows: seq<Trade>)
    ensures TotalTrades(rows) <= |rows|
    ensures TotalTrades(rows) == |rows| <==> KeysDistinct(rows, TradeIdOf)
  {
    if |rows| > 0 {
      var tail := rows[1..];
      TotalTradesBound(tail);
      KeysDistinctCons(rows);
      assert TradeIds(rows) == {rows[0].tradeId} + TradeIds(tail);
    }
  }

  /** The KPI counts distinct ids, while the summary's `trades` column counts
      rows: the KPI is at most the column total, equal exactly when no id repeats. */
  lemma TotalTradesVersusSummary(ts: seq<Trade>)
    ensures TotalTrades(ts) as real <= Sum(SummarizeCounterparty(ts), TradesOf)
    ensures TotalTrades(ts) as real == Sum(SummarizeCounterparty(ts), TradesOf) <==> KeysDistinct(ts, TradeIdOf)
  {
    TotalTradesBound(ts);
    SummaryTotals(ts);
  }
}
