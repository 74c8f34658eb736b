/** The cleaner (`load_and_clean`, after `read_csv`) and the counterparty
    summary (`summarize_counterparty`) of etl/transform_trades.py. */
module TransformTrades {
  import opened Wrappers
  import opened Seqs
  import opened Sorting
  import opened Dates

  /** `REQUIRED`: the eight columns every trade file must have. */
  const Required: seq<string> :=
    ["trade_id", "counterparty", "asset_class", "currency", "trade_type", "trade_date", "notional", "pnl"]

  /** The columns of the cleaned table: the required ones plus the derived ones. */
  const CleanedColumns: seq<string> := Required + ["notional_mn", "year", "month"]

  /** One row of a trade file as read from disk: every cell is text or missing. */
  datatype RawRow = RawRow(
    tradeId: Option<string>, counterparty: Option<string>, assetClass: Option<string>,
    currency: Option<string>, tradeType: Option<string>, tradeDate: Option<string>,
    notional: Option<string>, pnl: Option<string>)

  /** A trade file: its header and its rows. */
  datatype RawTable = RawTable(columns: seq<string>, rows: seq<RawRow>)

  /** A row after `trade_date`, `notional` and `pnl` have been coerced. */
  datatype CoercedRow = CoercedRow(
    tradeId: Option<string>, counterparty: Option<string>, assetClass: Option<string>,
    currency: Option<string>, tradeType: Option<string>, tradeDate: Option<Date>,
    notional: Option<real>, pnl: Option<real>)

  /** A cleaned trade: every required field present, plus the derived
      `notional_mn`, `year` and `month`. */
  datatype Trade = Trade(
    tradeId: string, counterparty: string, assetClass: string, currency: string, tradeType: string,
    tradeDate: Date, notional: real, pnl: real, notionalMn: real, year: int, month: int)

  /** The `ValueError` raised for a file that lacks required columns, with the
      missing names in `REQUIRED` order. */
  datatype SchemaError = MissingColumns(missing: seq<string>)

  /** The required columns absent from a header, in `REQUIRED` order. */
  function AbsentRequired(columns: seq<string>): (missing: seq<string>)
    ensures forall c :: c in missing <==> c in Required && c !in columns
  {
    Filter(Required, (c: string) => c !in columns)
  }

  /** `v` is the coerced value of `cell`: present exactly when the cell holds
      text that `parse` accepts, and then the parsed value. */
  predicate CoercedFrom<T(==)>(parse: string -> Option<T>, cell: Option<string>, v: Option<T>)
  {
    (v.Some? <==> cell.Some? && parse(cell.value).Some?) && (v.Some? ==> cell.Some? && parse(cell.value) == v)
  }

  /** `errors="coerce"` on one cell: a missing cell stays missing and a value
      the parser rejects becomes missing. */
  function Coerce<T(==)>(parse: string -> Option<T>, cell: Option<string>): (v: Option<T>)
    ensures CoercedFrom(parse, cell, v)
  {
    match cell
    case None => None
    case Some(text) => parse(text)
  }

  /** etl/transform_trades.py lines 13-15 on one row: `pd.to_datetime` on
      `trade_date`, `pd.to_numeric` on `notional` and `pnl`; the other cells
      are untouched. */
  function CoerceRow(parseDate: string -> Option<Date>, parseNumber: string -> Option<real>, r: RawRow): (c: CoercedRow)
    ensures c.tradeId == r.tradeId && c.counterparty == r.counterparty && c.assetClass == r.assetClass
    ensures c.currency == r.currency && c.tradeType == r.tradeType
    ensures CoercedFrom(parseDate, r.tradeDate, c.tradeDate)
    ensures CoercedFrom(parseNumber, r.notional, c.notional) && CoercedFrom(parseNumber, r.pnl, c.pnl)
  {
    CoercedRow(r.tradeId, r.counterparty, r.assetClass, r.currency, r.tradeType,
               Coerce(parseDate, r.tradeDate), Coerce(parseNumber, r.notional), Coerce(parseNumber, r.pnl))
  }

  /** No required field is missing. */
  predicate Complete(c: CoercedRow)
  {
    c.tradeId.Some? && c.counterparty.Some? && c.assetClass.Some? && c.currency.Some? &&
    c.tradeType.Some? && c.tradeDate.Some? && c.notional.Some? && c.pnl.Some?
  }

  /** etl/transform_trades.py lines 17-19 on one complete row: the present
      fields are kept and the derived ones agree with them. */
  function DeriveRow(c: CoercedRow): (t: Trade)
    requires Complete(c)
    ensures Some(t.tradeId) == c.tradeId && Some(t.counterparty) == c.counterparty
    ensures Some(t.assetClass) == c.assetClass && Some(t.currency) == c.currency && Some(t.tradeType) == c.tradeType
    ensures Some(t.tradeDate) == c.tradeDate && Some(t.notional) == c.notional && Some(t.pnl) == c.pnl
    ensures DerivedFieldsHold(t) && 1 <= t.month <= 12
  {
    var d := c.tradeDate.value;
    Trade(c.tradeId.value, c.counterparty.value, c.assetClass.value, c.currency.value, c.tradeType.value,
          d, c.notional.value, c.pnl.value, c.notional.value / 1000000.0, d.year, d.month)
  }

  /** The coerced table, row by row. */
  function CoerceColumns(parseDate: string -> Option<Date>, parseNumber: string -> Option<real>, rows: seq<RawRow>): (cs: seq<CoercedRow>)
    ensures |cs| == |rows|
    ensures forall i :: 0 <= i < |rows| ==> cs[i] == CoerceRow(parseDate, parseNumber, rows[i])
  {
    seq(|rows|, i requires 0 <= i < |rows| => CoerceRow(parseDate, parseNumber, rows[i]))
  }

  /** `dropna(subset=REQUIRED)`: drops every row with a missing required field. */
  function DropIncomplete(cs: seq<CoercedRow>): (kept: seq<CoercedRow>)
    ensures |kept| <= |cs|
    ensures forall c :: c in kept <==> c in cs && Complete(c)
  {
    Filter(cs, Complete)
  }

  /** Adds the derived columns to every row. */
  function DeriveFields(kept: seq<CoercedRow>): (ts: seq<Trade>)
    requires forall c :: c in kept ==> Complete(c)
    ensures |ts| == |kept|
  {
    seq(|kept|, k requires 0 <= k < |kept| => DeriveRow(kept[k]))
  }

  /** The rows that `load_and_clean` returns for a file whose header passes the schema check. */
  function CleanRows(parseDate: string -> Option<Date>, parseNumber: string -> Option<real>, rows: seq<RawRow>): (ts: seq<Trade>)
    ensures |ts| <= |rows|
  {
    DeriveFields(DropIncomplete(CoerceColumns(parseDate, parseNumber, rows)))
  }

  /** `load_and_clean` after `read_csv`. The schema check fails exactly when a
      required column is absent, naming those columns; otherwise the result is
      the coerced, filtered and derived table. */
  method LoadAndClean(table: RawTable, parseDate: string -> Option<Date>, parseNumber: string -> Option<real>)
    returns (res: Result<seq<Trade>, SchemaError>)
    ensures res.Failure? <==> exists c :: c in Required && c !in table.columns
    ensures res.Failure? ==> res.error == MissingColumns(AbsentRequired(table.columns))
    ensures res.Success? ==> res.value == CleanRows(parseDate, parseNumber, table.rows)
  {
    var missing := AbsentRequired(table.columns);
    if |missing| > 0 {
      assert missing[0] in missing;
      return Failure(MissingColumns(missing));
    }
    var df := CoerceColumns(parseDate, parseNumber, table.rows);
    var kept := DropIncomplete(df);
    var cleaned := DeriveFields(kept);
    return Success(cleaned);
  }

  /** The raw row `r` survives cleaning. */
  predicate Survives(parseDate: string -> Option<Date>, parseNumber: string -> Option<real>, r: RawRow)
  {
    Complete(CoerceRow(parseDate, parseNumber, r))
  }

  /** The derived columns agree with the row they were derived from. */
  predicate DerivedFieldsHold(t: Trade)
  {
    t.notionalMn == t.notional / 1000000.0 && t.year == t.tradeDate.year && t.month == t.tradeDate.month
  }

  /** `t` is the raw row `r` after cleaning: the untouched cells are `r`'s,
      the coerced ones are `r`'s text as parsed, and the derived ones follow. */
  ghost predicate CleanedFrom(parseDate: string -> Option<Date>, parseNumber: string -> Option<real>, r: RawRow, t: Trade)
  {
    && r.tradeId == Some(t.tradeId) && r.counterparty == Some(t.counterparty)
    && r.assetClass == Some(t.assetClass) && r.currency == Some(t.currency) && r.tradeType == Some(t.tradeType)
    && r.tradeDate.Some? && parseDate(r.tradeDate.value) == Some(t.tradeDate)
    && r.notional.Some? && parseNumber(r.notional.value) == Some(t.notional)
    && r.pnl.Some? && parseNumber(r.pnl.value) == Some(t.pnl)
    && DerivedFieldsHold(t)
  }

  /** The positions of the raw rows that survive cleaning. */
  function SurvivingRows(parseDate: string -> Option<Date>, parseNumber: string -> Option<real>, rows: seq<RawRow>): seq<int>
  {
    Indices(CoerceColumns(parseDate, parseNumber, rows), Complete)
  }

  /** The cleaned table holds exactly the raw rows whose required cells are all
      present and parse, in their original order, each with its values
      unchanged and its derived fields computed from them. */
  lemma CleanRowsExactly(parseDate: string -> Option<Date>, parseNumber: string -> Option<real>, rows: seq<RawRow>)
    ensures var ix, out := SurvivingRows(parseDate, parseNumber, rows), CleanRows(parseDate, parseNumber, rows);
      && |out| == |ix|
      && (forall k, l :: 0 <= k < l < |ix| ==> ix[k] < ix[l])
      && (forall i :: 0 <= i < |rows| ==> (Survives(parseDate, parseNumber, rows[i]) <==> i in ix))
      && (forall k :: 0 <= k < |ix| ==> 0 <= ix[k] < |rows| && CleanedFrom(parseDate, parseNumber, rows[ix[k]], out[k]))
  {
    var cs := CoerceColumns(parseDate, parseNumber, rows);
    FilterKeepsExactly(cs, Complete);
  }

  /** Every cleaned row has all required fields and consistent derived fields,
      with a month between 1 and 12. */
  lemma CleanRowsWellFormed(parseDate: string -> Option<Date>, parseNumber: string -> Option<real>, rows: seq<RawRow>)
    ensures forall t :: t in CleanRows(parseDate, parseNumber, rows) ==> DerivedFieldsHold(t) && 1 <= t.month <= 12
  {
  }

  lemma {:induction false} CoerceColumnsAppend(
    parseDate: string -> Option<Date>, parseNumber: string -> Option<real>, a: seq<RawRow>, b: seq<RawRow>)
    ensures CoerceColumns(parseDate, parseNumber, a + b)
         == CoerceColumns(parseDate, parseNumber, a) + CoerceColumns(parseDate, parseNumber, b)
  {
  }

  lemma {:induction false} DeriveFieldsAppend(a: seq<CoercedRow>, b: seq<CoercedRow>)
    requires forall c :: c in a + b ==> Complete(c)
    ensures DeriveFields(a + b) == DeriveFields(a) + DeriveFields(b)
  {
  }

  /** A raw row that does not survive (a missing required cell, or a date or
      number that does not parse) is dropped without a trace: the other rows
      are cleaned exactly as if it were not there. */
  lemma InvalidRowDropped(
    parseDate: string -> Option<Date>, parseNumber: string -> Option<real>, before: seq<RawRow>, r: RawRow, after: seq<RawRow>)
    requires !Survives(parseDate, parseNumber, r)
    ensures CleanRows(parseDate, parseNumber, before + [r] + after) == CleanRows(parseDate, parseNumber, before + after)
  {
    var pd, pn := parseDate, parseNumber;
    CoerceColumnsAppend(pd, pn, before + [r], after);
    CoerceColumnsAppend(pd, pn, before, [r]);
    CoerceColumnsAppend(pd, pn, before, after);
    var cb, cr, ca := CoerceColumns(pd, pn, before), CoerceColumns(pd, pn, [r]), CoerceColumns(pd, pn, after);
    FilterAppend(cb + cr, ca, Complete);
    FilterAppend(cb, cr, Complete);
    FilterAppend(cb, ca, Complete);
    assert Filter(cr, Complete) == [];
  }

  /** The scenario of a row whose `trade_date` is unparseable text. */
  lemma UnparseableDateDropped(
    parseDate: string -> Option<Date>, parseNumber: string -> Option<real>, before: seq<RawRow>, r: RawRow, after: seq<RawRow>)
    requires r.tradeDate.Some? && parseDate(r.tradeDate.value).None?
    ensures CleanRows(parseDate, parseNumber, before + [r] + after) == CleanRows(parseDate, parseNumber, before + after)
  {
    InvalidRowDropped(parseDate, parseNumber, before, r, after);
  }

  /** A cleaned trade written back as text (what `to_csv` writes). */
  function RenderRow(showDate: Date -> string, showNumber: real -> string, t: Trade): RawRow
  {
    RawRow(Some(t.tradeId), Some(t.counterparty), Some(t.assetClass), Some(t.currency), Some(t.tradeType),
           Some(showDate(t.tradeDate)), Some(showNumber(t.notional)), Some(showNumber(t.pnl)))
  }

  function Render(showDate: Date -> string, showNumber: real -> string, ts: seq<Trade>): (rows: seq<RawRow>)
    ensures |rows| == |ts|
    ensures forall i :: 0 <= i < |ts| ==> rows[i] == RenderRow(showDate, showNumber, ts[i])
  {
    seq(|ts|, i requires 0 <= i < |ts| => RenderRow(showDate, showNumber, ts[i]))
  }

  /** The cleaned table's own header passes the schema check. */
  lemma CleanedColumnsPassSchema()
    ensures AbsentRequired(CleanedColumns) == []
  {
    FilterKeepsNone(Required, (c: string) => c !in CleanedColumns);
  }

  /** Cleaning is idempotent: a cleaned table, written out as text and cleaned
      again, comes back unchanged, derived fields included, provided the
      parsers read back what is written: every date, and the amounts of the
      cleaned rows (its header passes the schema check by
      `CleanedColumnsPassSchema`). */
  lemma CleanIsIdempotent(
    parseDate: string -> Option<Date>, parseNumber: string -> Option<real>,
    showDate: Date -> string, showNumber: real -> string, rows: seq<RawRow>)
    requires forall d :: parseDate(showDate(d)) == Some(d)
    requires forall t :: t in CleanRows(parseDate, parseNumber, rows) ==>
               parseNumber(showNumber(t.notional)) == Some(t.notional) && parseNumber(showNumber(t.pnl)) == Some(t.pnl)
    ensures var out := CleanRows(parseDate, parseNumber, rows);
      CleanRows(parseDate, parseNumber, Render(showDate, showNumber, out)) == out
  {
    var out := CleanRows(parseDate, parseNumber, rows);
    var written := Render(showDate, showNumber, out);
    var cs := CoerceColumns(parseDate, parseNumber, written);
    forall c | c in cs ensures Complete(c) {
      var k :| 0 <= k < |cs| && cs[k] == c;
      assert out[k] in out;
    }
    FilterKeepsAll(cs, Complete);
    var again := CleanRows(parseDate, parseNumber, written);
    forall k | 0 <= k < |out| ensures again[k] == out[k] {
      assert out[k] in out;
      assert DerivedFieldsHold(out[k]);
    }
  }

  /** One row of the counterparty summary. */
  datatype CounterpartySummary = CounterpartySummary(
    counterparty: string, totalExposureMn: real, trades: nat, pnlTotal: real, pnlAvg: real)

  function CounterpartyOf(t: Trade): string { t.counterparty }
  function AssetClassOf(t: Trade): string { t.assetClass }
  function NotionalOf(t: Trade): real { t.notional }
  function NotionalMnOf(t: Trade): real { t.notionalMn }
  function PnlOf(t: Trade): real { t.pnl }

  function SummaryCounterpartyOf(g: CounterpartySummary): string { g.counterparty }
  function TotalExposureOf(g: CounterpartySummary): real { g.totalExposureMn }
  function TradesOf(g: CounterpartySummary): real { g.trades as real }
  function PnlTotalOf(g: CounterpartySummary): real { g.pnlTotal }

  /** The aggregates of one counterparty's group: the row count (at least
      one), the exposure and P&L sums, and the mean, which times the count
      gives back the P&L total. */
  function SummaryOf(ts: seq<Trade>, cp: string): (g: CounterpartySummary)
    requires CountWhere(ts, CounterpartyOf, cp) > 0
    ensures g.counterparty == cp && g.trades >= 1
    ensures g.pnlAvg * g.trades as real == g.pnlTotal
  {
    var n := CountWhere(ts, CounterpartyOf, cp);
    var total := SumWhere(ts, CounterpartyOf, cp, PnlOf);
    CounterpartySummary(cp, SumWhere(ts, CounterpartyOf, cp, NotionalMnOf), n, total, total / n as real)
  }

  function Summaries(ts: seq<Trade>, cps: seq<string>): (r: seq<CounterpartySummary>)
    requires forall c :: c in cps ==> CountWhere(ts, CounterpartyOf, c) > 0
    ensures |r| == |cps|
    ensures forall i :: 0 <= i < |cps| ==> r[i] == SummaryOf(ts, cps[i])
  {
    if |cps| == 0 then [] else [SummaryOf(ts, cps[0])] + Summaries(ts, cps[1..])
  }

  /** `summarize_counterparty`: group by counterparty, aggregate, sort by
      total exposure descending. */
  function SummarizeCounterparty(ts: seq<Trade>): (r: seq<CounterpartySummary>)
    ensures NonIncreasing(r, TotalExposureOf)
  {
    var cps := GroupKeys(ts, CounterpartyOf);
    assert forall c :: c in cps ==> CountWhere(ts, CounterpartyOf, c) > 0;
    SortDesc(Summaries(ts, cps), TotalExposureOf)
  }

  /** Each summary row aggregates exactly its counterparty's rows: `trades`
      counts every row (not distinct `trade_id`s) and is at least one, the
      totals are the group sums, and `pnl_avg` is their mean. */
  lemma SummaryRowsAggregateGroups(ts: seq<Trade>)
    ensures forall g :: g in SummarizeCounterparty(ts) ==>
      && g.trades == CountWhere(ts, CounterpartyOf, g.counterparty) && g.trades >= 1
      && g.totalExposureMn == SumWhere(ts, CounterpartyOf, g.counterparty, NotionalMnOf)
      && g.pnlTotal == SumWhere(ts, CounterpartyOf, g.counterparty, PnlOf)
      && g.pnlAvg == g.pnlTotal / g.trades as real
  {
    var cps := GroupKeys(ts, CounterpartyOf);
    var groups := Summaries(ts, cps);
    SortDescSameRows(groups, TotalExposureOf);
  }

  /** No counterparty has two summary rows. */
  lemma SummaryCounterpartiesDistinct(ts: seq<Trade>)
    ensures KeysDistinct(SummarizeCounterparty(ts), SummaryCounterpartyOf)
  {
    var cps := GroupKeys(ts, CounterpartyOf);
    var groups := Summaries(ts, cps);
    assert KeysDistinct(groups, SummaryCounterpartyOf);
    SortDescKeepsKeysDistinct(groups, TotalExposureOf, SummaryCounterpartyOf);
  }

  /** Every summary row is the group of a counterparty that occurs in the input. */
  lemma SummaryRowsComeFromInput(ts: seq<Trade>)
    ensures forall g :: g in SummarizeCounterparty(ts) ==>
              exists i :: 0 <= i < |ts| && ts[i].counterparty == g.counterparty
  {
    var cps := GroupKeys(ts, CounterpartyOf);
    var groups := Summaries(ts, cps);
    var r := SummarizeCounterparty(ts);
    assert r == SortDesc(groups, TotalExposureOf);
    SortDescSameRows(groups, TotalExposureOf);
    forall g | g in r
      ensures exists i :: 0 <= i < |ts| && ts[i].counterparty == g.counterparty
    {
      assert g in groups;
      var j :| 0 <= j < |groups| && groups[j] == g;
      assert g.counterparty == cps[j];
      assert cps[j] in cps;
      var i :| 0 <= i < |ts| && CounterpartyOf(ts[i]) == cps[j];
    }
  }

  /** Every counterparty that occurs in the input has a summary row. */
  lemma SummaryCoversInput(ts: seq<Trade>)
    ensures forall i :: 0 <= i < |ts| ==>
              exists g :: g in SummarizeCounterparty(ts) && g.counterparty == ts[i].counterparty
  {
    var cps := GroupKeys(ts, CounterpartyOf);
    var groups := Summaries(ts, cps);
    SortDescSameRows(groups, TotalExposureOf);
    forall i | 0 <= i < |ts|
      ensures exists g :: g in SummarizeCounterparty(ts) && g.counterparty == ts[i].counterparty
    {
      var c := ts[i].counterparty;
      assert CounterpartyOf(ts[i]) == c;
      assert c in cps;
      var j :| 0 <= j < |cps| && cps[j] == c;
      assert groups[j] in groups;
    }
  }

  lemma {:induction false} SummariesSums(ts: seq<Trade>, cps: seq<string>)
    requires forall c :: c in cps ==> CountWhere(ts, CounterpartyOf, c) > 0
    ensures Sum(Summaries(ts, cps), TradesOf) == SumOverKeys(ts, CounterpartyOf, One, cps)
    ensures Sum(Summaries(ts, cps), TotalExposureOf) == SumOverKeys(ts, CounterpartyOf, NotionalMnOf, cps)
    ensures Sum(Summaries(ts, cps), PnlTotalOf) == SumOverKeys(ts, CounterpartyOf, PnlOf, cps)
  {
    if |cps| > 0 {
      assert Summaries(ts, cps)[1..] == Summaries(ts, cps[1..]);
      CountIsSumOfOnes(ts, CounterpartyOf, cps[0]);
      SummariesSums(ts, cps[1..]);
    }
  }

  /** The summary reconciles with the table: the `trades` column adds up to
      the row count, and the exposure and P&L columns to the table's
      `notional_mn` and `pnl` totals. */
  lemma SummaryTotals(ts: seq<Trade>)
    ensures Sum(SummarizeCounterparty(ts), TradesOf) == |ts| as real
    ensures Sum(SummarizeCounterparty(ts), TotalExposureOf) == Sum(ts, NotionalMnOf)
    ensures Sum(SummarizeCounterparty(ts), PnlTotalOf) == Sum(ts, PnlOf)
  {
    var cps := GroupKeys(ts, CounterpartyOf);
    var groups := Summaries(ts, cps);
    var out := SummarizeCounterparty(ts);
    SumPermutation(out, groups, TradesOf);
    SumPermutation(out, groups, TotalExposureOf);
    SumPermutation(out, groups, PnlTotalOf);
    SummariesSums(ts, cps);
    GroupSumsPartition(ts, CounterpartyOf, One, cps);
    GroupSumsPartition(ts, CounterpartyOf, NotionalMnOf, cps);
    GroupSumsPartition(ts, CounterpartyOf, PnlOf, cps);
    SumOfOnes(ts);
  }
}
