/**
 * What the analytics of one minute promise: which firefighters and windows get results,
 * what a reported cell can hold, how the range-exceeded sentinel propagates, and how the
 * status follows from the gauges.
 */
module AggregationFacts {
  import opened Wrappers
  import opened ExposureConfig
  import opened SensorLog
  import opened Readings
  import opened Coverage
  import opened Quantization
  import opened StatusClassification
  import opened Aggregation

  // ---------------------------------------------------------------------------------
  // Tables

  /** Window i holds a firefighter exactly when the window has positive length and rows of theirs. */
  lemma WindowTableEntry(c: Config, grid: map<FfId, Track>, spans: Spans, t: int, i: nat, f: FfId)
    requires WellFormed(c) && i < |c.windows|
    ensures f in WindowTable(c, grid, spans, t, i) <==>
      (c.windows[i].mins > 0 && f in grid && InWindow(grid[f], t, c.windows[i].mins))
    ensures f in WindowTable(c, grid, spans, t, i) ==>
      WindowTable(c, grid, spans, t, i)[f] ==
        FfTable(c, i, WindowRows(grid[f], t, c.windows[i].mins), SpanOf(spans, f), t)
  {
  }

  /** The collected tables hold, for window i, exactly the firefighters with rows in that window. */
  lemma TablesEntry(c: Config, grid: map<FfId, Track>, spans: Spans, t: int, i: nat, f: FfId)
    requires WellFormed(c)
    ensures var tables := WindowTables(c, grid, spans, t, |c.windows|);
      (i in tables && f in tables[i]) <==>
        (i < |c.windows| && c.windows[i].mins > 0 && f in grid && InWindow(grid[f], t, c.windows[i].mins))
    ensures var tables := WindowTables(c, grid, spans, t, |c.windows|);
      i in tables && f in tables[i] ==>
        tables[i][f] == FfTable(c, i, WindowRows(grid[f], t, c.windows[i].mins), SpanOf(spans, f), t)
  {
    var tables := WindowTables(c, grid, spans, t, |c.windows|);
    if i in tables {
      WindowTablesValue(c, grid, spans, t, |c.windows|, i);
      WindowTableEntry(c, grid, spans, t, i, f);
    }
  }

  // ---------------------------------------------------------------------------------
  // Cells

  /**
   * A sentinel sample in the window makes both the TWA and the gauge range exceeded, as
   * long as the firefighter's span overlaps the window.
   */
  lemma SentinelCell(c: Config, i: nat, g: Gas, rows: seq<SensorRow>, span: Option<Span>, t: int, k: nat)
    requires WellFormed(c) && i < |c.windows| && g in c.supportedGases && c.windows[i].mins > 0
    requires k < |rows| && GasValue(rows[k], g).Some? && GasValue(rows[k], g).value < 0.0
    requires span.Some? && OverlapMins(span.value, t, c.windows[i].mins) > 0
    ensures WindowCell(c, i, g, rows, span, t) == Cell(RangeExceeded, RangeExceeded)
  {
    MeanDominatedBySentinel(Samples(rows, g), k);
  }

  /**
   * At a firefighter's first-ever reading their span starts at t, so every TWA and gauge is 0
   * or missing. A sentinel in that minute is lost: infinity times a zero share is NaN.
   */
  lemma FirstMinuteCell(c: Config, i: nat, g: Gas, rows: seq<SensorRow>, span: Option<Span>, t: int)
    requires WellFormed(c) && i < |c.windows| && g in c.supportedGases && c.windows[i].mins > 0
    requires span.Some? && span.value.dataStart >= t
    ensures var cell := WindowCell(c, i, g, rows, span, t);
      (cell == Cell(Measured(0.0), Measured(0.0)) || cell == Cell(Absent, Absent))
  {
    var p := ProportionOfWindow(span.value, t, c.windows[i].mins);
    assert p == 0.0;
    var mean := MeanOf(Samples(rows, g));
    if mean.Measured? {
      assert ScaleBy(mean, p) == Measured(0.0);
      assert HasAtMostDecimals(0.0, RoundingFactor(c, g));
      assert HasAtMostDecimals(0.0, 0);
    }
  }

  // ---------------------------------------------------------------------------------
  // Gauges and status of a row

  /** What a row is built from: one cell per supported gas for each window entry, non-negative gauges. */
  ghost predicate GoodTables(c: Config, tables: map<nat, Table>, f: FfId) {
    forall i :: i in tables && f in tables[i] ==>
      && i < |c.windows|
      && tables[i][f].Keys == GasSet(c)
      && (forall g :: g in tables[i][f] ==> NonNegative(tables[i][f][g].gauge))
  }

  lemma TablesAreGood(c: Config, grid: map<FfId, Track>, spans: Spans, t: int, f: FfId)
    requires WellFormed(c)
    ensures GoodTables(c, WindowTables(c, grid, spans, t, |c.windows|), f)
  {
    var tables: map<nat, Table> := WindowTables(c, grid, spans, t, |c.windows|);
    forall i: nat | i in tables && f in tables[i]
      ensures i < |c.windows| && tables[i][f].Keys == GasSet(c)
      ensures forall g :: g in tables[i][f] ==> NonNegative(tables[i][f][g].gauge)
    {
      TablesEntry(c, grid, spans, t, i, f);
      forall g | g in tables[i][f] ensures NonNegative(tables[i][f][g].gauge) {
        var cell := WindowCell(c, i, g, WindowRows(grid[f], t, c.windows[i].mins), SpanOf(spans, f), t);
        assert CellOk(cell, RoundingFactor(c, g), c.windows[i].gasLimits[g]);
      }
    }
  }

  /** The gauges of firefighter f's entries in the tables of windows 0 .. n - 1. */
  ghost function EntryGauges(tables: map<nat, Table>, f: FfId, n: nat): set<Reading> {
    set i: nat, g | i < n && i in tables && f in tables[i] && g in tables[i][f] :: tables[i][f][g].gauge
  }

  /** The gauges a row's status is computed from are exactly the gauges of its window entries. */
  lemma {:induction false} GaugesOfMembers(c: Config, tables: map<nat, Table>, f: FfId, n: nat)
    requires GoodTables(c, tables, f)
    ensures forall x :: x in GaugesOf(c, tables, f, n) <==> x in EntryGauges(tables, f, n)
  {
    if n > 0 {
      GaugesOfMembers(c, tables, f, n - 1);
      forall x ensures x in GaugesOf(c, tables, f, n) <==> x in EntryGauges(tables, f, n) {
        GaugesStep(c, tables, f, n, x);
      }
    }
  }

  /** One step of GaugesOfMembers, for one gauge x: window n - 1 adds the gauges of its entry. */
  lemma GaugesStep(c: Config, tables: map<nat, Table>, f: FfId, n: nat, x: Reading)
    requires GoodTables(c, tables, f) && n > 0
    requires x in GaugesOf(c, tables, f, n - 1) <==> x in EntryGauges(tables, f, n - 1)
    ensures x in GaugesOf(c, tables, f, n) <==> x in EntryGauges(tables, f, n)
  {
    if x in EntryGauges(tables, f, n) {
      var i: nat, g :| i < n && i in tables && f in tables[i] && g in tables[i][f] && x == tables[i][f][g].gauge;
      if i < n - 1 {
        assert x in EntryGauges(tables, f, n - 1);
      } else {
        LastEntryGauge(c, tables, f, n, g);
      }
    }
    if x in GaugesOf(c, tables, f, n) {
      if x in GaugesOf(c, tables, f, n - 1) {
        var i: nat, g :| i < n - 1 && i in tables && f in tables[i] && g in tables[i][f] && x == tables[i][f][g].gauge;
        assert x in EntryGauges(tables, f, n);
      } else {
        NewGaugeIsEntry(c, tables, f, n, x);
      }
    }
  }

  /** The gauge of gas g in window n - 1's entry is among the first n windows' gauges. */
  lemma LastEntryGauge(c: Config, tables: map<nat, Table>, f: FfId, n: nat, g: Gas)
    requires GoodTables(c, tables, f) && n > 0
    requires n - 1 in tables && f in tables[n - 1] && g in tables[n - 1][f]
    ensures tables[n - 1][f][g].gauge in GaugesOf(c, tables, f, n)
  {
    var extra := CellGauges(tables[n - 1][f], c.supportedGases);
    assert GaugesOf(c, tables, f, n) == GaugesOf(c, tables, f, n - 1) + extra;
    assert g in GasSet(c);
    var j :| 0 <= j < |c.supportedGases| && c.supportedGases[j] == g;
    assert extra[j] == tables[n - 1][f][g].gauge;
  }

  /** A gauge the n-th window adds is the gauge of some gas in that window's entry. */
  lemma NewGaugeIsEntry(c: Config, tables: map<nat, Table>, f: FfId, n: nat, x: Reading)
    requires GoodTables(c, tables, f) && n > 0
    requires x in GaugesOf(c, tables, f, n) && x !in GaugesOf(c, tables, f, n - 1)
    ensures x in EntryGauges(tables, f, n)
  {
    var here := n - 1 in tables && f in tables[n - 1];
    var extra := if here then CellGauges(tables[n - 1][f], c.supportedGases) else [];
    assert GaugesOf(c, tables, f, n) == GaugesOf(c, tables, f, n - 1) + extra;
    assert here;
    var j :| 0 <= j < |extra| && extra[j] == x;
    var g := c.supportedGases[j];
    assert g in GasSet(c);
    assert x == tables[n - 1][f][g].gauge;
  }

  /** Every gauge a row reports, over all its windows and gases. */
  function ReportedGauges(results: map<nat, map<Gas, ReportedCell>>): set<Option<real>> {
    set i, g | i in results && g in results[i] :: results[i][g].gauge
  }

  /** The reported gauges of a row are the reports of the gauges its status is computed from. */
  lemma RowGauges(c: Config, tables: map<nat, Table>, f: FfId)
    requires GoodTables(c, tables, f)
    ensures ReportsOf(GaugesOf(c, tables, f, |c.windows|), ReportedGauges(WindowResults(tables, f)))
  {
    var results := WindowResults(tables, f);
    var gs := GaugesOf(c, tables, f, |c.windows|);
    GaugesOfMembers(c, tables, f, |c.windows|);
    forall x | x in gs ensures NonNegative(x) && Report(x) in ReportedGauges(results) {
      assert x in EntryGauges(tables, f, |c.windows|);
      var i: nat, g :| i < |c.windows| && i in tables && f in tables[i] && g in tables[i][f]
        && x == tables[i][f][g].gauge;
      assert results[i][g] == ReportCell(tables[i][f][g]);
    }
    forall y | y in ReportedGauges(results) ensures exists x :: x in gs && Report(x) == y {
      var i, g :| i in results && g in results[i] && y == results[i][g].gauge;
      var x := tables[i][f][g].gauge;
      assert x in EntryGauges(tables, f, |c.windows|);
    }
  }

  /** s is the set of reports of the non-negative gauges gs. */
  ghost predicate ReportsOf(gs: seq<Reading>, s: set<Option<real>>) {
    && (forall x :: x in gs ==> NonNegative(x) && Report(x) in s)
    && (forall y :: y in s ==> exists x :: x in gs && Report(x) == y)
  }

  /**
   * The status a row must carry given the gauges s it reports (-1 for the sentinel, null
   * when missing): unavailable when no gauge is reported; RANGE_EXCEEDED when one is -1 or
   * above 99000; otherwise GREEN, YELLOW or RED as the largest reported gauge falls in
   * [0, y - 1], (y - 1, 99] or (99, 99000].
   */
  ghost predicate StatusMatchesGauges(status: Option<Status>, s: set<Option<real>>, y: real) {
    && (status.None? <==> forall x :: x in s ==> x.None?)
    && (status == Some(RangeExceededStatus) <==>
          (Some(RangeExceededCode as real) in s || exists x :: x in s && x.Some? && x.value > RedRangeEnd))
    && (status == Some(Green) <==>
          && (exists x :: x in s && x.Some?)
          && (forall x :: x in s && x.Some? ==> 0.0 <= x.value <= y - 1.0))
    && (status == Some(Yellow) <==>
          && (exists x :: x in s && x.Some? && x.value > y - 1.0)
          && (forall x :: x in s && x.Some? ==> 0.0 <= x.value <= RedRangeStart))
    && (status == Some(Red) <==>
          && (exists x :: x in s && x.Some? && x.value > RedRangeStart)
          && (forall x :: x in s && x.Some? ==> 0.0 <= x.value <= RedRangeEnd))
  }

  /** The classified maximum of the gauges is the status their reports call for. */
  lemma StatusFromReports(gs: seq<Reading>, s: set<Option<real>>, y: real)
    requires BinsIncrease(y) && ReportsOf(gs, s)
    ensures StatusMatchesGauges(StatusOf(gs, y), s, y)
  {
    assert forall k :: 0 <= k < |gs| ==> NonNegative(gs[k]) && Report(gs[k]) in s;
    StatusUnavailableIff(gs, y);
    StatusRangeExceededIff(gs, y);
    StatusGreenIff(gs, y);
    StatusYellowIff(gs, y);
    StatusRedIff(gs, y);
  }

  /** Gauges that are all 0 or missing give GREEN or an unavailable status. */
  lemma ZeroGaugesStatus(status: Option<Status>, s: set<Option<real>>, y: real)
    requires BinsIncrease(y) && StatusMatchesGauges(status, s, y)
    requires forall x :: x in s ==> x == Some(0.0) || x == None
    ensures status == Some(Green) || status.None?
  {
    if exists x :: x in s && x.Some? {
      assert forall x :: x in s && x.Some? ==> 0.0 <= x.value <= y - 1.0;
    }
  }

  /** Cells that are all 0 or missing report gauges that are all 0 or missing. */
  lemma ZeroCellsGauges(results: map<nat, map<Gas, ReportedCell>>)
    requires forall i, g :: i in results && g in results[i] ==>
      results[i][g] in {ReportedCell(Some(0.0), Some(0.0)), ReportedCell(None, None)}
    ensures forall x :: x in ReportedGauges(results) ==> x == Some(0.0) || x == None
  {
    forall x | x in ReportedGauges(results) ensures x == Some(0.0) || x == None {
      var i, g :| i in results && g in results[i] && x == results[i][g].gauge;
    }
  }

  // ---------------------------------------------------------------------------------
  // The analytics of one minute, from the log chunk

  /** A row of the analytics is the row assembled for that firefighter from the grids and tables. */
  lemma AnalyticsEntry(c: Config, chunk: seq<SensorRow>, spans: Spans, t: int, f: FfId)
    requires WellFormed(c) && BinsIncrease(c.yellowWarningPercent)
    requires f in AnalyticsFor(c, chunk, spans, t)
    ensures f in GridOf(c, chunk, t)
    ensures AnalyticsFor(c, chunk, spans, t)[f] == RowFor(c, GridOf(c, chunk, t), TablesOf(c, chunk, spans, t), f, t)
  {
  }

  /** A firefighter of the grid who is in window i gets a row with a result for that window. */
  lemma InWindowGivesResult(c: Config, chunk: seq<SensorRow>, spans: Spans, t: int, f: FfId, i: nat)
    requires WellFormed(c) && BinsIncrease(c.yellowWarningPercent)
    requires i < |c.windows| && c.windows[i].mins > 0
    requires f in GridOf(c, chunk, t) && InWindow(GridOf(c, chunk, t)[f], t, c.windows[i].mins)
    ensures f in AnalyticsFor(c, chunk, spans, t) && i in AnalyticsFor(c, chunk, spans, t)[f].results
  {
    TablesEntry(c, GridOf(c, chunk, t), spans, t, i, f);
    assert i in TablesOf(c, chunk, spans, t) && f in TablesOf(c, chunk, spans, t)[i];
  }

  /** A row has a result for window i exactly when the firefighter is in that window of the grid. */
  lemma ResultsIff(c: Config, chunk: seq<SensorRow>, spans: Spans, t: int, f: FfId, i: nat)
    requires WellFormed(c) && BinsIncrease(c.yellowWarningPercent)
    requires f in AnalyticsFor(c, chunk, spans, t)
    ensures i in AnalyticsFor(c, chunk, spans, t)[f].results <==>
      (i < |c.windows| && c.windows[i].mins > 0 && InWindow(GridOf(c, chunk, t)[f], t, c.windows[i].mins))
  {
    AnalyticsEntry(c, chunk, spans, t, f);
    TablesEntry(c, GridOf(c, chunk, t), spans, t, i, f);
  }

  /** The reported cell of window i and gas g is the cell computed from the firefighter's window rows. */
  lemma ResultCell(c: Config, chunk: seq<SensorRow>, spans: Spans, t: int, f: FfId, i: nat, g: Gas)
    requires WellFormed(c) && BinsIncrease(c.yellowWarningPercent)
    requires f in AnalyticsFor(c, chunk, spans, t) && i in AnalyticsFor(c, chunk, spans, t)[f].results
    ensures i < |c.windows| && c.windows[i].mins > 0
    ensures g in AnalyticsFor(c, chunk, spans, t)[f].results[i] <==> g in c.supportedGases
    ensures g in c.supportedGases ==>
      AnalyticsFor(c, chunk, spans, t)[f].results[i][g] ==
        ReportCell(WindowCell(c, i, g, WindowRows(GridOf(c, chunk, t)[f], t, c.windows[i].mins), SpanOf(spans, f), t))
  {
    AnalyticsEntry(c, chunk, spans, t, f);
    TablesEntry(c, GridOf(c, chunk, t), spans, t, i, f);
  }

  /**
   * The analytics hold a row for a firefighter exactly when the chunk has a row of theirs
   * captured in the longest window ending at t.
   */
  lemma AnalyticsRowsIff(c: Config, chunk: seq<SensorRow>, spans: Spans, t: int, f: FfId)
    requires WellFormed(c) && BinsIncrease(c.yellowWarningPercent)
    ensures f in AnalyticsFor(c, chunk, spans, t) <==>
      exists r :: r in chunk && r.ff == f && t - LongestWindowMins(c.windows) + 1 <= r.ts <= t
  {
    var longest := LongestWindowMins(c.windows);
    var slice := LongestSlice(c, chunk, t);
    var grid := GridOf(c, chunk, t);
    var tables := TablesOf(c, chunk, spans, t);
    if exists r :: r in chunk && r.ff == f && t - longest + 1 <= r.ts <= t {
      var r :| r in chunk && r.ff == f && t - longest + 1 <= r.ts <= t;
      InWindowFromRow(slice, r, t, longest);
      var j :| 0 <= j < |c.windows| && c.windows[j].mins == longest;
      TablesEntry(c, grid, spans, t, j, f);
      assert j in tables && f in tables[j];
    }
    if f in AnalyticsFor(c, chunk, spans, t) {
      assert HasRowsFor(slice, f);
      var k :| 0 <= k < |slice| && slice[k].ff == f;
      assert slice[k] in slice;
    }
  }

  /**
   * A firefighter with a row captured in window i gets a result for it; a result for window i
   * means a row of theirs captured in the window or in the minute just before it (the
   * one-minute fill), and a cell for every supported gas.
   */
  lemma WindowResultIff(c: Config, chunk: seq<SensorRow>, spans: Spans, t: int, f: FfId, i: nat)
    requires WellFormed(c) && BinsIncrease(c.yellowWarningPercent)
    requires f in AnalyticsFor(c, chunk, spans, t)
    ensures (i < |c.windows| && exists r :: r in chunk && r.ff == f && t - c.windows[i].mins + 1 <= r.ts <= t) ==>
      i in AnalyticsFor(c, chunk, spans, t)[f].results
    ensures i in AnalyticsFor(c, chunk, spans, t)[f].results ==>
      && i < |c.windows| && c.windows[i].mins > 0
      && (exists r :: r in chunk && r.ff == f && t - c.windows[i].mins <= r.ts <= t
            && t - LongestWindowMins(c.windows) + 1 <= r.ts)
    ensures i in AnalyticsFor(c, chunk, spans, t)[f].results ==>
      forall g :: g in AnalyticsFor(c, chunk, spans, t)[f].results[i] <==> g in c.supportedGases
  {
    var slice := LongestSlice(c, chunk, t);
    var results := AnalyticsFor(c, chunk, spans, t)[f].results;
    ResultsIff(c, chunk, spans, t, f, i);
    if i < |c.windows| && exists r :: r in chunk && r.ff == f && t - c.windows[i].mins + 1 <= r.ts <= t {
      var r :| r in chunk && r.ff == f && t - c.windows[i].mins + 1 <= r.ts <= t;
      assert r in slice;
      InWindowFromRow(slice, r, t, c.windows[i].mins);
    }
    if i in results {
      AnalyticsEntry(c, chunk, spans, t, f);
      var r := RowFromInWindow(slice, f, t, c.windows[i].mins);
      assert r in chunk && t - c.windows[i].mins <= r.ts <= t && t - LongestWindowMins(c.windows) + 1 <= r.ts;
      forall g ensures g in results[i] <==> g in c.supportedGases {
        ResultCell(c, chunk, spans, t, f, i, g);
      }
    }
  }

  /** What the properties of a cell say about the cell as reported. */
  lemma ReportCellFacts(cell: Cell, k: nat, limit: real)
    requires limit > 0.0 && CellOk(cell, k, limit)
    ensures ReportedCellOk(ReportCell(cell), k, limit)
  {
  }

  /**
   * A reported cell: -1 for the TWA exactly when -1 for the gauge, null for one exactly when
   * null for the other; otherwise a non-negative TWA with at most k decimals and a
   * non-negative whole-number gauge within half a point of TWA * 100 / limit.
   */
  ghost predicate ReportedCellOk(cell: ReportedCell, k: nat, limit: real)
    requires limit > 0.0
  {
    && (cell.twa == Some(RangeExceededCode as real) <==> cell.gauge == Some(RangeExceededCode as real))
    && (cell.twa.None? <==> cell.gauge.None?)
    && (cell.twa.Some? && cell.twa != Some(RangeExceededCode as real) ==>
          && 0.0 <= cell.twa.value && HasAtMostDecimals(cell.twa.value, k)
          && cell.gauge.Some? && 0.0 <= cell.gauge.value && HasAtMostDecimals(cell.gauge.value, 0)
          && cell.twa.value * 100.0 / limit - 0.5 <= cell.gauge.value
          && cell.gauge.value <= cell.twa.value * 100.0 / limit + 0.5)
  }

  /** Every reported cell of the analytics satisfies ReportedCellOk for its gas and window. */
  lemma ReportedCellFacts(c: Config, chunk: seq<SensorRow>, spans: Spans, t: int, f: FfId, i: nat, g: Gas)
    requires WellFormed(c) && BinsIncrease(c.yellowWarningPercent)
    requires f in AnalyticsFor(c, chunk, spans, t) && i in AnalyticsFor(c, chunk, spans, t)[f].results
    requires g in c.supportedGases
    ensures i < |c.windows| && g in AnalyticsFor(c, chunk, spans, t)[f].results[i]
    ensures ReportedCellOk(AnalyticsFor(c, chunk, spans, t)[f].results[i][g], RoundingFactor(c, g), c.windows[i].gasLimits[g])
  {
    ResultCell(c, chunk, spans, t, f, i, g);
    var cell := WindowCell(c, i, g, WindowRows(GridOf(c, chunk, t)[f], t, c.windows[i].mins), SpanOf(spans, f), t);
    ReportCellFacts(cell, RoundingFactor(c, g), c.windows[i].gasLimits[g]);
  }

  /** The status of a row is the one its reported gauges call for. */
  lemma AnalyticsStatus(c: Config, chunk: seq<SensorRow>, spans: Spans, t: int, f: FfId)
    requires WellFormed(c) && BinsIncrease(c.yellowWarningPercent)
    requires f in AnalyticsFor(c, chunk, spans, t)
    ensures StatusMatchesGauges(AnalyticsFor(c, chunk, spans, t)[f].status,
      ReportedGauges(AnalyticsFor(c, chunk, spans, t)[f].results), c.yellowWarningPercent)
  {
    AnalyticsEntry(c, chunk, spans, t, f);
    var tables := TablesOf(c, chunk, spans, t);
    TablesAreGood(c, GridOf(c, chunk, t), spans, t, f);
    RowGauges(c, tables, f);
    StatusFromReports(GaugesOf(c, tables, f, |c.windows|), ReportedGauges(WindowResults(tables, f)), c.yellowWarningPercent);
  }

  /**
   * One range-exceeded sample dominates: with one row per firefighter and minute, a negative
   * reading of gas g captured in window i makes that window's TWA and gauge for g the -1
   * sentinel, however low the other samples are, as long as the firefighter's span overlaps
   * the window.
   */
  lemma SentinelReported(c: Config, chunk: seq<SensorRow>, spans: Spans, t: int, i: nat, g: Gas, r: SensorRow)
    requires WellFormed(c) && BinsIncrease(c.yellowWarningPercent) && OneRowPerMinute(chunk)
    requires i < |c.windows| && g in c.supportedGases
    requires r in chunk && t - c.windows[i].mins + 1 <= r.ts <= t
    requires GasValue(r, g).Some? && GasValue(r, g).value < 0.0
    requires r.ff in spans && OverlapMins(spans[r.ff], t, c.windows[i].mins) > 0
    ensures r.ff in AnalyticsFor(c, chunk, spans, t)
    ensures i in AnalyticsFor(c, chunk, spans, t)[r.ff].results && g in AnalyticsFor(c, chunk, spans, t)[r.ff].results[i]
    ensures AnalyticsFor(c, chunk, spans, t)[r.ff].results[i][g] ==
      ReportedCell(Some(RangeExceededCode as real), Some(RangeExceededCode as real))
  {
    var f := r.ff;
    var mins := c.windows[i].mins;
    var slice := LongestSlice(c, chunk, t);
    assert mins <= LongestWindowMins(c.windows);
    assert r in slice;
    ObservedRowAppears(slice, r, t, mins);
    var rows := WindowRows(GridOf(c, chunk, t)[f], t, mins);
    InWindowGivesResult(c, chunk, spans, t, f, i);
    ResultCell(c, chunk, spans, t, f, i, g);
    var k :| 0 <= k < |rows| && rows[k] == r;
    SentinelCell(c, i, g, rows, SpanOf(spans, f), t, k);
  }

  /** The same sentinel makes the firefighter's status RANGE_EXCEEDED. */
  lemma SentinelDominates(c: Config, chunk: seq<SensorRow>, spans: Spans, t: int, i: nat, g: Gas, r: SensorRow)
    requires WellFormed(c) && BinsIncrease(c.yellowWarningPercent) && OneRowPerMinute(chunk)
    requires i < |c.windows| && g in c.supportedGases
    requires r in chunk && t - c.windows[i].mins + 1 <= r.ts <= t
    requires GasValue(r, g).Some? && GasValue(r, g).value < 0.0
    requires r.ff in spans && OverlapMins(spans[r.ff], t, c.windows[i].mins) > 0
    ensures r.ff in AnalyticsFor(c, chunk, spans, t)
    ensures AnalyticsFor(c, chunk, spans, t)[r.ff].status == Some(RangeExceededStatus)
  {
    SentinelReported(c, chunk, spans, t, i, g, r);
    var row := AnalyticsFor(c, chunk, spans, t)[r.ff];
    assert g in row.results[i];
    assert Some(RangeExceededCode as real) in ReportedGauges(row.results);
    AnalyticsStatus(c, chunk, spans, t, r.ff);
  }

  /**
   * At a firefighter's first-ever reading (their span starts at t) every TWA and gauge is 0 or
   * missing, never the -1 sentinel even for a range-exceeded sample.
   */
  lemma FirstReadingCells(c: Config, chunk: seq<SensorRow>, spans: Spans, t: int, f: FfId)
    requires WellFormed(c) && BinsIncrease(c.yellowWarningPercent)
    requires f in AnalyticsFor(c, chunk, spans, t) && f in spans && spans[f].dataStart >= t
    ensures forall i, g :: i in AnalyticsFor(c, chunk, spans, t)[f].results && g in AnalyticsFor(c, chunk, spans, t)[f].results[i] ==>
      AnalyticsFor(c, chunk, spans, t)[f].results[i][g] in {ReportedCell(Some(0.0), Some(0.0)), ReportedCell(None, None)}
  {
    var row := AnalyticsFor(c, chunk, spans, t)[f];
    forall i, g | i in row.results && g in row.results[i]
      ensures row.results[i][g] in {ReportedCell(Some(0.0), Some(0.0)), ReportedCell(None, None)}
    {
      ResultCell(c, chunk, spans, t, f, i, g);
      FirstMinuteCell(c, i, g, WindowRows(GridOf(c, chunk, t)[f], t, c.windows[i].mins), SpanOf(spans, f), t);
    }
  }

  /** ... and its status is GREEN or unavailable. */
  lemma FirstReadingStatus(c: Config, chunk: seq<SensorRow>, spans: Spans, t: int, f: FfId)
    requires WellFormed(c) && BinsIncrease(c.yellowWarningPercent)
    requires f in AnalyticsFor(c, chunk, spans, t) && f in spans && spans[f].dataStart >= t
    ensures AnalyticsFor(c, chunk, spans, t)[f].status == Some(Green) || AnalyticsFor(c, chunk, spans, t)[f].status.None?
  {
    var row := AnalyticsFor(c, chunk, spans, t)[f];
    FirstReadingCells(c, chunk, spans, t, f);
    ZeroCellsGauges(row.results);
    AnalyticsStatus(c, chunk, spans, t, f);
    ZeroGaugesStatus(row.status, ReportedGauges(row.results), c.yellowWarningPercent);
  }

  /**
   * A row carries live readings exactly when the chunk has a row of that firefighter captured
   * in minute t itself (the one-minute fill never reaches past the last row); with one row per
   * firefighter and minute they are that row's readings.
   */
  lemma LiveIff(c: Config, chunk: seq<SensorRow>, spans: Spans, t: int, f: FfId)
    requires WellFormed(c) && BinsIncrease(c.yellowWarningPercent)
    requires f in AnalyticsFor(c, chunk, spans, t)
    ensures LiveMatches(c, chunk, f, t, AnalyticsFor(c, chunk, spans, t)[f].live)
  {
    AnalyticsLive(c, chunk, spans, t, f);
    LiveInGrid(c, chunk, t, f, AnalyticsFor(c, chunk, spans, t)[f].live);
  }

  /**
   * Live readings are present exactly when the chunk has a row of f captured in minute t,
   * and with one row per firefighter and minute they are that row's readings.
   */
  ghost predicate LiveMatches(c: Config, chunk: seq<SensorRow>, f: FfId, t: int, live: Option<LiveReadings>) {
    && (live.Some? <==> exists r :: r in chunk && r.ff == f && r.ts == t)
    && (OneRowPerMinute(chunk) ==>
          forall r :: r in chunk && r.ff == f && r.ts == t ==> live == Some(LiveFrom(c, r)))
  }

  /** LiveIff on the grid of the longest window, whatever the rest of the analytics. */
  lemma LiveInGrid(c: Config, chunk: seq<SensorRow>, t: int, f: FfId, live: Option<LiveReadings>)
    requires |c.windows| > 0
    requires f in GridOf(c, chunk, t) && live == LiveAt(c, GridOf(c, chunk, t)[f], t)
    ensures LiveMatches(c, chunk, f, t, live)
  {
    var lo := t - LongestWindowMins(c.windows) + 1;
    var slice := LongestSlice(c, chunk, t);
    LiveAtFacts(c, slice, f, t);
    assert HasRowsFor(slice, f);
    var j :| 0 <= j < |slice| && slice[j].ff == f;
    assert slice[j] in slice;
    assert lo <= t;
    forall r | r in chunk && r.ff == f && r.ts == t
      ensures ObservedAt(slice, f, t)
    {
      assert r in slice;
      var k :| 0 <= k < |slice| && slice[k] == r;
    }
    if ObservedAt(slice, f, t) {
      var r' :| r' in slice && r'.ff == f && r'.ts == t && live == Some(LiveFrom(c, r'));
      assert r' in chunk;
      if OneRowPerMinute(chunk) {
        forall r | r in chunk && r.ff == f && r.ts == t ensures live == Some(LiveFrom(c, r)) {
          assert r == r';
        }
      }
    }
  }

  /** The live readings of a row are those of its grid's slot at minute t. */
  lemma AnalyticsLive(c: Config, chunk: seq<SensorRow>, spans: Spans, t: int, f: FfId)
    requires WellFormed(c) && BinsIncrease(c.yellowWarningPercent)
    requires f in AnalyticsFor(c, chunk, spans, t)
    ensures f in GridOf(c, chunk, t)
    ensures AnalyticsFor(c, chunk, spans, t)[f].live == LiveAt(c, GridOf(c, chunk, t)[f], t)
  {
    AnalyticsEntry(c, chunk, spans, t, f);
  }

  /**
   * On rows that end at minute t, a firefighter's grid has live readings at t exactly when
   * one of its rows is captured in t, and they are taken from such a row.
   */
  lemma LiveAtFacts(c: Config, rows: seq<SensorRow>, f: FfId, t: int)
    requires forall r :: r in rows ==> r.ts <= t
    ensures f in Quantize(rows) ==> (LiveAt(c, Quantize(rows)[f], t).Some? <==> ObservedAt(rows, f, t))
    ensures f in Quantize(rows) && ObservedAt(rows, f, t) ==>
      exists r :: r in rows && r.ff == f && r.ts == t && LiveAt(c, Quantize(rows)[f], t) == Some(LiveFrom(c, r))
  {
    LastMinuteSlotIff(rows, f, t);
    if ObservedAt(rows, f, t) {
      ObservedMinuteSlot(rows, f, t);
      var r := SlotAt(Quantize(rows)[f], t).value;
      assert r in rows && r.ff == f && r.ts == t;
    }
  }
}
