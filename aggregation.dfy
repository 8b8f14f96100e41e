/**
 * One minute of analytics: for every firefighter seen in the longest window, the
 * time-weighted average (TWA) and limit gauge of every gas over every configured window,
 * the live readings of that minute and the overall status.
 */
module Aggregation {
  import opened Wrappers
  import opened ExposureConfig
  import opened SensorLog
  import opened Readings
  import opened Coverage
  import opened Quantization
  import opened StatusClassification

  /** TWA and gauge of one firefighter, one gas and one window, before reporting. */
  datatype Cell = Cell(twa: Reading, gauge: Reading)

  /** The cells of one firefighter in one window, by gas. */
  type FfCells = map<Gas, Cell>

  /** The result of one window: the cells of every firefighter it has rows for. */
  type Table = map<FfId, FfCells>

  /** What the analytics table stores for one cell: -1 for range exceeded, null when missing. */
  datatype ReportedCell = ReportedCell(twa: Option<real>, gauge: Option<real>)

  /** The readings of the minute itself, if the firefighter has a row in that minute. */
  datatype LiveReadings = LiveReadings(gases: map<Gas, Option<real>>, telemetry: map<string, real>)

  /** One row of the analytics table, for one firefighter and the minute being computed. */
  datatype AnalyticsRow = AnalyticsRow(
    results: map<nat, map<Gas, ReportedCell>>,
    live: Option<LiveReadings>,
    status: Option<Status>)

  function GasSet(c: Config): set<Gas> {
    set g | g in c.supportedGases
  }

  /** One firefighter's rows never share a minute: the device sends one row per minute. */
  ghost predicate OneRowPerMinute(log: seq<SensorRow>) {
    forall p, q :: p in log && q in log && p.ff == q.ff && p.ts == q.ts ==> p == q
  }

  // ---------------------------------------------------------------------------------
  // One window

  /** The masked samples of gas g in some rows. */
  function Samples(rows: seq<SensorRow>, g: Gas): (s: seq<Reading>)
    ensures |s| == |rows|
    ensures forall k :: 0 <= k < |rows| ==> s[k] == Tag(GasValue(rows[k], g))
  {
    seq(|rows|, k requires 0 <= k < |rows| => Tag(GasValue(rows[k], g)))
  }

  function SpanOf(spans: Spans, f: FfId): Option<Span> {
    if f in spans then Some(spans[f]) else None
  }

  /**
   * The TWA of one gas over a window of len minutes ending at t: the mean of the available
   * samples, times the share of the window the firefighter's span covers (missing without
   * a span), rounded to k decimals.
   */
  function WindowTwa(samples: seq<Reading>, span: Option<Span>, t: int, len: int, k: nat): Reading
    requires len > 0
  {
    var scaled := match span
      case None => Absent
      case Some(s) => ScaleBy(MeanOf(samples), ProportionOfWindow(s, t, len));
    RoundReading(scaled, k)
  }

  /**
   * The cell of gas g in window i: the TWA of the samples and its gauge against the window's
   * limit for g.
   */
  function WindowCell(c: Config, i: nat, g: Gas, rows: seq<SensorRow>, span: Option<Span>, t: int): (cell: Cell)
    requires WellFormed(c) && i < |c.windows| && g in c.supportedGases && c.windows[i].mins > 0
    ensures CellOk(cell, RoundingFactor(c, g), c.windows[i].gasLimits[g])
  {
    var samples := Samples(rows, g);
    MeanNonNegative(samples);
    var twa := WindowTwa(samples, span, t, c.windows[i].mins, RoundingFactor(c, g));
    Cell(twa, GaugeOf(twa, c.windows[i].gasLimits[g]))
  }

  /**
   * What every cell satisfies: both values non-negative, range exceeded together and missing
   * together, the TWA with at most k decimals, and the gauge the whole number nearest to the
   * TWA as a percentage of the limit.
   */
  ghost predicate CellOk(cell: Cell, k: nat, limit: real)
    requires limit > 0.0
  {
    && NonNegative(cell.twa) && NonNegative(cell.gauge)
    && (cell.twa.RangeExceeded? <==> cell.gauge.RangeExceeded?)
    && (cell.twa.Absent? <==> cell.gauge.Absent?)
    && (cell.twa.Measured? ==> HasAtMostDecimals(cell.twa.ppm, k))
    && (cell.gauge.Measured? ==>
          && HasAtMostDecimals(cell.gauge.ppm, 0)
          && cell.twa.ppm * 100.0 / limit - 0.5 <= cell.gauge.ppm
          && cell.gauge.ppm <= cell.twa.ppm * 100.0 / limit + 0.5)
  }

  /** The cells of one firefighter in window i, from their rows in that window. */
  function FfTable(c: Config, i: nat, rows: seq<SensorRow>, span: Option<Span>, t: int): (cells: FfCells)
    requires WellFormed(c) && i < |c.windows| && c.windows[i].mins > 0
    ensures cells.Keys == GasSet(c)
  {
    map g | g in c.supportedGases :: WindowCell(c, i, g, rows, span, t)
  }

  /** The table of window i: a cell per supported gas for each firefighter with rows in the window. */
  function WindowTable(c: Config, grid: map<FfId, Track>, spans: Spans, t: int, i: nat): (table: Table)
    requires WellFormed(c) && i < |c.windows|
    ensures forall f :: f in table ==> table[f].Keys == GasSet(c)
  {
    var len := c.windows[i].mins;
    if len <= 0 then map[]
    else
      map f | f in grid && InWindow(grid[f], t, len) ::
        FfTable(c, i, WindowRows(grid[f], t, len), SpanOf(spans, f), t)
  }

  /** Window i holds some row of some firefighter (otherwise the source skips it). */
  predicate WindowHasRows(c: Config, grid: map<FfId, Track>, t: int, i: nat)
    requires i < |c.windows|
  {
    c.windows[i].mins > 0 && exists f :: f in grid && InWindow(grid[f], t, c.windows[i].mins)
  }

  /** The tables of windows 0 .. n - 1, keyed by window index; a window with no rows is skipped. */
  function WindowTables(c: Config, grid: map<FfId, Track>, spans: Spans, t: int, n: nat): (tables: map<nat, Table>)
    requires WellFormed(c) && n <= |c.windows|
    ensures forall i: nat :: i in tables <==> i < n && WindowHasRows(c, grid, t, i)
  {
    if n == 0 then map[]
    else
      var before := WindowTables(c, grid, spans, t, n - 1);
      if WindowHasRows(c, grid, t, n - 1) then before[n - 1 := WindowTable(c, grid, spans, t, n - 1)] else before
  }

  /** The table kept for window i is that window's table. */
  lemma {:induction false} WindowTablesValue(c: Config, grid: map<FfId, Track>, spans: Spans, t: int, n: nat, i: nat)
    requires WellFormed(c) && n <= |c.windows| && i in WindowTables(c, grid, spans, t, n)
    ensures i < n && WindowTables(c, grid, spans, t, n)[i] == WindowTable(c, grid, spans, t, i)
  {
    var before := WindowTables(c, grid, spans, t, n - 1);
    if i != n - 1 {
      assert WindowTables(c, grid, spans, t, n)[i] == before[i];
      WindowTablesValue(c, grid, spans, t, n - 1, i);
    }
  }

  /** One more window adds its table, unless it is empty. */
  lemma WindowTablesStep(c: Config, grid: map<FfId, Track>, spans: Spans, t: int, i: nat)
    requires WellFormed(c) && i < |c.windows|
    ensures WindowTables(c, grid, spans, t, i + 1) ==
      if WindowHasRows(c, grid, t, i) then WindowTables(c, grid, spans, t, i)[i := WindowTable(c, grid, spans, t, i)]
      else WindowTables(c, grid, spans, t, i)
  {
  }

  // ---------------------------------------------------------------------------------
  // Rows of the analytics table

  function CellGauges(cells: FfCells, gases: seq<Gas>): (gs: seq<Reading>)
    ensures |gs| == |gases|
  {
    seq(|gases|, k requires 0 <= k < |gases| => if gases[k] in cells then cells[gases[k]].gauge else Absent)
  }

  /** Every gauge of firefighter f in the tables of windows 0 .. n - 1. */
  function GaugesOf(c: Config, tables: map<nat, Table>, f: FfId, n: nat): seq<Reading> {
    if n == 0 then []
    else
      GaugesOf(c, tables, f, n - 1)
      + (if n - 1 in tables && f in tables[n - 1] then CellGauges(tables[n - 1][f], c.supportedGases) else [])
  }

  function ReportCell(cell: Cell): ReportedCell {
    ReportedCell(Report(cell.twa), Report(cell.gauge))
  }

  /** The live readings of a row: supported gases masked and reported, everything else as sent. */
  function LiveFrom(c: Config, r: SensorRow): (live: LiveReadings)
    ensures live.gases.Keys == r.gases.Keys + GasSet(c)
    ensures forall g :: g in GasSet(c) ==>
      && (live.gases[g] == Some(RangeExceededCode as real) <==> GasValue(r, g).Some? && GasValue(r, g).value < 0.0)
      && (live.gases[g].None? <==> GasValue(r, g).None?)
      && (GasValue(r, g).Some? && GasValue(r, g).value >= 0.0 ==> live.gases[g] == GasValue(r, g))
    ensures forall g :: g in r.gases && g !in GasSet(c) ==> live.gases[g] == r.gases[g]
    ensures live.telemetry == r.telemetry
  {
    LiveReadings(
      map g | g in r.gases.Keys + GasSet(c) ::
        if g in GasSet(c) then Report(Tag(GasValue(r, g))) else r.gases[g],
      r.telemetry)
  }

  /** The reported cells of firefighter f, by window index and gas. */
  function WindowResults(tables: map<nat, Table>, f: FfId): map<nat, map<Gas, ReportedCell>> {
    map i | i in tables && f in tables[i] :: map g | g in tables[i][f] :: ReportCell(tables[i][f][g])
  }

  /** The live readings of minute t, when the grid holds a row for it. */
  function LiveAt(c: Config, tr: Track, t: int): Option<LiveReadings> {
    match SlotAt(tr, t)
    case None => None
    case Some(r) => Some(LiveFrom(c, r))
  }

  function RowFor(c: Config, grid: map<FfId, Track>, tables: map<nat, Table>, f: FfId, t: int): AnalyticsRow
    requires f in grid && BinsIncrease(c.yellowWarningPercent)
  {
    AnalyticsRow(
      WindowResults(tables, f),
      LiveAt(c, grid[f], t),
      StatusOf(GaugesOf(c, tables, f, |c.windows|), c.yellowWarningPercent))
  }

  /** A row for every firefighter with live readings or a result in some window. */
  function AssembleRows(c: Config, grid: map<FfId, Track>, tables: map<nat, Table>, t: int): map<FfId, AnalyticsRow>
    requires BinsIncrease(c.yellowWarningPercent)
  {
    map f | f in grid && (SlotAt(grid[f], t).Some? || exists i :: i in tables && f in tables[i]) ::
      RowFor(c, grid, tables, f, t)
  }

  /** The rows of the longest window ending at t: minutes t - longest + 1 .. t. */
  function LongestSlice(c: Config, chunk: seq<SensorRow>, t: int): seq<SensorRow>
    requires |c.windows| > 0
  {
    RowsBetween(chunk, t - LongestWindowMins(c.windows) + 1, t)
  }

  /** The one-row-per-minute grids of the longest window ending at t. */
  function GridOf(c: Config, chunk: seq<SensorRow>, t: int): map<FfId, Track>
    requires |c.windows| > 0
  {
    Quantize(LongestSlice(c, chunk, t))
  }

  /** The tables of every configured window at minute t. */
  function TablesOf(c: Config, chunk: seq<SensorRow>, spans: Spans, t: int): map<nat, Table>
    requires WellFormed(c)
  {
    WindowTables(c, GridOf(c, chunk, t), spans, t, |c.windows|)
  }

  /** The analytics of minute t from a chunk of the log and the coverage spans. */
  function AnalyticsFor(c: Config, chunk: seq<SensorRow>, spans: Spans, t: int): map<FfId, AnalyticsRow>
    requires WellFormed(c) && BinsIncrease(c.yellowWarningPercent)
  {
    AssembleRows(c, GridOf(c, chunk, t), TablesOf(c, chunk, spans, t), t)
  }

  /** The loop over the configured windows, collecting each window's table. */
  method CalculateTwaAndGaugeForAllFirefighters(c: Config, chunk: seq<SensorRow>, spans: Spans, t: int)
    returns (analytics: map<FfId, AnalyticsRow>)
    requires WellFormed(c) && BinsIncrease(c.yellowWarningPercent)
    ensures analytics == AnalyticsFor(c, chunk, spans, t)
  {
    var grid := GridOf(c, chunk, t);
    var calculations: map<nat, Table> := map[];
    var i := 0;
    while i < |c.windows|
      invariant 0 <= i <= |c.windows|
      invariant calculations == WindowTables(c, grid, spans, t, i)
    {
      WindowTablesStep(c, grid, spans, t, i);
      if WindowHasRows(c, grid, t, i) {
        var table := WindowTable(c, grid, spans, t, i);
        // never more rows in a window than it has minutes, per firefighter
        forall f | f in table
          ensures |WindowRows(grid[f], t, c.windows[i].mins)| <= c.windows[i].mins
        {
          WindowRowsAtMostLen(grid[f], t, c.windows[i].mins);
        }
        calculations := calculations[i := table];
      }
      i := i + 1;
    }
    assert calculations == TablesOf(c, chunk, spans, t);
    analytics := AssembleRows(c, grid, calculations, t);
  }
}
