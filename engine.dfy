/**
 * The engine object: it holds the accepted configuration and the cache of every
 * firefighter's earliest and latest observed minute, reads one block of the sensor log per
 * run and computes that minute's analytics from it.
 */
module Engine {
  import opened Wrappers
  import opened ExposureConfig
  import opened SensorLog
  import opened Coverage
  import opened StatusClassification
  import opened Aggregation
  import opened AggregationFacts
  import opened ConfigValidation

  /**
   * The minute analysed at a wall-clock time given in seconds: the minute before the current
   * one, whose rows have all had a full minute to arrive.
   */
  function MinuteKey(nowSeconds: int): (t: int)
    ensures 60 * (t + 1) <= nowSeconds < 60 * (t + 2)
  {
    nowSeconds / 60 - 1
  }

  /** The first minute of the block ending at blockEnd: one longest window back, both ends included. */
  function BlockStart(c: Config, blockEnd: int): int
    requires |c.windows| > 0
  {
    blockEnd - LongestWindowMins(c.windows) + 1
  }

  /** The cache that records the rows seen since the last reset (nothing cached when none). */
  function CacheOf(seen: seq<SensorRow>): Option<Spans> {
    if seen == [] then None else Some(SpansOf(seen))
  }

  /** What one block read yields: the block, the new cache, and the working copy of the spans. */
  datatype BlockRead = BlockRead(block: seq<SensorRow>, cache: Option<Spans>, working: Option<Spans>)

  /**
   * One block read: the rows of the longest window ending at blockEnd. An empty block resets
   * the cache; otherwise the block's spans are merged into it, and the working copy has every
   * end pushed out by the autofill buffer.
   */
  function ReadBlock(c: Config, cache: Option<Spans>, log: seq<SensorRow>, blockEnd: int): BlockRead
    requires WellFormed(c)
  {
    var block := RowsBetween(log, BlockStart(c, blockEnd), blockEnd);
    if block == [] then BlockRead(block, None, None)
    else
      var merged := MergedSpans(block, cache);
      BlockRead(block, Some(merged), Some(WithAutofill(merged, AutofillMins(c))))
  }

  /** The block's spans merged into the cache, or the block's own spans when nothing is cached. */
  function MergedSpans(block: seq<SensorRow>, cache: Option<Spans>): Spans {
    match cache
    case None => SpansOf(block)
    case Some(m) => MergeSpans(SpansOf(block), m)
  }

  /**
   * The block holds exactly the rows of the last `longest` minutes up to blockEnd; the cache
   * is reset exactly when there are none, and the working copy exists exactly with the cache.
   */
  lemma ReadBlockRows(c: Config, cache: Option<Spans>, log: seq<SensorRow>, blockEnd: int)
    requires WellFormed(c)
    ensures var rd := ReadBlock(c, cache, log, blockEnd);
      forall r :: r in rd.block <==>
        r in log && blockEnd - LongestWindowMins(c.windows) < r.ts <= blockEnd
    ensures var rd := ReadBlock(c, cache, log, blockEnd);
      rd.cache.None? <==>
        forall r :: r in log ==> !(blockEnd - LongestWindowMins(c.windows) < r.ts <= blockEnd)
    ensures var rd := ReadBlock(c, cache, log, blockEnd);
      rd.working.Some? <==> rd.cache.Some?
  {
    var rd := ReadBlock(c, cache, log, blockEnd);
    if rd.block != [] {
      assert rd.block[0] in rd.block;
    }
  }

  /**
   * The cache is the min/max of everything seen since it was last reset: if it recorded the
   * rows seen so far, after a read it records those rows and the new block, or nothing
   * after a reset.
   */
  lemma ReadBlockRecordsSeen(c: Config, seen: seq<SensorRow>, log: seq<SensorRow>, blockEnd: int)
    requires WellFormed(c)
    ensures var rd := ReadBlock(c, CacheOf(seen), log, blockEnd);
      rd.cache == CacheOf(if rd.block == [] then [] else seen + rd.block)
  {
    var block := ReadBlock(c, CacheOf(seen), log, blockEnd).block;
    if block != [] && seen != [] {
      MergeSpansOfBlocks(seen, block);
    }
    if block != [] && seen == [] {
      assert seen + block == block;
    }
  }

  /**
   * A read never narrows a cached span: a start only moves earlier, an end only later, and a
   * firefighter absent from the block keeps the span it had.
   */
  lemma ReadBlockWidens(c: Config, m: Spans, log: seq<SensorRow>, blockEnd: int, f: FfId)
    requires WellFormed(c) && f in m
    requires ReadBlock(c, Some(m), log, blockEnd).block != []
    ensures var m' := ReadBlock(c, Some(m), log, blockEnd).cache;
      m'.Some? && f in m'.value && m'.value[f].dataStart <= m[f].dataStart && m'.value[f].dataEnd >= m[f].dataEnd
    ensures var rd := ReadBlock(c, Some(m), log, blockEnd);
      !HasRowsFor(rd.block, f) ==> rd.cache.value[f] == m[f]
  {
  }

  /**
   * Every row of the block lies in its firefighter's working span, which reaches the autofill
   * buffer past the row.
   */
  lemma ReadBlockCovers(c: Config, cache: Option<Spans>, log: seq<SensorRow>, blockEnd: int, r: SensorRow)
    requires WellFormed(c)
    requires r in ReadBlock(c, cache, log, blockEnd).block
    ensures var rd := ReadBlock(c, cache, log, blockEnd);
      && rd.working.Some? && r.ff in rd.working.value
      && rd.working.value[r.ff].dataStart <= r.ts
      && r.ts + AutofillMins(c) <= rd.working.value[r.ff].dataEnd
  {
    var rd := ReadBlock(c, cache, log, blockEnd);
    var k :| 0 <= k < |rd.block| && rd.block[k] == r;
    assert HasRowsFor(rd.block, r.ff);
    SpansOfIsMinMax(rd.block, r.ff);
  }

  /** Reading the same block again leaves the cache and everything returned as they were. */
  lemma ReadBlockIdempotent(c: Config, cache: Option<Spans>, log: seq<SensorRow>, blockEnd: int)
    requires WellFormed(c)
    ensures var rd := ReadBlock(c, cache, log, blockEnd);
      ReadBlock(c, rd.cache, log, blockEnd) == rd
  {
    var rd := ReadBlock(c, cache, log, blockEnd);
    if rd.block != [] {
      match cache
      case None =>
        MergeIdempotent(SpansOf(rd.block), SpansOf(rd.block));
      case Some(m) =>
        MergeIdempotent(SpansOf(rd.block), m);
    }
  }

  /** What one analytics run yields: the new cache and, unless there was no data, the analytics. */
  datatype Outcome = Outcome(cache: Option<Spans>, analytics: Option<map<FfId, AnalyticsRow>>)

  /** One analytics run at wall-clock time nowSeconds. */
  function Tick(c: Config, cache: Option<Spans>, log: seq<SensorRow>, nowSeconds: int): Outcome
    requires WellFormed(c) && BinsIncrease(c.yellowWarningPercent)
  {
    var t := MinuteKey(nowSeconds);
    var rd := ReadBlock(c, cache, log, t);
    if rd.block == [] then Outcome(rd.cache, None)
    else Outcome(rd.cache, Some(AnalyticsFor(c, rd.block, rd.working.value, t)))
  }

  /**
   * A run has no analytics exactly when the log has no row in the longest window ending at
   * its minute key; otherwise there is a row for exactly the firefighters with such a row.
   */
  lemma TickRows(c: Config, cache: Option<Spans>, log: seq<SensorRow>, nowSeconds: int)
    requires WellFormed(c) && BinsIncrease(c.yellowWarningPercent)
    ensures var t := MinuteKey(nowSeconds);
      Tick(c, cache, log, nowSeconds).analytics.None? <==>
        forall r :: r in log ==> !(t - LongestWindowMins(c.windows) < r.ts <= t)
    ensures var t := MinuteKey(nowSeconds);
      var a := Tick(c, cache, log, nowSeconds).analytics;
      a.Some? ==> forall f :: f in a.value <==>
        exists r :: r in log && r.ff == f && t - LongestWindowMins(c.windows) < r.ts <= t
  {
    var t := MinuteKey(nowSeconds);
    ReadBlockRows(c, cache, log, t);
    var rd := ReadBlock(c, cache, log, t);
    if rd.block != [] {
      forall f ensures f in AnalyticsFor(c, rd.block, rd.working.value, t) <==>
        exists r :: r in log && r.ff == f && t - LongestWindowMins(c.windows) < r.ts <= t
      {
        AnalyticsRowsIff(c, rd.block, rd.working.value, t, f);
      }
    }
  }

  /**
   * End to end, one range-exceeded sample dominates: with one row per firefighter and minute,
   * a negative reading captured in any window ending at the minute key makes the
   * firefighter's status RANGE_EXCEEDED, provided an earlier row of theirs lies in the
   * block (at a first-ever reading the window has no coverage and the sentinel is lost).
   */
  lemma TickSentinel(c: Config, cache: Option<Spans>, log: seq<SensorRow>, nowSeconds: int,
                     i: nat, g: Gas, p: SensorRow, r: SensorRow)
    requires WellFormed(c) && BinsIncrease(c.yellowWarningPercent) && OneRowPerMinute(log)
    requires i < |c.windows| && g in c.supportedGases
    requires var t := MinuteKey(nowSeconds);
      r in log && t - c.windows[i].mins < r.ts <= t
    requires GasValue(r, g).Some? && GasValue(r, g).value < 0.0
    requires p in log && p.ff == r.ff && MinuteKey(nowSeconds) - LongestWindowMins(c.windows) < p.ts < r.ts
    ensures var a := Tick(c, cache, log, nowSeconds).analytics;
      a.Some? && r.ff in a.value && a.value[r.ff].status == Some(RangeExceededStatus)
  {
    var t := MinuteKey(nowSeconds);
    var mins := c.windows[i].mins;
    ReadBlockRows(c, cache, log, t);
    var rd := ReadBlock(c, cache, log, t);
    assert mins <= LongestWindowMins(c.windows);
    assert r in rd.block && p in rd.block;
    ReadBlockCovers(c, cache, log, t, r);
    ReadBlockCovers(c, cache, log, t, p);
    var spans := rd.working.value;
    assert spans[r.ff].dataStart <= p.ts < r.ts <= spans[r.ff].dataEnd;
    assert OverlapMins(spans[r.ff], t, mins) > 0;
    assert OneRowPerMinute(rd.block);
    SentinelDominates(c, rd.block, spans, t, i, g, r);
  }

  /**
   * End to end, the live readings of a firefighter's row are present exactly when the log has
   * a row of theirs captured in the minute key itself.
   */
  lemma TickLive(c: Config, cache: Option<Spans>, log: seq<SensorRow>, nowSeconds: int, f: FfId)
    requires WellFormed(c) && BinsIncrease(c.yellowWarningPercent)
    requires var a := Tick(c, cache, log, nowSeconds).analytics; a.Some? && f in a.value
    ensures var a := Tick(c, cache, log, nowSeconds).analytics;
      a.value[f].live.Some? <==> exists r :: r in log && r.ff == f && r.ts == MinuteKey(nowSeconds)
  {
    var t := MinuteKey(nowSeconds);
    ReadBlockRows(c, cache, log, t);
    var rd := ReadBlock(c, cache, log, t);
    LiveIff(c, rd.block, rd.working.value, t, f);
    assert LongestWindowMins(c.windows) >= 1 by {
      AnalyticsRowsIff(c, rd.block, rd.working.value, t, f);
    }
  }

  /**
   * End to end, a firefighter's first-ever reading gives GREEN or no status, whatever it
   * reads: when nothing earlier of theirs is cached and their only rows in the block are
   * captured in the minute key itself, every window has zero coverage.
   */
  lemma TickFirstReading(c: Config, cache: Option<Spans>, log: seq<SensorRow>, nowSeconds: int, f: FfId)
    requires WellFormed(c) && BinsIncrease(c.yellowWarningPercent)
    requires cache.Some? && f in cache.value ==> cache.value[f].dataStart >= MinuteKey(nowSeconds)
    requires forall r :: r in log && r.ff == f && MinuteKey(nowSeconds) - LongestWindowMins(c.windows) < r.ts ==>
      r.ts >= MinuteKey(nowSeconds)
    requires var a := Tick(c, cache, log, nowSeconds).analytics; a.Some? && f in a.value
    ensures var a := Tick(c, cache, log, nowSeconds).analytics;
      a.value[f].status == Some(Green) || a.value[f].status.None?
  {
    var t := MinuteKey(nowSeconds);
    ReadBlockRows(c, cache, log, t);
    var rd := ReadBlock(c, cache, log, t);
    var spans := rd.working.value;
    AnalyticsRowsIff(c, rd.block, spans, t, f);
    var r :| r in rd.block && r.ff == f && t - LongestWindowMins(c.windows) + 1 <= r.ts <= t;
    ReadBlockFirstStart(c, cache, log, t, r);
    FirstReadingStatus(c, rd.block, spans, t, f);
  }

  /**
   * When nothing earlier of a firefighter is cached and their rows in the block are all
   * captured at blockEnd or later, their working span starts no earlier than blockEnd.
   */
  lemma ReadBlockFirstStart(c: Config, cache: Option<Spans>, log: seq<SensorRow>, blockEnd: int, r: SensorRow)
    requires WellFormed(c)
    requires r in ReadBlock(c, cache, log, blockEnd).block
    requires cache.Some? && r.ff in cache.value ==> cache.value[r.ff].dataStart >= blockEnd
    requires forall q :: q in log && q.ff == r.ff && blockEnd - LongestWindowMins(c.windows) < q.ts ==>
      q.ts >= blockEnd
    ensures var rd := ReadBlock(c, cache, log, blockEnd);
      rd.working.Some? && r.ff in rd.working.value && rd.working.value[r.ff].dataStart >= blockEnd
  {
    var f := r.ff;
    ReadBlockRows(c, cache, log, blockEnd);
    var block := ReadBlock(c, cache, log, blockEnd).block;
    var k :| 0 <= k < |block| && block[k] == r;
    assert HasRowsFor(block, f);
    SpansOfIsMinMax(block, f);
    var j :| 0 <= j < |block| && block[j].ff == f && block[j].ts == SpansOf(block)[f].dataStart;
    assert block[j] in block;
    assert SpansOf(block)[f].dataStart >= blockEnd;
  }

  /** Running the analytics twice for the same minute gives the same cache and the same analytics. */
  lemma TickIdempotent(c: Config, cache: Option<Spans>, log: seq<SensorRow>, nowSeconds: int)
    requires WellFormed(c) && BinsIncrease(c.yellowWarningPercent)
    ensures var once := Tick(c, cache, log, nowSeconds);
      Tick(c, once.cache, log, nowSeconds) == once
  {
    ReadBlockIdempotent(c, cache, log, MinuteKey(nowSeconds));
  }

  class GasExposureAnalytics {
    const config: Config
    /** The earliest and latest observed minute of every firefighter; nothing before the first block. */
    var ffTimeSpansCache: Option<Spans>
    /** The rows read since the cache was last reset. */
    ghost var seen: seq<SensorRow>

    ghost predicate Valid()
      reads this
    {
      && WellFormed(config) && BinsIncrease(config.yellowWarningPercent)
      && ffTimeSpansCache == CacheOf(seen)
    }

    /** An engine over a configuration the validation accepts, with nothing cached. */
    constructor (c: Config)
      requires AcceptsCorrected(c)
      ensures Valid() && config == c && ffTimeSpansCache == None && seen == []
    {
      AcceptsCorrectedIff(c);
      config := c;
      ffTimeSpansCache := None;
      seen := [];
    }

    /**
     * Reads the block of the longest window ending at blockEnd and updates the cache: reset
     * when the block is empty, otherwise merged with the block's spans; returns the block and
     * the working copy of the spans.
     */
    method GetBlockOfSensorReadings(log: seq<SensorRow>, blockEnd: int)
      returns (block: seq<SensorRow>, working: Option<Spans>)
      requires Valid()
      modifies this
      ensures Valid()
      ensures var rd := ReadBlock(config, old(ffTimeSpansCache), log, blockEnd);
        block == rd.block && working == rd.working && ffTimeSpansCache == rd.cache
      ensures seen == if block == [] then [] else old(seen) + block
    {
      var blockStart := blockEnd - LongestWindowMins(config.windows) + 1;
      block := RowsBetween(log, blockStart, blockEnd);
      ghost var rd := ReadBlock(config, ffTimeSpansCache, log, blockEnd);
      ghost var merged := MergedSpans(block, ffTimeSpansCache);
      assert rd.block == block;
      assert block != [] ==> rd.cache == Some(merged) && rd.working == Some(WithAutofill(merged, AutofillMins(config)));
      ReadBlockRecordsSeen(config, seen, log, blockEnd);
      if block == [] {
        ffTimeSpansCache := None;
        seen := [];
        working := None;
      } else {
        var inBlock := SpansOf(block);
        if ffTimeSpansCache.None? {
          ffTimeSpansCache := Some(inBlock);
        } else {
          ffTimeSpansCache := Some(MergeSpans(inBlock, ffTimeSpansCache.value));
        }
        assert ffTimeSpansCache == Some(merged);
        seen := seen + block;
        working := Some(WithAutofill(ffTimeSpansCache.value, AutofillMins(config)));
      }
    }

    /**
     * One analytics run at wall-clock time nowSeconds: nothing when the block is empty,
     * otherwise the analytics of the minute key.
     */
    method RunAnalytics(log: seq<SensorRow>, nowSeconds: int) returns (analytics: Option<map<FfId, AnalyticsRow>>)
      requires Valid()
      modifies this
      ensures Valid()
      ensures var o := Tick(config, old(ffTimeSpansCache), log, nowSeconds);
        ffTimeSpansCache == o.cache && analytics == o.analytics
    {
      var t := MinuteKey(nowSeconds);
      var block, working := GetBlockOfSensorReadings(log, t);
      if block == [] {
        return None;
      }
      var a := CalculateTwaAndGaugeForAllFirefighters(config, block, working.value, t);
      analytics := Some(a);
    }
  }

  /**
   * Opening the engine validates the configuration first: an engine exactly when the
   * validation accepts it.
   */
  method Open(c: Config) returns (engine: Option<GasExposureAnalytics>)
    ensures engine.Some? <==> AcceptsCorrected(c)
    ensures engine.Some? ==>
      fresh(engine.value) && engine.value.Valid() && engine.value.config == c && engine.value.ffTimeSpansCache.None?
  {
    var report := ValidateConfig(c);
    if !Accepts(report) || StrictYellowIssue(c.yellowWarningPercent) {
      return None;
    }
    var e := new GasExposureAnalytics(c);
    engine := Some(e);
  }
}
