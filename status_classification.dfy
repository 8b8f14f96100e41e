/**
 * The overall status of a firefighter for one minute: the largest gauge of every window
 * and gas, cut into bins [0, y - 1], (y - 1, 99], (99, 99000], (99000, infinity].
 */
module StatusClassification {
  import opened Wrappers
  import opened ExposureConfig
  import opened Readings

  datatype Status = Green | Yellow | Red | RangeExceededStatus {
    /** The status code stored in the analytics table. */
    function Code(): int {
      match this
      case Green => GreenCode
      case Yellow => YellowCode
      case Red => RedCode
      case RangeExceededStatus => RangeExceededCode
    }

    /** Severity order: a higher rank is a less safe status. */
    function Rank(): nat {
      match this
      case Green => 0
      case Yellow => 1
      case Red => 2
      case RangeExceededStatus => 3
    }
  }

  /** The bin edges [0, y - 1, 99, 99000] must strictly increase for the cut to be defined. */
  predicate BinsIncrease(y: real) {
    GreenRangeStart < y - 1.0 < RedRangeStart < RedRangeEnd
  }

  /**
   * The cut of one gauge value into the right-closed bins, the lowest edge included; a
   * value below 0 falls in no bin. A gauge of exactly 99 is YELLOW.
   */
  function Classify(gauge: real, y: real): (s: Option<Status>)
    requires BinsIncrease(y)
    ensures s.None? <==> gauge < GreenRangeStart
    ensures s == Some(Green) <==> GreenRangeStart <= gauge <= y - 1.0
    ensures s == Some(Yellow) <==> y - 1.0 < gauge <= RedRangeStart
    ensures s == Some(Red) <==> RedRangeStart < gauge <= RedRangeEnd
    ensures s == Some(RangeExceededStatus) <==> RedRangeEnd < gauge
  {
    if gauge < GreenRangeStart then None
    else if gauge <= y - 1.0 then Some(Green)
    else if gauge <= RedRangeStart then Some(Yellow)
    else if gauge <= RedRangeEnd then Some(Red)
    else Some(RangeExceededStatus)
  }

  /** A higher gauge never yields a safer status. */
  lemma ClassifyMonotone(a: real, b: real, y: real)
    requires BinsIncrease(y)
    requires GreenRangeStart <= a <= b
    ensures Classify(a, y).Some? && Classify(b, y).Some?
    ensures Classify(a, y).value.Rank() <= Classify(b, y).value.Rank()
  {
  }

  /** The row maximum of the gauges, skipping missing ones; infinity dominates. */
  function MaxGauge(gs: seq<Reading>): (m: Reading)
    ensures m == RangeExceeded <==> AnyRangeExceeded(gs)
    ensures m == Absent <==> forall i :: 0 <= i < |gs| ==> gs[i] == Absent
    ensures m.Measured? ==>
      (forall i :: 0 <= i < |gs| && gs[i].Measured? ==> gs[i].ppm <= m.ppm)
      && (exists i :: 0 <= i < |gs| && gs[i] == m)
  {
    if gs == [] then Absent
    else
      var rest := MaxGauge(gs[1..]);
      assert forall i :: 1 <= i < |gs| ==> gs[i] == gs[1..][i - 1];
      assert AnyRangeExceeded(gs) <==> gs[0].RangeExceeded? || AnyRangeExceeded(gs[1..]);
      match gs[0]
      case RangeExceeded => RangeExceeded
      case Absent => rest
      case Measured(v) =>
        match rest
        case RangeExceeded => RangeExceeded
        case Absent => gs[0]
        case Measured(w) => if v >= w then gs[0] else rest
  }

  /** The status of a row from all its gauges: unavailable when there is no gauge at all. */
  function StatusOf(gs: seq<Reading>, y: real): Option<Status>
    requires BinsIncrease(y)
  {
    match MaxGauge(gs)
    case RangeExceeded => Some(RangeExceededStatus)
    case Absent => None
    case Measured(m) => Classify(m, y)
  }

  /** RANGE_EXCEEDED exactly when some gauge carries the sentinel or exceeds 99000%. */
  lemma StatusRangeExceededIff(gs: seq<Reading>, y: real)
    requires BinsIncrease(y)
    requires forall i :: 0 <= i < |gs| ==> NonNegative(gs[i])
    ensures StatusOf(gs, y) == Some(RangeExceededStatus) <==>
      AnyRangeExceeded(gs) || exists i :: 0 <= i < |gs| && gs[i].Measured? && gs[i].ppm > RedRangeEnd
  {
    if !AnyRangeExceeded(gs) && !MaxGauge(gs).Absent? {
      var m := MaxGauge(gs).ppm;
      var k :| 0 <= k < |gs| && gs[k] == MaxGauge(gs);
      assert gs[k].ppm == m;
    }
  }

  /** No gauge at all gives an unavailable status, never GREEN; any gauge gives a status. */
  lemma StatusUnavailableIff(gs: seq<Reading>, y: real)
    requires BinsIncrease(y)
    requires forall i :: 0 <= i < |gs| ==> NonNegative(gs[i])
    ensures StatusOf(gs, y).None? <==> forall i :: 0 <= i < |gs| ==> gs[i] == Absent
  {
    if MaxGauge(gs).Measured? {
      var k :| 0 <= k < |gs| && gs[k] == MaxGauge(gs);
      assert NonNegative(gs[k]);
    }
  }

  /** GREEN exactly when there is a gauge, no sentinel, and every gauge is at most y - 1. */
  lemma StatusGreenIff(gs: seq<Reading>, y: real)
    requires BinsIncrease(y)
    requires forall i :: 0 <= i < |gs| ==> NonNegative(gs[i])
    ensures StatusOf(gs, y) == Some(Green) <==>
      && !AnyRangeExceeded(gs)
      && (exists i :: 0 <= i < |gs| && gs[i].Measured?)
      && (forall i :: 0 <= i < |gs| && gs[i].Measured? ==> gs[i].ppm <= y - 1.0)
  {
    if MaxGauge(gs).Measured? {
      var k :| 0 <= k < |gs| && gs[k] == MaxGauge(gs);
      assert NonNegative(gs[k]);
    }
  }

  /** YELLOW exactly when the largest gauge is above y - 1 but at most 99, with no sentinel. */
  lemma StatusYellowIff(gs: seq<Reading>, y: real)
    requires BinsIncrease(y)
    requires forall i :: 0 <= i < |gs| ==> NonNegative(gs[i])
    ensures StatusOf(gs, y) == Some(Yellow) <==>
      && !AnyRangeExceeded(gs)
      && (exists i :: 0 <= i < |gs| && gs[i].Measured? && gs[i].ppm > y - 1.0)
      && (forall i :: 0 <= i < |gs| && gs[i].Measured? ==> gs[i].ppm <= RedRangeStart)
  {
    if MaxGauge(gs).Measured? {
      var k :| 0 <= k < |gs| && gs[k] == MaxGauge(gs);
      assert gs[k].ppm == MaxGauge(gs).ppm;
    }
  }

  /** RED exactly when the largest gauge is above 99 but at most 99000, with no sentinel. */
  lemma StatusRedIff(gs: seq<Reading>, y: real)
    requires BinsIncrease(y)
    requires forall i :: 0 <= i < |gs| ==> NonNegative(gs[i])
    ensures StatusOf(gs, y) == Some(Red) <==>
      && !AnyRangeExceeded(gs)
      && (exists i :: 0 <= i < |gs| && gs[i].Measured? && gs[i].ppm > RedRangeStart)
      && (forall i :: 0 <= i < |gs| && gs[i].Measured? ==> gs[i].ppm <= RedRangeEnd)
  {
    if MaxGauge(gs).Measured? {
      var k :| 0 <= k < |gs| && gs[k] == MaxGauge(gs);
      assert gs[k].ppm == MaxGauge(gs).ppm;
    }
  }
}
