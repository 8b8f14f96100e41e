/**
 * Snapping each firefighter's rows onto a one-row-per-minute grid. A minute without its
 * own row is filled from a row at most one minute away; wider gaps stay empty.
 */
module Quantization {
  import opened Wrappers
  import opened ExposureConfig
  import opened SensorLog
  import opened Coverage

  /** One firefighter's grid: slot k holds the row used for minute first + k, if any. */
  datatype Track = Track(first: int, slots: seq<Option<SensorRow>>)

  predicate ObservedAt(rows: seq<SensorRow>, f: FfId, m: int) {
    exists i :: 0 <= i < |rows| && rows[i].ff == f && rows[i].ts == m
  }

  /** The first row of firefighter f captured in minute m. */
  function FindRow(rows: seq<SensorRow>, f: FfId, m: int): (r: Option<SensorRow>)
    ensures r.Some? ==> r.value in rows && r.value.ff == f && r.value.ts == m
    ensures r.None? <==> !ObservedAt(rows, f, m)
  {
    if rows == [] then None
    else if rows[0].ff == f && rows[0].ts == m then Some(rows[0])
    else
      var rest := FindRow(rows[1..], f, m);
      assert forall i :: 1 <= i < |rows| ==> rows[i] == rows[1..][i - 1];
      assert ObservedAt(rows[1..], f, m) ==> ObservedAt(rows, f, m);
      rest
  }

  /**
   * The row used for minute m: the minute's own row, otherwise a neighbour one minute
   * away (the later one when both exist), otherwise none.
   */
  function NearestRow(rows: seq<SensorRow>, f: FfId, m: int): (r: Option<SensorRow>)
    ensures r.Some? ==> r.value in rows && r.value.ff == f && m - 1 <= r.value.ts <= m + 1
    ensures ObservedAt(rows, f, m) ==> r.Some? && r.value.ts == m
    ensures r.None? <==>
      !ObservedAt(rows, f, m - 1) && !ObservedAt(rows, f, m) && !ObservedAt(rows, f, m + 1)
  {
    match FindRow(rows, f, m)
    case Some(here) => Some(here)
    case None =>
      match FindRow(rows, f, m + 1)
      case Some(later) => Some(later)
      case None => FindRow(rows, f, m - 1)
  }

  /** The grid of one firefighter over the minutes of their span, end points included. */
  function QuantizeFf(rows: seq<SensorRow>, f: FfId, s: Span): (tr: Track)
    requires s.dataStart <= s.dataEnd
    ensures tr.first == s.dataStart && |tr.slots| == s.dataEnd - s.dataStart + 1
  {
    Track(s.dataStart,
          seq(s.dataEnd - s.dataStart + 1, k requires 0 <= k <= s.dataEnd - s.dataStart =>
                NearestRow(rows, f, s.dataStart + k)))
  }

  /** One grid per firefighter present in the rows. */
  function Quantize(rows: seq<SensorRow>): (grid: map<FfId, Track>)
    ensures forall f :: f in grid <==> HasRowsFor(rows, f)
  {
    var spans := SpansOf(rows);
    map f | f in spans :: QuantizeFf(rows, f, spans[f])
  }

  /**
   * What the grid promises: each slot holds one of the firefighter's own rows, captured
   * in that minute or one minute away, and a minute with its own row always uses it.
   */
  lemma QuantizedSlots(rows: seq<SensorRow>, f: FfId, k: int)
    requires f in Quantize(rows) && 0 <= k < |Quantize(rows)[f].slots|
    ensures var tr := Quantize(rows)[f];
      && (tr.slots[k].Some? ==>
            tr.slots[k].value in rows && tr.slots[k].value.ff == f
            && tr.first + k - 1 <= tr.slots[k].value.ts <= tr.first + k + 1)
      && (ObservedAt(rows, f, tr.first + k) ==> tr.slots[k].Some? && tr.slots[k].value.ts == tr.first + k)
  {
  }

  /** The rows held by the slots of the minutes lo..hi, both included, slot 0 being minute first. */
  function PresentIn(slots: seq<Option<SensorRow>>, first: int, lo: int, hi: int): seq<SensorRow>
    decreases |slots|
  {
    if slots == [] then []
    else
      (if lo <= first <= hi && slots[0].Some? then [slots[0].value] else [])
      + PresentIn(slots[1..], first + 1, lo, hi)
  }

  /** A row is held for [lo, hi] exactly when the slot of some minute in [lo, hi] holds it. */
  lemma {:induction false} PresentInMembers(slots: seq<Option<SensorRow>>, first: int, lo: int, hi: int)
    ensures forall r :: r in PresentIn(slots, first, lo, hi) <==>
      exists k :: 0 <= k < |slots| && slots[k] == Some(r) && lo <= first + k <= hi
    decreases |slots|
  {
    if slots != [] {
      PresentInMembers(slots[1..], first + 1, lo, hi);
      forall r
        ensures (exists k :: 0 <= k < |slots| && slots[k] == Some(r) && lo <= first + k <= hi) <==>
          ((lo <= first <= hi && slots[0] == Some(r))
           || exists k :: 0 <= k < |slots[1..]| && slots[1..][k] == Some(r) && lo <= first + 1 + k <= hi)
      {
        if exists k :: 0 <= k < |slots| && slots[k] == Some(r) && lo <= first + k <= hi {
          var k :| 0 <= k < |slots| && slots[k] == Some(r) && lo <= first + k <= hi;
          if k > 0 {
            assert slots[1..][k - 1] == Some(r);
          }
        }
        if exists k :: 0 <= k < |slots[1..]| && slots[1..][k] == Some(r) && lo <= first + 1 + k <= hi {
          var k :| 0 <= k < |slots[1..]| && slots[1..][k] == Some(r) && lo <= first + 1 + k <= hi;
          assert slots[k + 1] == Some(r);
        }
      }
    }
  }

  /** At most one row per minute of [lo, hi] that the grid covers. */
  lemma {:induction false} PresentInCount(slots: seq<Option<SensorRow>>, first: int, lo: int, hi: int)
    ensures |PresentIn(slots, first, lo, hi)| <= if hi < Max(lo, first) then 0 else hi - Max(lo, first) + 1
    decreases |slots|
  {
    if slots != [] {
      PresentInCount(slots[1..], first + 1, lo, hi);
    }
  }

  /** The rows of a grid for the minutes lo..hi, both included. */
  function RowsInMinutes(tr: Track, lo: int, hi: int): seq<SensorRow> {
    PresentIn(tr.slots, tr.first, lo, hi)
  }

  /** The rows of a grid in the window of len minutes ending at t: minutes t - len + 1 .. t. */
  function WindowRows(tr: Track, t: int, len: int): seq<SensorRow> {
    RowsInMinutes(tr, t - len + 1, t)
  }

  /**
   * A window of len minutes never holds more than len rows of one firefighter: the
   * condition the source asserts before averaging holds for every quantized grid.
   */
  lemma WindowRowsAtMostLen(tr: Track, t: int, len: int)
    ensures |WindowRows(tr, t, len)| <= if len > 0 then len else 0
  {
    PresentInCount(tr.slots, tr.first, t - len + 1, t);
  }

  /** The row a grid holds for minute m, if any. */
  function SlotAt(tr: Track, m: int): Option<SensorRow> {
    if tr.first <= m < tr.first + |tr.slots| then tr.slots[m - tr.first] else None
  }

  /** A row held by slot k of a grid is among the grid's rows for every range covering minute first + k. */
  lemma SlotInRange(tr: Track, k: int, lo: int, hi: int)
    requires 0 <= k < |tr.slots| && tr.slots[k].Some? && lo <= tr.first + k <= hi
    ensures tr.slots[k].value in RowsInMinutes(tr, lo, hi)
  {
    PresentInMembers(tr.slots, tr.first, lo, hi);
  }

  /** A row among the grid's rows for [lo, hi] is held by the slot of some minute in [lo, hi]. */
  lemma RowInRangeHasSlot(tr: Track, lo: int, hi: int, r: SensorRow) returns (k: int)
    requires r in RowsInMinutes(tr, lo, hi)
    ensures 0 <= k < |tr.slots| && tr.slots[k] == Some(r) && lo <= tr.first + k <= hi
  {
    PresentInMembers(tr.slots, tr.first, lo, hi);
    k :| 0 <= k < |tr.slots| && tr.slots[k] == Some(r) && lo <= tr.first + k <= hi;
  }

  /**
   * Every row a firefighter has in a window of the grid comes from a slot of a minute of that
   * window, so it is one of that firefighter's rows captured at most one minute away.
   */
  lemma WindowRowsAreNearby(rows: seq<SensorRow>, f: FfId, t: int, len: int)
    requires f in Quantize(rows)
    ensures forall r :: r in WindowRows(Quantize(rows)[f], t, len) ==>
      r in rows && r.ff == f && t - len <= r.ts <= t + 1
  {
    var tr := Quantize(rows)[f];
    forall r | r in WindowRows(tr, t, len)
      ensures r in rows && r.ff == f && t - len <= r.ts <= t + 1
    {
      var k := RowInRangeHasSlot(tr, t - len + 1, t, r);
      QuantizedSlots(rows, f, k);
    }
  }

  /** A row that is the only one of its firefighter in its minute is the row of that minute's slot. */
  lemma ObservedRowSlot(rows: seq<SensorRow>, r: SensorRow)
    requires r in rows
    requires forall q :: q in rows && q.ff == r.ff && q.ts == r.ts ==> q == r
    ensures r.ff in Quantize(rows)
    ensures var tr := Quantize(rows)[r.ff];
      0 <= r.ts - tr.first < |tr.slots| && tr.slots[r.ts - tr.first] == Some(r)
  {
    var f := r.ff;
    var i :| 0 <= i < |rows| && rows[i] == r;
    assert HasRowsFor(rows, f);
    SpansOfIsMinMax(rows, f);
    var span := SpansOf(rows)[f];
    var tr := Quantize(rows)[f];
    assert tr == QuantizeFf(rows, f, span);
    assert span.dataStart <= r.ts <= span.dataEnd;
    var k := r.ts - tr.first;
    assert ObservedAt(rows, f, r.ts);
    QuantizedSlots(rows, f, k);
  }

  /**
   * A row of firefighter f captured in a window is the row of its minute's slot (when it is
   * the only row of f in that minute), so f has rows in that window of the grid.
   */
  lemma ObservedRowAppears(rows: seq<SensorRow>, r: SensorRow, t: int, len: int)
    requires r in rows && t - len + 1 <= r.ts <= t
    requires forall q :: q in rows && q.ff == r.ff && q.ts == r.ts ==> q == r
    ensures r.ff in Quantize(rows)
    ensures SlotAt(Quantize(rows)[r.ff], r.ts) == Some(r)
    ensures r in WindowRows(Quantize(rows)[r.ff], t, len)
  {
    ObservedRowSlot(rows, r);
    SlotInWindow(Quantize(rows)[r.ff], r, t, len);
  }

  /** A row held by the slot of a minute inside a window is among the window's rows. */
  lemma SlotInWindow(tr: Track, r: SensorRow, t: int, len: int)
    requires 0 <= r.ts - tr.first < |tr.slots| && tr.slots[r.ts - tr.first] == Some(r)
    requires t - len + 1 <= r.ts <= t
    ensures SlotAt(tr, r.ts) == Some(r)
    ensures r in WindowRows(tr, t, len)
  {
    SlotInRange(tr, r.ts - tr.first, t - len + 1, t);
  }

  /** The firefighter has some row in the window of len minutes ending at t. */
  predicate InWindow(tr: Track, t: int, len: int) {
    |WindowRows(tr, t, len)| > 0
  }

  /** A minute in which the firefighter has an own row gets a slot holding a row of that minute. */
  lemma ObservedMinuteSlot(rows: seq<SensorRow>, f: FfId, m: int)
    requires ObservedAt(rows, f, m)
    ensures f in Quantize(rows)
    ensures var slot := SlotAt(Quantize(rows)[f], m);
      slot.Some? && slot.value in rows && slot.value.ff == f && slot.value.ts == m
  {
    var i :| 0 <= i < |rows| && rows[i].ff == f && rows[i].ts == m;
    assert HasRowsFor(rows, f);
    SpansOfIsMinMax(rows, f);
    var span := SpansOf(rows)[f];
    var tr := Quantize(rows)[f];
    assert tr == QuantizeFf(rows, f, span);
    assert span.dataStart <= m <= span.dataEnd;
    QuantizedSlots(rows, f, m - tr.first);
  }

  /** A row captured inside a window puts its firefighter in that window of the grid. */
  lemma InWindowFromRow(rows: seq<SensorRow>, r: SensorRow, t: int, len: int)
    requires r in rows && t - len + 1 <= r.ts <= t
    ensures r.ff in Quantize(rows) && InWindow(Quantize(rows)[r.ff], t, len)
  {
    var i :| 0 <= i < |rows| && rows[i] == r;
    assert ObservedAt(rows, r.ff, r.ts);
    ObservedMinuteSlot(rows, r.ff, r.ts);
    var tr := Quantize(rows)[r.ff];
    var k := r.ts - tr.first;
    assert 0 <= k < |tr.slots| && tr.slots[k].Some?;
    SlotInRange(tr, k, t - len + 1, t);
  }

  /**
   * A firefighter in a window of the grid has a row captured in that window or in the minute
   * just before or after it (the one-minute fill).
   */
  lemma RowFromInWindow(rows: seq<SensorRow>, f: FfId, t: int, len: int) returns (r: SensorRow)
    requires f in Quantize(rows) && InWindow(Quantize(rows)[f], t, len)
    ensures r in rows && r.ff == f && t - len <= r.ts <= t + 1
  {
    WindowRowsAreNearby(rows, f, t, len);
    r := WindowRows(Quantize(rows)[f], t, len)[0];
  }

  /**
   * When no row is later than minute m, the grid holds a row for m exactly when the
   * firefighter has an own row in m: a fill from the previous minute cannot reach past the
   * last row.
   */
  lemma LastMinuteSlotIff(rows: seq<SensorRow>, f: FfId, m: int)
    requires forall r :: r in rows ==> r.ts <= m
    ensures (f in Quantize(rows) && SlotAt(Quantize(rows)[f], m).Some?) <==> ObservedAt(rows, f, m)
  {
    if ObservedAt(rows, f, m) {
      ObservedMinuteSlot(rows, f, m);
    }
    if f in Quantize(rows) && SlotAt(Quantize(rows)[f], m).Some? {
      SpansOfIsMinMax(rows, f);
      var span := SpansOf(rows)[f];
      var j :| 0 <= j < |rows| && rows[j].ff == f && rows[j].ts == span.dataEnd;
      assert rows[j] in rows;
    }
  }
}
