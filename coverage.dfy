/**
 * Per-firefighter coverage spans: the earliest and latest minute observed, how a block
 * of rows updates them, and how much of a window they cover.
 */
module Coverage {
  import opened ExposureConfig
  import opened SensorLog

  datatype Span = Span(dataStart: int, dataEnd: int)

  type Spans = map<FfId, Span>

  /** Widen a firefighter's span so that it covers minute ts. */
  function Observe(m: Spans, ff: FfId, ts: int): Spans {
    if ff in m then m[ff := Span(Min(m[ff].dataStart, ts), Max(m[ff].dataEnd, ts))]
    else m[ff := Span(ts, ts)]
  }

  function Min(a: int, b: int): int { if a <= b then a else b }
  function Max(a: int, b: int): int { if a >= b then a else b }

  /** The (min ts, max ts) of every firefighter that has rows in the block. */
  function SpansOf(rows: seq<SensorRow>): (m: Spans)
    ensures forall f :: f in m <==> HasRowsFor(rows, f)
    ensures forall f :: f in m ==> m[f].dataStart <= m[f].dataEnd
  {
    if rows == [] then map[]
    else
      var init := rows[..|rows| - 1];
      var last := rows[|rows| - 1];
      var m := SpansOf(init);
      assert forall i :: 0 <= i < |init| ==> init[i] == rows[i];
      assert forall f :: HasRowsFor(rows, f) <==> HasRowsFor(init, f) || f == last.ff;
      Observe(m, last.ff, last.ts)
  }

  /**
   * SpansOf gives exactly the earliest and the latest minute among a firefighter's rows.
   */
  lemma {:induction false} SpansOfIsMinMax(rows: seq<SensorRow>, f: FfId)
    requires HasRowsFor(rows, f)
    ensures forall i :: 0 <= i < |rows| && rows[i].ff == f ==>
      SpansOf(rows)[f].dataStart <= rows[i].ts <= SpansOf(rows)[f].dataEnd
    ensures exists i :: 0 <= i < |rows| && rows[i].ff == f && rows[i].ts == SpansOf(rows)[f].dataStart
    ensures exists j :: 0 <= j < |rows| && rows[j].ff == f && rows[j].ts == SpansOf(rows)[f].dataEnd
  {
    var init := rows[..|rows| - 1];
    var last := rows[|rows| - 1];
    assert forall i :: 0 <= i < |init| ==> init[i] == rows[i];
    if HasRowsFor(init, f) {
      SpansOfIsMinMax(init, f);
      var s := SpansOf(init)[f];
      var i :| 0 <= i < |init| && init[i].ff == f && init[i].ts == s.dataStart;
      var j :| 0 <= j < |init| && init[j].ff == f && init[j].ts == s.dataEnd;
      if last.ff == f {
        assert SpansOf(rows)[f] == Span(Min(s.dataStart, last.ts), Max(s.dataEnd, last.ts));
        if last.ts < s.dataStart {
          assert rows[|rows| - 1].ts == SpansOf(rows)[f].dataStart;
        } else {
          assert rows[i].ts == SpansOf(rows)[f].dataStart;
        }
        if last.ts > s.dataEnd {
          assert rows[|rows| - 1].ts == SpansOf(rows)[f].dataEnd;
        } else {
          assert rows[j].ts == SpansOf(rows)[f].dataEnd;
        }
      } else {
        assert SpansOf(rows)[f] == s;
        assert rows[i].ts == SpansOf(rows)[f].dataStart;
        assert rows[j].ts == SpansOf(rows)[f].dataEnd;
      }
    } else {
      assert last.ff == f;
      assert SpansOf(rows)[f] == Span(last.ts, last.ts);
      assert rows[|rows| - 1].ts == SpansOf(rows)[f].dataStart;
    }
  }

  /**
   * The outer union of the spans seen in this block with the cached spans: where a
   * firefighter is in both, the earlier start and the later end; a one-sided entry
   * keeps its value.
   */
  function MergeSpans(block: Spans, cache: Spans): (m: Spans)
    ensures m.Keys == block.Keys + cache.Keys
    ensures forall f :: f in cache && f !in block ==> m[f] == cache[f]
    ensures forall f :: f in block && f !in cache ==> m[f] == block[f]
    ensures forall f :: f in cache ==>
      m[f].dataStart <= cache[f].dataStart && m[f].dataEnd >= cache[f].dataEnd
    ensures forall f :: f in block ==>
      m[f].dataStart <= block[f].dataStart && m[f].dataEnd >= block[f].dataEnd
    ensures forall f :: f in m ==>
      (f in block && m[f].dataStart == block[f].dataStart) || (f in cache && m[f].dataStart == cache[f].dataStart)
    ensures forall f :: f in m ==>
      (f in block && m[f].dataEnd == block[f].dataEnd) || (f in cache && m[f].dataEnd == cache[f].dataEnd)
  {
    map f | f in block.Keys + cache.Keys ::
      if f in block && f in cache then
        Span(Min(block[f].dataStart, cache[f].dataStart), Max(block[f].dataEnd, cache[f].dataEnd))
      else if f in block then block[f]
      else cache[f]
  }

  /**
   * Merging the spans of a new block into the spans of everything seen before gives the
   * spans of all rows seen: the cache records, per firefighter, the earliest and latest
   * minute observed since it was last reset.
   */
  lemma {:induction false} MergeSpansOfBlocks(seen: seq<SensorRow>, block: seq<SensorRow>)
    ensures MergeSpans(SpansOf(block), SpansOf(seen)) == SpansOf(seen + block)
  {
    if block == [] {
      assert seen + block == seen;
      assert forall f :: f !in SpansOf(block);
    } else {
      var init := block[..|block| - 1];
      var last := block[|block| - 1];
      MergeSpansOfBlocks(seen, init);
      assert (seen + block)[..|seen + block| - 1] == seen + init;
      assert (seen + block)[|seen + block| - 1] == last;
      MergeObserve(SpansOf(init), SpansOf(seen), last.ff, last.ts);
    }
  }

  lemma MergeObserve(b: Spans, c: Spans, ff: FfId, ts: int)
    ensures MergeSpans(Observe(b, ff, ts), c) == Observe(MergeSpans(b, c), ff, ts)
  {
    var lhs := MergeSpans(Observe(b, ff, ts), c);
    var rhs := Observe(MergeSpans(b, c), ff, ts);
    assert lhs.Keys == rhs.Keys;
    forall f | f in lhs ensures lhs[f] == rhs[f] {
    }
  }

  /** Merging the same block twice changes nothing more than merging it once. */
  lemma MergeIdempotent(block: Spans, cache: Spans)
    ensures MergeSpans(block, MergeSpans(block, cache)) == MergeSpans(block, cache)
    ensures MergeSpans(block, block) == block
  {
    var once := MergeSpans(block, cache);
    var twice := MergeSpans(block, once);
    assert twice.Keys == once.Keys;
    forall f | f in twice ensures twice[f] == once[f] {
    }
    var self := MergeSpans(block, block);
    assert self.Keys == block.Keys;
    forall f | f in self ensures self[f] == block[f] {
    }
  }

  /** The working copy used for coverage maths: every end pushed out by the autofill buffer. */
  function WithAutofill(m: Spans, autofill: nat): (r: Spans)
    ensures r.Keys == m.Keys
    ensures forall f :: f in r ==>
      r[f].dataStart == m[f].dataStart && r[f].dataEnd == m[f].dataEnd + autofill
  {
    map f | f in m :: Span(m[f].dataStart, m[f].dataEnd + autofill)
  }

  /**
   * Minutes of the window (t - len, t] backed by the span: the overlap of [dataStart, dataEnd]
   * with [t - len, t], or zero when they do not overlap.
   */
  function OverlapMins(s: Span, t: int, len: int): (o: int)
    ensures 0 <= o
    ensures len >= 0 ==> o <= len
    ensures len > 0 ==> (o > 0 <==> s.dataStart < t && s.dataEnd > t - len && s.dataStart < s.dataEnd)
  {
    var delta := Min(s.dataEnd, t) - Max(s.dataStart, t - len);
    if delta > 0 then delta else 0
  }

  /**
   * The share of a window of len minutes ending at t that the span covers, capped at 1.
   * It is 1 exactly when the span starts no later than the window and reaches its end, and 0
   * when the span starts at t (a firefighter's first-ever reading).
   */
  function ProportionOfWindow(s: Span, t: int, len: int): (p: real)
    requires len > 0
    ensures 0.0 <= p <= 1.0
    ensures p * (len as real) == OverlapMins(s, t, len) as real
    ensures p == 1.0 <==> s.dataStart <= t - len && s.dataEnd >= t
    ensures s.dataStart >= t ==> p == 0.0
    ensures p == 0.0 <==> OverlapMins(s, t, len) == 0
  {
    var o := OverlapMins(s, t, len);
    if o < len then (o as real) / (len as real) else 1.0
  }
}
