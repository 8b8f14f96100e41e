/**
 * Per-sample values and the arithmetic the engine applies to them.
 * The source replaces a range-exceeded reading by +infinity so that it dominates every
 * mean, product and gauge, and reports it as -1 at the end; a missing value is NaN.
 * Here the three cases are an explicit tagged value.
 */
module Readings {
  import opened Wrappers
  import opened ExposureConfig

  datatype Reading = Measured(ppm: real) | RangeExceeded | Absent

  /** A reading that is not a negative measurement (every value the engine produces is one). */
  predicate NonNegative(r: Reading) {
    r.Measured? ==> r.ppm >= 0.0
  }

  /** The masking step: a negative device value means "range exceeded"; null stays missing. */
  function Tag(raw: Option<real>): (r: Reading)
    ensures r == RangeExceeded <==> raw.Some? && raw.value < 0.0
    ensures r == Absent <==> raw.None?
    ensures r.Measured? ==> raw == Some(r.ppm) && r.ppm >= 0.0
  {
    match raw
    case None => Absent
    case Some(v) => if v < 0.0 then RangeExceeded else Measured(v)
  }

  // ---------------------------------------------------------------------------------
  // Mean over the available samples of a window (missing samples are skipped)

  function CountMeasured(s: seq<Reading>): nat {
    if s == [] then 0
    else CountMeasured(s[..|s| - 1]) + (if s[|s| - 1].Measured? then 1 else 0)
  }

  function SumMeasured(s: seq<Reading>): real {
    if s == [] then 0.0
    else SumMeasured(s[..|s| - 1]) + (if s[|s| - 1].Measured? then s[|s| - 1].ppm else 0.0)
  }

  predicate AnyRangeExceeded(s: seq<Reading>) {
    exists i :: 0 <= i < |s| && s[i].RangeExceeded?
  }

  /**
   * The window mean: infinite (range exceeded) as soon as one sample is, NaN when no
   * sample is available, otherwise the sum of the available samples over their number.
   */
  function MeanOf(s: seq<Reading>): Reading {
    if AnyRangeExceeded(s) then RangeExceeded
    else if CountMeasured(s) == 0 then Absent
    else Measured(SumMeasured(s) / (CountMeasured(s) as real))
  }

  lemma {:induction false} CountMeasuredZero(s: seq<Reading>)
    ensures CountMeasured(s) == 0 <==> forall i :: 0 <= i < |s| ==> !s[i].Measured?
  {
    if s != [] {
      CountMeasuredZero(s[..|s| - 1]);
      assert forall i :: 0 <= i < |s| - 1 ==> s[..|s| - 1][i] == s[i];
    }
  }

  lemma {:induction false} SumBounds(s: seq<Reading>, lo: real, hi: real)
    requires forall i :: 0 <= i < |s| && s[i].Measured? ==> lo <= s[i].ppm <= hi
    ensures (CountMeasured(s) as real) * lo <= SumMeasured(s) <= (CountMeasured(s) as real) * hi
  {
    if s != [] {
      assert forall i :: 0 <= i < |s| - 1 ==> s[..|s| - 1][i] == s[i];
      SumBounds(s[..|s| - 1], lo, hi);
    }
  }

  /** The mean is absent exactly when the window holds no measurement and no sentinel. */
  lemma MeanAbsentIff(s: seq<Reading>)
    ensures MeanOf(s) == Absent <==> forall i :: 0 <= i < |s| ==> s[i] == Absent
  {
    CountMeasuredZero(s);
  }

  /**
   * The mean of the available samples lies within any bounds on the measured samples:
   * missing samples never drag it toward zero. In particular a window whose available
   * samples all read v has mean v however many samples are missing.
   */
  lemma MeanWithinBounds(s: seq<Reading>, lo: real, hi: real)
    requires forall i :: 0 <= i < |s| && s[i].Measured? ==> lo <= s[i].ppm <= hi
    requires MeanOf(s).Measured?
    ensures lo <= MeanOf(s).ppm <= hi
  {
    SumBounds(s, lo, hi);
    DivBetween(SumMeasured(s), CountMeasured(s) as real, lo, hi);
  }

  lemma DivBetween(sum: real, n: real, lo: real, hi: real)
    requires n > 0.0 && n * lo <= sum <= n * hi
    ensures lo <= sum / n <= hi
  {
  }

  /** A missing sample changes nothing: the denominator counts available samples only. */
  lemma MeanIgnoresAbsent(s: seq<Reading>)
    ensures MeanOf(s + [Absent]) == MeanOf(s)
  {
    var t := s + [Absent];
    assert t[..|t| - 1] == s;
    assert forall i :: 0 <= i < |s| ==> t[i] == s[i];
    assert AnyRangeExceeded(t) == AnyRangeExceeded(s);
  }

  /** One range-exceeded sample anywhere forces the mean to the sentinel. */
  lemma MeanDominatedBySentinel(s: seq<Reading>, k: nat)
    requires k < |s| && s[k] == RangeExceeded
    ensures MeanOf(s) == RangeExceeded
  {
  }

  /** With no sentinel among them, the mean of non-negative samples is non-negative. */
  lemma MeanNonNegative(s: seq<Reading>)
    requires forall i :: 0 <= i < |s| ==> NonNegative(s[i])
    ensures NonNegative(MeanOf(s))
  {
    if MeanOf(s).Measured? {
      MeanWithinBounds(s, 0.0, MaxSample(s));
    }
  }

  /** An upper bound on every measured sample (helper for the bound lemmas). */
  function MaxSample(s: seq<Reading>): (m: real)
    ensures m >= 0.0
    ensures forall i :: 0 <= i < |s| && s[i].Measured? ==> s[i].ppm <= m
  {
    if s == [] then 0.0
    else
      var rest := MaxSample(s[1..]);
      assert forall i :: 1 <= i < |s| ==> s[i] == s[1..][i - 1];
      var here := if s[0].Measured? then s[0].ppm else 0.0;
      if here > rest then here else rest
  }

  // ---------------------------------------------------------------------------------
  // Coverage scaling, rounding and gauges

  /**
   * Multiplying a reading by a coverage proportion: infinity times a positive proportion
   * stays infinite, but infinity times zero is NaN, so the sentinel degrades to "missing".
   */
  function ScaleBy(r: Reading, p: real): (s: Reading)
    requires 0.0 <= p <= 1.0
    ensures NonNegative(r) ==> NonNegative(s)
    ensures s == RangeExceeded <==> r == RangeExceeded && p > 0.0
    ensures s == Absent <==> r == Absent || (r == RangeExceeded && p == 0.0)
    ensures r.Measured? && NonNegative(r) ==> s.Measured? && s.ppm <= r.ppm
  {
    match r
    case Measured(v) => Measured(v * p)
    case RangeExceeded => if p > 0.0 then RangeExceeded else Absent
    case Absent => Absent
  }

  function Pow10(k: nat): (p: real)
    ensures p >= 1.0
  {
    if k == 0 then 1.0 else 10.0 * Pow10(k - 1)
  }

  /** Does x have at most k decimal places? */
  predicate HasAtMostDecimals(x: real, k: nat) {
    WholeAtScale(x, Pow10(k))
  }

  /** Is x * p a whole number? */
  predicate WholeAtScale(x: real, p: real) {
    (x * p).Floor as real == x * p
  }

  /** Round to the nearest integer, halves to the even neighbour (numpy's rule). */
  function RoundHalfEven(y: real): (n: int)
    ensures y - 0.5 <= n as real <= y + 0.5
    ensures y >= 0.0 ==> n >= 0
    ensures y == (y.Floor as real) ==> n == y.Floor
  {
    var f := y.Floor;
    var d := y - f as real;
    if d < 0.5 then f
    else if d > 0.5 then f + 1
    else if f % 2 == 0 then f else f + 1
  }

  /**
   * np.round(x, k) on exact reals: the result keeps at most k decimals, lies within half
   * a unit of the k-th decimal of x, and is non-negative when x is.
   */
  function RoundTo(x: real, k: nat): (r: real)
    ensures HasAtMostDecimals(r, k)
    ensures x - 0.5 / Pow10(k) <= r <= x + 0.5 / Pow10(k)
    ensures x >= 0.0 ==> r >= 0.0
    ensures HasAtMostDecimals(x, k) ==> r == x
  {
    RoundAtScale(x, Pow10(k))
  }

  /** Rounding x to a multiple of 1 / p, halves to the even multiple. */
  function RoundAtScale(x: real, p: real): (r: real)
    requires p >= 1.0
    ensures WholeAtScale(r, p)
    ensures x - 0.5 / p <= r <= x + 0.5 / p
    ensures x >= 0.0 ==> r >= 0.0
    ensures WholeAtScale(x, p) ==> r == x
  {
    var n := RoundHalfEven(x * p);
    ScaleBack(x, n as real, p);
    if x >= 0.0 then
      MulNonNegative(x, p);
      DivNonNegative(n as real, p);
      WholeAfterScale(x, n, p);
      n as real / p
    else
      WholeAfterScale(x, n, p);
      n as real / p
  }

  lemma MulNonNegative(x: real, p: real)
    requires x >= 0.0 && p >= 1.0
    ensures x * p >= 0.0
  {
  }

  lemma DivNonNegative(n: real, p: real)
    requires n >= 0.0 && p >= 1.0
    ensures n / p >= 0.0
  {
    CancelFactor(0.0, n / p, p);
  }

  /** n / p is whole at scale p, and equals x when x * p was already whole and n is its floor. */
  lemma WholeAfterScale(x: real, n: int, p: real)
    requires p >= 1.0
    requires WholeAtScale(x, p) ==> n == (x * p).Floor
    ensures WholeAtScale(n as real / p, p)
    ensures WholeAtScale(x, p) ==> n as real / p == x
  {
    var q := n as real / p;
    assert q * p == n as real;
    if WholeAtScale(x, p) {
      assert q * p == x * p;
      CancelFactor(q, x, p);
      CancelFactor(x, q, p);
    }
  }

  /** Dividing back by p: within half a unit of x * p gives within 0.5 / p of x. */
  lemma ScaleBack(x: real, n: real, p: real)
    requires p >= 1.0 && x * p - 0.5 <= n <= x * p + 0.5
    ensures x - 0.5 / p <= n / p <= x + 0.5 / p
  {
    var q := n / p;
    var h := 0.5 / p;
    assert q * p == n;
    assert h * p == 0.5;
    assert (q - x) * p == n - x * p;
    CancelFactor(q - x, h, p);
    CancelFactor(-h, q - x, p);
  }

  lemma CancelFactor(a: real, b: real, p: real)
    requires p > 0.0 && a * p <= b * p
    ensures a <= b
  {
    assert (b - a) * p == b * p - a * p;
  }

  function RoundReading(r: Reading, k: nat): (s: Reading)
    ensures NonNegative(r) ==> NonNegative(s)
    ensures s.RangeExceeded? == r.RangeExceeded? && s.Absent? == r.Absent?
    ensures s.Measured? ==> HasAtMostDecimals(s.ppm, k)
  {
    match r
    case Measured(v) => Measured(RoundTo(v, k))
    case _ => r
  }

  /**
   * The limit gauge: the TWA as a whole-number percentage of the limit. The sentinel
   * stays the sentinel and a missing TWA gives a missing gauge.
   */
  function GaugeOf(twa: Reading, limit: real): (g: Reading)
    requires limit > 0.0
    ensures g.RangeExceeded? == twa.RangeExceeded? && g.Absent? == twa.Absent?
    ensures NonNegative(twa) ==> NonNegative(g)
    ensures g.Measured? ==>
      HasAtMostDecimals(g.ppm, 0) && twa.ppm * 100.0 / limit - 0.5 <= g.ppm <= twa.ppm * 100.0 / limit + 0.5
  {
    match twa
    case Measured(v) => Measured(RoundTo(v * 100.0 / limit, 0))
    case _ => twa
  }

  /** Final substitution for storage: the sentinel becomes -1, missing stays missing. */
  function Report(r: Reading): Option<real> {
    match r
    case Measured(v) => Some(v)
    case RangeExceeded => Some(RangeExceededCode as real)
    case Absent => None
  }

  /**
   * The reported -1 can never be mistaken for a measurement, nor a missing value for
   * either: for the non-negative readings the engine produces, reporting loses nothing.
   */
  lemma ReportIsInjective(a: Reading, b: Reading)
    requires NonNegative(a) && NonNegative(b)
    requires Report(a) == Report(b)
    ensures a == b
  {
  }
}
