/**
 * Start-up validation of the configuration. Every check runs and every critical issue
 * is collected; warnings never reject. A lookup of a gas that a window, the sensor-range
 * table or the rounding factors lack raises before the final verdict (a crash).
 */
module ConfigValidation {
  import opened ExposureConfig
  import opened StatusClassification

  datatype Issue =
    | MismatchedGasSets(windows: seq<nat>)
    | SupportedGasWithoutLimits
    | LimitsOutsideSensorRange(gas: Gas)
    | YellowOutOfRange
    | BadRoundingFactor(gas: Gas)
    | BadAutofill

  datatype Warning = LimitsNearSensorMax(gas: Gas) | AutofillAboveRecommended

  /**
   * What validation logged: the critical issues and the warnings, in order, and whether a
   * failed lookup raised before the final assertion was reached.
   */
  datatype Report = Report(critical: seq<Issue>, warnings: seq<Warning>, crashed: bool)

  /** The engine starts only on a report with no crash and no critical issue. */
  predicate Accepts(r: Report) {
    !r.crashed && r.critical == []
  }

  // ---------------------------------------------------------------------------------
  // The individual checks

  /** Indices, from `from` on, of the windows whose gas set differs from keys0. */
  function MismatchedWindows(ws: seq<Window>, keys0: set<Gas>, from: nat): (idx: seq<nat>)
    ensures forall i :: i in idx <==> from <= i < |ws| && ws[i].gasLimits.Keys != keys0
    decreases |ws| - from
  {
    if from >= |ws| then []
    else (if ws[from].gasLimits.Keys != keys0 then [from] else []) + MismatchedWindows(ws, keys0, from + 1)
  }

  /** The gas-set checks of the first two rules, on a non-empty window list. */
  function GasSetIssues(c: Config): seq<Issue>
    requires |c.windows| > 0
  {
    var mismatched := MismatchedWindows(c.windows, c.windows[0].gasLimits.Keys, 0);
    (if mismatched != [] then [MismatchedGasSets(mismatched)] else [])
    + (if !SupportedGasesInFirstWindow(c) then [SupportedGasWithoutLimits] else [])
  }

  predicate SupportedGasesInFirstWindow(c: Config)
    requires |c.windows| > 0
  {
    forall g :: g in c.supportedGases ==> g in c.windows[0].gasLimits
  }

  /** Looking up a gas's limits or sensor range fails: some window or the range table lacks it. */
  predicate RangeLookupFails(c: Config, g: Gas) {
    (exists i :: 0 <= i < |c.windows| && g !in c.windows[i].gasLimits) || g !in SensorRangePpm
  }

  /** The limits of a gas, one per window. */
  function LimitsOf(ws: seq<Window>, g: Gas): (limits: seq<real>)
    requires forall i :: 0 <= i < |ws| ==> g in ws[i].gasLimits
    ensures |limits| == |ws| && forall i :: 0 <= i < |ws| ==> limits[i] == ws[i].gasLimits[g]
  {
    seq(|ws|, i requires 0 <= i < |ws| => ws[i].gasLimits[g])
  }

  function SeqMin(s: seq<real>): (m: real)
    requires |s| > 0
    ensures forall i :: 0 <= i < |s| ==> m <= s[i]
    ensures exists i :: 0 <= i < |s| && s[i] == m
  {
    if |s| == 1 then s[0]
    else
      var rest := SeqMin(s[1..]);
      assert forall i :: 1 <= i < |s| ==> s[i] == s[1..][i - 1];
      if s[0] <= rest then s[0] else rest
  }

  function SeqMax(s: seq<real>): (m: real)
    requires |s| > 0
    ensures forall i :: 0 <= i < |s| ==> s[i] <= m
    ensures exists i :: 0 <= i < |s| && s[i] == m
  {
    if |s| == 1 then s[0]
    else
      var rest := SeqMax(s[1..]);
      assert forall i :: 1 <= i < |s| ==> s[i] == s[1..][i - 1];
      if s[0] >= rest then s[0] else rest
  }

  /** Some window's limit for g lies outside the sensor's range (critical). */
  predicate OutOfRange(c: Config, g: Gas)
    requires !RangeLookupFails(c, g)
  {
    exists i :: 0 <= i < |c.windows| &&
      (c.windows[i].gasLimits[g] < SensorRangePpm[g].min || c.windows[i].gasLimits[g] > SensorRangePpm[g].max)
  }

  /** Some window's limit for g is more than half the sensor's maximum (a warning). */
  predicate NearSensorMax(c: Config, g: Gas)
    requires !RangeLookupFails(c, g)
  {
    exists i :: 0 <= i < |c.windows| && c.windows[i].gasLimits[g] * 2.0 > SensorRangePpm[g].max
  }

  /** The range check of one gas, appended to a report that has not crashed. */
  function RangeStep(c: Config, r: Report, g: Gas): Report
    requires |c.windows| > 0
  {
    if RangeLookupFails(c, g) then r.(crashed := true)
    else
      var limits := LimitsOf(c.windows, g);
      var range := SensorRangePpm[g];
      Report(
        r.critical + (if SeqMin(limits) < range.min || SeqMax(limits) > range.max then [LimitsOutsideSensorRange(g)] else []),
        r.warnings + (if SeqMax(limits) * 2.0 > range.max then [LimitsNearSensorMax(g)] else []),
        false)
  }

  /** The range checks of every gas in gs, in order, stopping at the first crash. */
  function RangePhase(c: Config, start: Report, gs: seq<Gas>): Report
    requires |c.windows| > 0
  {
    if gs == [] then start
    else
      var before := RangePhase(c, start, gs[..|gs| - 1]);
      if before.crashed then before else RangeStep(c, before, gs[|gs| - 1])
  }

  /** Once a gas crashes the range checks, the later gases are never looked at. */
  lemma {:induction false} RangePhaseStopsAtCrash(c: Config, start: Report, gs: seq<Gas>, i: nat)
    requires |c.windows| > 0 && i <= |gs|
    requires RangePhase(c, start, gs[..i]).crashed
    ensures RangePhase(c, start, gs) == RangePhase(c, start, gs[..i])
    decreases |gs|
  {
    if i < |gs| {
      assert gs[..|gs| - 1][..i] == gs[..i];
      RangePhaseStopsAtCrash(c, start, gs[..|gs| - 1], i);
    } else {
      assert gs[..i] == gs;
    }
  }

  predicate RoundingFactorOk(n: Number) {
    n.IntNumber? && n.i >= 0
  }

  /** The rounding-factor check of one gas. */
  function RoundingStep(c: Config, r: Report, g: Gas): Report {
    if g !in c.safeRoundingFactors then r.(crashed := true)
    else r.(critical := r.critical + (if !RoundingFactorOk(c.safeRoundingFactors[g]) then [BadRoundingFactor(g)] else []))
  }

  function RoundingPhase(c: Config, start: Report, gs: seq<Gas>): Report {
    if gs == [] then start
    else
      var before := RoundingPhase(c, start, gs[..|gs| - 1]);
      if before.crashed then before else RoundingStep(c, before, gs[|gs| - 1])
  }

  lemma {:induction false} RoundingPhaseStopsAtCrash(c: Config, start: Report, gs: seq<Gas>, i: nat)
    requires i <= |gs|
    requires RoundingPhase(c, start, gs[..i]).crashed
    ensures RoundingPhase(c, start, gs) == RoundingPhase(c, start, gs[..i])
    decreases |gs|
  {
    if i < |gs| {
      assert gs[..|gs| - 1][..i] == gs[..i];
      RoundingPhaseStopsAtCrash(c, start, gs[..|gs| - 1], i);
    } else {
      assert gs[..i] == gs;
    }
  }

  predicate YellowInRange(y: real) {
    0.0 < y < 100.0
  }

  /** The autofill check: critical unless a non-negative integer; above 20 only warns. */
  function AutofillStep(r: Report, a: Number): Report {
    if !(a.IntNumber? && a.i >= 0) then r.(critical := r.critical + [BadAutofill])
    else if a.i > AutofillWarningMins then r.(warnings := r.warnings + [AutofillAboveRecommended])
    else r
  }

  /** Everything validation logs for a configuration, in the order of the checks. */
  function ConfigReport(c: Config): Report {
    if |c.windows| == 0 then Report([], [], true)
    else
      var ranged := RangePhase(c, Report(GasSetIssues(c), [], false), c.supportedGases);
      if ranged.crashed then ranged
      else
        var yellowed := ranged.(critical := ranged.critical + (if !YellowInRange(c.yellowWarningPercent) then [YellowOutOfRange] else []));
        var rounded := RoundingPhase(c, yellowed, c.supportedGases);
        if rounded.crashed then rounded
        else AutofillStep(rounded, c.autofillMins)
  }

  // ---------------------------------------------------------------------------------
  // The validator

  /** The sensor-range loop over the supported gases. */
  method CheckSensorRanges(c: Config, start: Report) returns (report: Report)
    requires |c.windows| > 0 && !start.crashed
    ensures report == RangePhase(c, start, c.supportedGases)
  {
    var critical, warnings := start.critical, start.warnings;
    var i := 0;
    while i < |c.supportedGases|
      invariant 0 <= i <= |c.supportedGases|
      invariant RangePhase(c, start, c.supportedGases[..i]) == Report(critical, warnings, false)
    {
      var gas := c.supportedGases[i];
      RangePhaseExtends(c, start, c.supportedGases, i);
      if RangeLookupFails(c, gas) {
        RangePhaseStopsAtCrash(c, start, c.supportedGases, i + 1);
        return Report(critical, warnings, true);
      }
      critical, warnings := CheckGasRange(c, gas, critical, warnings);
      i := i + 1;
    }
    assert c.supportedGases[..i] == c.supportedGases;
    report := Report(critical, warnings, false);
  }

  /** The range checks of one gas whose limits and sensor range can be looked up. */
  method CheckGasRange(c: Config, gas: Gas, critical0: seq<Issue>, warnings0: seq<Warning>)
    returns (critical: seq<Issue>, warnings: seq<Warning>)
    requires |c.windows| > 0 && !RangeLookupFails(c, gas)
    ensures Report(critical, warnings, false) == RangeStep(c, Report(critical0, warnings0, false), gas)
  {
    critical, warnings := critical0, warnings0;
    var limits := LimitsOf(c.windows, gas);
    var range := SensorRangePpm[gas];
    if SeqMin(limits) < range.min || SeqMax(limits) > range.max {
      critical := critical + [LimitsOutsideSensorRange(gas)];
    }
    if SeqMax(limits) * 2.0 > range.max {
      warnings := warnings + [LimitsNearSensorMax(gas)];
    }
  }

  /** The range phase over one more gas is one more range step, unless it had already crashed. */
  lemma RangePhaseExtends(c: Config, start: Report, gs: seq<Gas>, i: nat)
    requires |c.windows| > 0 && i < |gs|
    ensures var before := RangePhase(c, start, gs[..i]);
      RangePhase(c, start, gs[..i + 1]) == if before.crashed then before else RangeStep(c, before, gs[i])
  {
    assert gs[..i + 1][..i] == gs[..i];
  }

  /** The rounding-factor loop over the supported gases. */
  method CheckRoundingFactors(c: Config, start: Report) returns (report: Report)
    requires !start.crashed
    ensures report == RoundingPhase(c, start, c.supportedGases)
  {
    var critical := start.critical;
    var i := 0;
    while i < |c.supportedGases|
      invariant 0 <= i <= |c.supportedGases|
      invariant RoundingPhase(c, start, c.supportedGases[..i]) == start.(critical := critical)
    {
      var gas := c.supportedGases[i];
      assert c.supportedGases[..i + 1][..i] == c.supportedGases[..i];
      if gas !in c.safeRoundingFactors {
        assert RoundingPhase(c, start, c.supportedGases[..i + 1]).crashed;
        RoundingPhaseStopsAtCrash(c, start, c.supportedGases, i + 1);
        return start.(critical := critical, crashed := true);
      }
      if !RoundingFactorOk(c.safeRoundingFactors[gas]) {
        critical := critical + [BadRoundingFactor(gas)];
      }
      i := i + 1;
    }
    assert c.supportedGases[..i] == c.supportedGases;
    report := start.(critical := critical);
  }

  method ValidateConfig(c: Config) returns (report: Report)
    ensures report == ConfigReport(c)
  {
    var critical: seq<Issue> := [];
    if |c.windows| == 0 {
      return Report(critical, [], true);
    }
    var mismatched := MismatchedWindows(c.windows, c.windows[0].gasLimits.Keys, 0);
    if mismatched != [] {
      critical := critical + [MismatchedGasSets(mismatched)];
    }
    if !SupportedGasesInFirstWindow(c) {
      critical := critical + [SupportedGasWithoutLimits];
    }
    assert critical == GasSetIssues(c);
    report := CheckSensorRanges(c, Report(critical, [], false));
    ghost var ranged := report;
    assert ranged == RangePhase(c, Report(GasSetIssues(c), [], false), c.supportedGases);
    if report.crashed {
      return;
    }
    if !YellowInRange(c.yellowWarningPercent) {
      report := report.(critical := report.critical + [YellowOutOfRange]);
    }
    ghost var yellowed := report;
    assert yellowed == ranged.(critical := ranged.critical + (if !YellowInRange(c.yellowWarningPercent) then [YellowOutOfRange] else []));
    report := CheckRoundingFactors(c, report);
    assert report == RoundingPhase(c, yellowed, c.supportedGases);
    if report.crashed {
      return;
    }
    if !(c.autofillMins.IntNumber? && c.autofillMins.i >= 0) {
      report := report.(critical := report.critical + [BadAutofill]);
    } else if c.autofillMins.i > AutofillWarningMins {
      report := report.(warnings := report.warnings + [AutofillAboveRecommended]);
    }
  }

  // ---------------------------------------------------------------------------------
  // What the report says about the configuration

  /** The range-check flags of one gas say what OutOfRange and NearSensorMax say. */
  lemma RangeStepFlags(c: Config, g: Gas)
    requires |c.windows| > 0 && !RangeLookupFails(c, g)
    ensures var limits := LimitsOf(c.windows, g);
      (SeqMin(limits) < SensorRangePpm[g].min || SeqMax(limits) > SensorRangePpm[g].max) <==> OutOfRange(c, g)
    ensures SeqMax(LimitsOf(c.windows, g)) * 2.0 > SensorRangePpm[g].max <==> NearSensorMax(c, g)
  {
    var limits := LimitsOf(c.windows, g);
    var range := SensorRangePpm[g];
    if OutOfRange(c, g) {
      var i :| 0 <= i < |c.windows| &&
        (c.windows[i].gasLimits[g] < range.min || c.windows[i].gasLimits[g] > range.max);
      assert limits[i] == c.windows[i].gasLimits[g];
    }
    if NearSensorMax(c, g) {
      var i :| 0 <= i < |c.windows| && c.windows[i].gasLimits[g] * 2.0 > range.max;
      assert limits[i] == c.windows[i].gasLimits[g];
    }
  }

  /**
   * The range checks crash exactly when some gas of gs cannot be looked up; they only ever
   * append, and what they append is one out-of-range issue and one near-maximum warning per
   * gas whose limits deserve it.
   */
  lemma {:induction false} RangePhaseFacts(c: Config, start: Report, gs: seq<Gas>)
    requires |c.windows| > 0 && !start.crashed
    ensures var r := RangePhase(c, start, gs);
      (r.crashed <==> exists g :: g in gs && RangeLookupFails(c, g)) &&
      (forall x :: x in start.critical ==> x in r.critical) &&
      (forall x :: x in r.critical ==> (x in start.critical ||
        (x.LimitsOutsideSensorRange? && x.gas in gs && !RangeLookupFails(c, x.gas) && OutOfRange(c, x.gas)))) &&
      (!r.crashed ==> forall g :: g in gs && !RangeLookupFails(c, g) && OutOfRange(c, g) ==>
        LimitsOutsideSensorRange(g) in r.critical) &&
      (!r.crashed ==> forall w :: w in r.warnings <==> (w in start.warnings ||
        (w.LimitsNearSensorMax? && w.gas in gs && !RangeLookupFails(c, w.gas) && NearSensorMax(c, w.gas))))
    decreases |gs|
  {
    if gs != [] {
      var front, g := gs[..|gs| - 1], gs[|gs| - 1];
      assert gs == front + [g];
      RangePhaseFacts(c, start, front);
      var before := RangePhase(c, start, front);
      if !before.crashed && !RangeLookupFails(c, g) {
        RangeStepFlags(c, g);
      }
    }
  }

  /** The rounding checks crash exactly when some gas of gs has no factor; they append only bad-factor issues. */
  lemma {:induction false} RoundingPhaseFacts(c: Config, start: Report, gs: seq<Gas>)
    requires !start.crashed
    ensures var r := RoundingPhase(c, start, gs);
      (r.crashed <==> exists g :: g in gs && g !in c.safeRoundingFactors) &&
      r.warnings == start.warnings &&
      (forall x :: x in start.critical ==> x in r.critical) &&
      (forall x :: x in r.critical ==> (x in start.critical ||
        (x.BadRoundingFactor? && x.gas in gs && x.gas in c.safeRoundingFactors && !RoundingFactorOk(c.safeRoundingFactors[x.gas])))) &&
      (!r.crashed ==> forall g :: g in gs && g in c.safeRoundingFactors && !RoundingFactorOk(c.safeRoundingFactors[g]) ==>
        BadRoundingFactor(g) in r.critical)
    decreases |gs|
  {
    if gs != [] {
      var front, g := gs[..|gs| - 1], gs[|gs| - 1];
      assert gs == front + [g];
      RoundingPhaseFacts(c, start, front);
    }
  }

  /** Some supported gas cannot be looked up in the windows or the sensor-range table. */
  predicate SomeRangeLookupFails(c: Config) {
    exists g :: g in c.supportedGases && RangeLookupFails(c, g)
  }

  /** Some supported gas has no rounding factor. */
  predicate SomeRoundingFactorMissing(c: Config) {
    exists g :: g in c.supportedGases && g !in c.safeRoundingFactors
  }

  /** Validation raises exactly when there is no window or a lookup of a supported gas fails. */
  lemma ConfigCrashIff(c: Config)
    ensures ConfigReport(c).crashed <==>
      |c.windows| == 0 || SomeRangeLookupFails(c) || SomeRoundingFactorMissing(c)
  {
    if |c.windows| > 0 {
      var start := Report(GasSetIssues(c), [], false);
      RangePhaseFacts(c, start, c.supportedGases);
      var ranged := RangePhase(c, start, c.supportedGases);
      if !ranged.crashed {
        var yellowed := ranged.(critical := ranged.critical + (if !YellowInRange(c.yellowWarningPercent) then [YellowOutOfRange] else []));
        RoundingPhaseFacts(c, yellowed, c.supportedGases);
      }
    }
  }

  /** A supported gas missing from the first window is logged, and its limit lookup then raises. */
  lemma MissingGasIsLoggedThenCrashes(c: Config)
    requires |c.windows| > 0 && !SupportedGasesInFirstWindow(c)
    ensures ConfigReport(c).crashed
    ensures SupportedGasWithoutLimits in ConfigReport(c).critical
  {
    var g :| g in c.supportedGases && g !in c.windows[0].gasLimits;
    assert RangeLookupFails(c, g);
    var start := Report(GasSetIssues(c), [], false);
    assert SupportedGasWithoutLimits in start.critical;
    RangePhaseFacts(c, start, c.supportedGases);
  }

  /** Membership in the critical list and the warnings of a report that did not crash. */
  lemma ReportMembership(c: Config)
    requires !ConfigReport(c).crashed
    ensures |c.windows| > 0 && !SomeRangeLookupFails(c) && !SomeRoundingFactorMissing(c)
    ensures forall x :: x in ConfigReport(c).critical <==>
      x in GasSetIssues(c)
      || (x.LimitsOutsideSensorRange? && x.gas in c.supportedGases && !RangeLookupFails(c, x.gas) && OutOfRange(c, x.gas))
      || (x == YellowOutOfRange && !YellowInRange(c.yellowWarningPercent))
      || (x.BadRoundingFactor? && x.gas in c.supportedGases && x.gas in c.safeRoundingFactors
          && !RoundingFactorOk(c.safeRoundingFactors[x.gas]))
      || (x == BadAutofill && !RoundingFactorOk(c.autofillMins))
    ensures forall w :: w in ConfigReport(c).warnings <==>
      (w.LimitsNearSensorMax? && w.gas in c.supportedGases && !RangeLookupFails(c, w.gas) && NearSensorMax(c, w.gas))
      || (w == AutofillAboveRecommended && c.autofillMins.IntNumber? && c.autofillMins.i > AutofillWarningMins)
  {
    ConfigCrashIff(c);
    var start := Report(GasSetIssues(c), [], false);
    RangePhaseFacts(c, start, c.supportedGases);
    var ranged := RangePhase(c, start, c.supportedGases);
    var yellowed := ranged.(critical := ranged.critical + (if !YellowInRange(c.yellowWarningPercent) then [YellowOutOfRange] else []));
    RoundingPhaseFacts(c, yellowed, c.supportedGases);
  }

  /**
   * Every logged critical issue is genuine, also in a report that ended in a crash: it was
   * produced by the check of its kind, on a configuration that fails that check.
   */
  lemma LoggedIssuesAreGenuine(c: Config)
    ensures forall x :: x in ConfigReport(c).critical ==>
      (|c.windows| > 0 && x in GasSetIssues(c))
      || (x.LimitsOutsideSensorRange? && x.gas in c.supportedGases && !RangeLookupFails(c, x.gas) && OutOfRange(c, x.gas))
      || (x == YellowOutOfRange && !YellowInRange(c.yellowWarningPercent))
      || (x.BadRoundingFactor? && x.gas in c.supportedGases && x.gas in c.safeRoundingFactors
          && !RoundingFactorOk(c.safeRoundingFactors[x.gas]))
      || (x == BadAutofill && !RoundingFactorOk(c.autofillMins))
  {
    if |c.windows| > 0 {
      var start := Report(GasSetIssues(c), [], false);
      RangePhaseFacts(c, start, c.supportedGases);
      var ranged := RangePhase(c, start, c.supportedGases);
      if !ranged.crashed {
        var yellowed := ranged.(critical := ranged.critical + (if !YellowInRange(c.yellowWarningPercent) then [YellowOutOfRange] else []));
        RoundingPhaseFacts(c, yellowed, c.supportedGases);
      }
    }
  }

  /** The gas-set checks log one issue listing exactly the mismatched windows, and one for unlimited gases. */
  lemma GasSetIssuesIff(c: Config)
    requires |c.windows| > 0
    ensures (exists x :: x in GasSetIssues(c) && x.MismatchedGasSets?) <==>
      exists i :: 0 <= i < |c.windows| && c.windows[i].gasLimits.Keys != c.windows[0].gasLimits.Keys
    ensures forall x :: x in GasSetIssues(c) && x.MismatchedGasSets? ==>
      forall i :: i in x.windows <==> 0 <= i < |c.windows| && c.windows[i].gasLimits.Keys != c.windows[0].gasLimits.Keys
    ensures SupportedGasWithoutLimits in GasSetIssues(c) <==> !SupportedGasesInFirstWindow(c)
  {
    var idx := MismatchedWindows(c.windows, c.windows[0].gasLimits.Keys, 0);
    if exists i :: 0 <= i < |c.windows| && c.windows[i].gasLimits.Keys != c.windows[0].gasLimits.Keys {
      var i :| 0 <= i < |c.windows| && c.windows[i].gasLimits.Keys != c.windows[0].gasLimits.Keys;
      assert i in idx;
    }
    if idx != [] {
      assert idx[0] in idx;
      assert MismatchedGasSets(idx) in GasSetIssues(c);
    }
  }

  /** The gas-set issues are logged even when a later lookup crashes. */
  lemma GasSetIssuesAlwaysLogged(c: Config)
    requires |c.windows| > 0
    ensures forall x :: x in GasSetIssues(c) ==> x in ConfigReport(c).critical
  {
    var start := Report(GasSetIssues(c), [], false);
    RangePhaseFacts(c, start, c.supportedGases);
    var ranged := RangePhase(c, start, c.supportedGases);
    if !ranged.crashed {
      var yellowed := ranged.(critical := ranged.critical + (if !YellowInRange(c.yellowWarningPercent) then [YellowOutOfRange] else []));
      RoundingPhaseFacts(c, yellowed, c.supportedGases);
    }
  }

  /**
   * The configuration meets every critical rule: all windows cover the same gases, every
   * supported gas has limits within its sensor's range in every window, yellow is strictly
   * between 0 and 100, and rounding factors and the autofill buffer are non-negative integers.
   */
  ghost predicate ConfigSound(c: Config) {
    && |c.windows| > 0
    && (forall i :: 0 <= i < |c.windows| ==> c.windows[i].gasLimits.Keys == c.windows[0].gasLimits.Keys)
    && (forall g :: g in c.supportedGases ==> g in SensorRangePpm && LimitsWithinSensorRange(c, g))
    && YellowInRange(c.yellowWarningPercent)
    && (forall g :: g in c.supportedGases ==> g in c.safeRoundingFactors && RoundingFactorOk(c.safeRoundingFactors[g]))
    && RoundingFactorOk(c.autofillMins)
  }

  /** Every window has a limit for g, within the sensor's range (g being in the range table). */
  ghost predicate LimitsWithinSensorRange(c: Config, g: Gas)
    requires g in SensorRangePpm
  {
    forall i :: 0 <= i < |c.windows| ==>
      (g in c.windows[i].gasLimits && SensorRangePpm[g].min <= c.windows[i].gasLimits[g] <= SensorRangePpm[g].max)
  }

  /** Validation accepts exactly the sound configurations; warnings play no part. */
  lemma AcceptsIff(c: Config)
    ensures Accepts(ConfigReport(c)) <==> ConfigSound(c)
  {
    ConfigCrashIff(c);
    if Accepts(ConfigReport(c)) {
      ReportMembership(c);
      GasSetIssuesIff(c);
      forall g | g in c.supportedGases && !RangeLookupFails(c, g)
        ensures !OutOfRange(c, g)
      {
        assert LimitsOutsideSensorRange(g) !in ConfigReport(c).critical;
      }
      forall g | g in c.supportedGases
        ensures g in c.safeRoundingFactors && RoundingFactorOk(c.safeRoundingFactors[g])
      {
        assert BadRoundingFactor(g) !in ConfigReport(c).critical;
      }
      assert YellowOutOfRange !in ConfigReport(c).critical;
      assert BadAutofill !in ConfigReport(c).critical;
    }
    if ConfigSound(c) {
      assert !SomeRangeLookupFails(c);
      assert !SomeRoundingFactorMissing(c);
      GasSetIssuesIff(c);
      assert SupportedGasesInFirstWindow(c);
      assert GasSetIssues(c) == [];
      forall g | g in c.supportedGases && !RangeLookupFails(c, g)
        ensures !OutOfRange(c, g)
      {
        assert LimitsWithinSensorRange(c, g);
      }
      var critical := ConfigReport(c).critical;
      if critical != [] {
        var x := critical[0];
        assert x in ConfigReport(c).critical;
        ReportMembership(c);
        assert false;
      }
    }
  }

  /** A configuration the validator accepts gives the engine everything it relies on. */
  lemma AcceptedIsWellFormed(c: Config)
    requires Accepts(ConfigReport(c))
    ensures WellFormed(c)
  {
    AcceptsIff(c);
    forall g, i | g in c.supportedGases && 0 <= i < |c.windows|
      ensures g in c.windows[i].gasLimits && c.windows[i].gasLimits[g] > 0.0
    {
      assert SensorRangePpm[g].min > 0.0;
    }
  }

  // ---------------------------------------------------------------------------------
  // The yellow threshold

  /**
   * As written, the yellow check accepts 0 < y < 100, but the status bins are
   * [0, y - 1, 99, 99000, inf] and binning fails unless they strictly increase, so every
   * status classification of a configuration with 0 < y <= 1 raises.
   */
  lemma ValidatorAdmitsUnorderedBins()
    ensures var c := Config([Window(60, map[CarbonMonoxide := 20.0])], [CarbonMonoxide], 0.5,
                            map[CarbonMonoxide := IntNumber(2)], IntNumber(10));
      Accepts(ConfigReport(c)) && !BinsIncrease(c.yellowWarningPercent)
  {
    var c := Config([Window(60, map[CarbonMonoxide := 20.0])], [CarbonMonoxide], 0.5,
                    map[CarbonMonoxide := IntNumber(2)], IntNumber(10));
    assert LimitsWithinSensorRange(c, CarbonMonoxide);
    assert ConfigSound(c);
    AcceptsIff(c);
  }

  /** The corrected yellow rule: a critical issue unless the status bins strictly increase. */
  function StrictYellowIssue(y: real): (bad: bool)
    ensures !bad <==> BinsIncrease(y)
    ensures !bad ==> YellowInRange(y)
  {
    !(1.0 < y < 100.0)
  }

  /** Acceptance under the corrected yellow rule, as the engine uses it. */
  predicate AcceptsCorrected(c: Config) {
    Accepts(ConfigReport(c)) && !StrictYellowIssue(c.yellowWarningPercent)
  }

  /** The corrected validation accepts exactly the sound configurations whose status bins increase. */
  lemma AcceptsCorrectedIff(c: Config)
    ensures AcceptsCorrected(c) <==> ConfigSound(c) && BinsIncrease(c.yellowWarningPercent)
    ensures AcceptsCorrected(c) ==> WellFormed(c)
  {
    AcceptsIff(c);
    if AcceptsCorrected(c) {
      AcceptedIsWellFormed(c);
    }
  }
}
