/** The engine's configuration document and the constants it is checked against. */
module ExposureConfig {

  /** Gases and firefighters are named by strings, as in the configuration and the sensor log. */
  type Gas = string
  type FfId = string

  /** A JSON number: the validator distinguishes integers from other numbers. */
  datatype Number = IntNumber(i: int) | FloatNumber(f: real)

  /** One configured time window: its length in minutes and a ppm limit per gas. */
  datatype Window = Window(mins: int, gasLimits: map<Gas, real>)

  datatype Config = Config(
    windows: seq<Window>,
    supportedGases: seq<Gas>,
    yellowWarningPercent: real,
    safeRoundingFactors: map<Gas, Number>,
    autofillMins: Number)

  /** The sensing range of a sensor, in ppm. */
  datatype SensorRange = SensorRange(min: real, max: real)

  const CarbonMonoxide: Gas := "carbon_monoxide"
  const NitrogenDioxide: Gas := "nitrogen_dioxide"

  /** Hard-coded hardware ranges (CJMCU-4541 / MICS-4514); not configurable. */
  const SensorRangePpm: map<Gas, SensorRange> :=
    map[CarbonMonoxide := SensorRange(1.0, 1000.0), NitrogenDioxide := SensorRange(0.05, 10.0)]

  /** Status codes as written to the analytics table. */
  const GreenCode: int := 1
  const YellowCode: int := 2
  const RedCode: int := 3
  const RangeExceededCode: int := -1

  /** Gauge percentages bounding the status bins (yellow comes from the configuration). */
  const GreenRangeStart: real := 0.0
  const RedRangeStart: real := 99.0
  const RedRangeEnd: real := RedRangeStart * 1000.0

  /** Autofill buffers longer than this many minutes draw a warning. */
  const AutofillWarningMins: int := 20

  /** The length of the longest configured window. */
  function LongestWindowMins(ws: seq<Window>): (longest: int)
    requires |ws| > 0
    ensures forall i :: 0 <= i < |ws| ==> ws[i].mins <= longest
    ensures exists i :: 0 <= i < |ws| && ws[i].mins == longest
  {
    if |ws| == 1 then ws[0].mins
    else
      var rest := LongestWindowMins(ws[1..]);
      assert forall i :: 1 <= i < |ws| ==> ws[i] == ws[1..][i - 1];
      if ws[0].mins >= rest then ws[0].mins else rest
  }

  /**
   * What the engine relies on once the configuration has been accepted:
   * at least one window, every supported gas has a positive limit in every window,
   * a non-negative integer rounding factor, and a non-negative integer autofill buffer.
   */
  ghost predicate WellFormed(c: Config) {
    && |c.windows| > 0
    && (forall g, i :: g in c.supportedGases && 0 <= i < |c.windows| ==>
          g in c.windows[i].gasLimits && c.windows[i].gasLimits[g] > 0.0)
    && (forall g :: g in c.supportedGases ==>
          g in c.safeRoundingFactors && c.safeRoundingFactors[g].IntNumber? && c.safeRoundingFactors[g].i >= 0)
    && c.autofillMins.IntNumber? && c.autofillMins.i >= 0
  }

  /** The configured autofill buffer, in minutes. */
  function AutofillMins(c: Config): nat
    requires WellFormed(c)
  {
    c.autofillMins.i
  }

  /** The configured number of decimal places kept for a gas. */
  function RoundingFactor(c: Config, g: Gas): nat
    requires WellFormed(c) && g in c.supportedGases
  {
    c.safeRoundingFactors[g].i
  }
}
