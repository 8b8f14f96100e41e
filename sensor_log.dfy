/** Rows of the firefighter sensor log and the inclusive time-range query over them. */
module SensorLog {
  import opened Wrappers
  import opened ExposureConfig

  /**
   * One reading of one firefighter, keyed by the minute it was captured in.
   * A gas value is None when the column is null; the device writes a negative value
   * when the sensor's range was exceeded. Other telemetry passes through untouched.
   */
  datatype SensorRow = SensorRow(
    ff: FfId,
    ts: int,
    gases: map<Gas, Option<real>>,
    telemetry: map<string, real>)

  /** The raw value of a gas in a row; a gas with no value in the row reads as null. */
  function GasValue(r: SensorRow, g: Gas): Option<real> {
    if g in r.gases then r.gases[g] else None
  }

  /** Every row whose minute lies in [start, end], both ends included. */
  function RowsBetween(log: seq<SensorRow>, start: int, end: int): (block: seq<SensorRow>)
    ensures forall r :: r in block <==> r in log && start <= r.ts <= end
    ensures |block| <= |log|
  {
    if log == [] then []
    else
      var rest := RowsBetween(log[1..], start, end);
      assert forall r :: r in log <==> r == log[0] || r in log[1..];
      if start <= log[0].ts <= end then [log[0]] + rest else rest
  }

  /** Does firefighter ff have a row in these rows? */
  predicate HasRowsFor(rows: seq<SensorRow>, ff: FfId) {
    exists i :: 0 <= i < |rows| && rows[i].ff == ff
  }
}
