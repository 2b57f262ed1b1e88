/** The telemetry chart of one driver's lap: which lap is drawn, and the traces
    drawn from that lap's telemetry. */
module TelemetryPlot {
  import opened Wrappers
  import opened Laps

  /** A lap number argument counts as given when it is present and non-zero
      (Python truthiness: both `None` and `0` fall back to the fastest lap). */
  predicate LapNumberGiven(lapNumber: Option<int>)
  {
    lapNumber.Some? && lapNumber.value != 0
  }

  /** `pick_lap(n)`: the driver's laps numbered `n`, in lap order. Every lap
      numbered `n` is kept, no other lap is, and the result is never longer. */
  function PickLap(laps: seq<Lap>, n: int): (r: seq<Lap>)
    ensures |r| <= |laps|
    ensures forall lap :: lap in r <==> lap in laps && lap.lapNumber == n
    decreases |laps|
  {
    if |laps| == 0 then []
    else
      var front := laps[..|laps| - 1];
      var lap := laps[|laps| - 1];
      assert laps == front + [lap];
      PickLap(front, n) + (if lap.lapNumber == n then [lap] else [])
  }

  /** What the chart is drawn from: the laps picked by number (a lap frame, which
      is never `None`), or the lap the provider calls fastest (possibly `None`). */
  datatype LapSelection = ByNumber(number: int, laps: seq<Lap>) | Fastest(lap: Option<Lap>)

  function SelectLap(s: Session, driver: DriverId, lapNumber: Option<int>): (sel: LapSelection)
    requires driver in s
    ensures sel.ByNumber? <==> LapNumberGiven(lapNumber)
    ensures sel.ByNumber? ==> sel.number == lapNumber.value
    ensures sel.ByNumber? ==>
      forall lap :: lap in sel.laps <==> lap in s[driver].laps && lap.lapNumber == lapNumber.value
    ensures sel.Fastest? ==> sel.lap == s[driver].fastest
  {
    if LapNumberGiven(lapNumber) then
      ByNumber(lapNumber.value, PickLap(s[driver].laps, lapNumber.value))
    else
      Fastest(s[driver].fastest)
  }

  /** The `lap is not None` test: only a missing fastest lap stops the chart. */
  predicate HasLap(sel: LapSelection)
  {
    sel.ByNumber? || sel.lap.Some?
  }

  /** A given lap number always passes the `lap is not None` test, even when the
      driver has no lap with that number: the selection is then an empty lap frame. */
  lemma GivenLapNumberAlwaysSelected(s: Session, driver: DriverId, lapNumber: Option<int>)
    requires driver in s && LapNumberGiven(lapNumber)
    ensures HasLap(SelectLap(s, driver, lapNumber))
    ensures (forall j :: 0 <= j < |s[driver].laps| ==> s[driver].laps[j].lapNumber != lapNumber.value)
        ==> SelectLap(s, driver, lapNumber).laps == []
  {
    var sel := SelectLap(s, driver, lapNumber);
    if sel.laps != [] {
      assert sel.laps[0] in sel.laps;
    }
  }

  /** The lap number shown in the chart title. */
  function ResolvedLapNumber(sel: LapSelection): int
    requires HasLap(sel)
  {
    if sel.ByNumber? then sel.number else sel.lap.value.lapNumber
  }

  /** The telemetry of the selected lap; throttle and brake are `None` when the
      frame has no such column. */
  datatype Telemetry = Telemetry(
    distance: seq<real>,
    speed: seq<real>,
    throttle: Option<seq<real>>,
    brake: Option<seq<real>>)

  datatype Trace = Trace(name: string, x: seq<real>, y: seq<real>)

  datatype Figure = Figure(driver: DriverId, lapNumber: int, traces: seq<Trace>)

  /** The brake channel on a 0-100 scale for display: one value per sample,
      each of which gives back the raw sample when divided by 100. */
  function BrakePercent(raw: seq<real>): (pct: seq<real>)
    ensures |pct| == |raw|
    ensures forall i :: 0 <= i < |raw| ==> pct[i] / 100.0 == raw[i]
  {
    seq(|raw|, i requires 0 <= i < |raw| => raw[i] * 100.0)
  }

  /** Raw brake values in [0, 1] are drawn in [0, 100]. */
  lemma BrakePercentRange(raw: seq<real>)
    requires forall i :: 0 <= i < |raw| ==> 0.0 <= raw[i] <= 1.0
    ensures forall i :: 0 <= i < |BrakePercent(raw)| ==> 0.0 <= BrakePercent(raw)[i] <= 100.0
  {
  }

  /** `create_telemetry_plot` once the lap is selected and its telemetry fetched. */
  function TelemetryFigure(driver: DriverId, sel: LapSelection, tel: Telemetry): (fig: Option<Figure>)
    ensures fig.Some? <==> HasLap(sel)
    ensures fig.Some? ==> fig.value.driver == driver && fig.value.lapNumber == ResolvedLapNumber(sel)
  {
    if !HasLap(sel) then None
    else
      var speed := [Trace("Speed", tel.distance, tel.speed)];
      var throttle := if tel.throttle.Some? then [Trace("Throttle", tel.distance, tel.throttle.value)] else [];
      var brake := if tel.brake.Some? then [Trace("Brake", tel.distance, BrakePercent(tel.brake.value))] else [];
      Some(Figure(driver, ResolvedLapNumber(sel), speed + throttle + brake))
  }

  /** The figure has a trace with this name. */
  predicate HasTrace(fig: Figure, name: string)
  {
    exists k :: 0 <= k < |fig.traces| && fig.traces[k].name == name
  }

  /** The chart always draws speed first, draws throttle and brake exactly when the
      telemetry has those columns, plots every trace against the unchanged distance
      channel, and copies every channel except brake, which is scaled by 100. */
  lemma TelemetryFigureTraces(driver: DriverId, sel: LapSelection, tel: Telemetry)
    requires HasLap(sel)
    ensures TelemetryFigure(driver, sel, tel).Some?
    ensures var fig := TelemetryFigure(driver, sel, tel).value;
      && |fig.traces| >= 1
      && fig.traces[0] == Trace("Speed", tel.distance, tel.speed)
      && (HasTrace(fig, "Throttle") <==> tel.throttle.Some?)
      && (HasTrace(fig, "Brake") <==> tel.brake.Some?)
      && (forall k :: 0 <= k < |fig.traces| ==> fig.traces[k].x == tel.distance)
      && (forall k :: 0 <= k < |fig.traces| && fig.traces[k].name == "Throttle" ==>
            fig.traces[k].y == tel.throttle.value)
      && (forall k :: 0 <= k < |fig.traces| && fig.traces[k].name == "Brake" ==>
            fig.traces[k].y == BrakePercent(tel.brake.value))
  {
    var fig := TelemetryFigure(driver, sel, tel).value;
    if tel.throttle.Some? {
      assert fig.traces[1].name == "Throttle";
    }
    if tel.brake.Some? {
      assert fig.traces[|fig.traces| - 1].name == "Brake";
    }
  }

  /** With the raw brake channel in [0, 1], the brake trace stays within [0, 100]. */
  lemma TelemetryFigureBrakeRange(driver: DriverId, sel: LapSelection, tel: Telemetry)
    requires HasLap(sel) && tel.brake.Some?
    requires forall i :: 0 <= i < |tel.brake.value| ==> 0.0 <= tel.brake.value[i] <= 1.0
    ensures TelemetryFigure(driver, sel, tel).Some?
    ensures var traces := TelemetryFigure(driver, sel, tel).value.traces;
      forall k, i :: (0 <= k < |traces| && traces[k].name == "Brake" && 0 <= i < |traces[k].y|) ==>
        0.0 <= traces[k].y[i] <= 100.0
  {
    TelemetryFigureTraces(driver, sel, tel);
    BrakePercentRange(tel.brake.value);
  }
}
