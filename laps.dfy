/** The session data the aggregation pipeline reads.  Everything here is what the
    timing-data provider hands over: the pipeline never changes it. */
module Laps {
  import opened Wrappers
  import Stats

  /** The identifier the user selects a driver by. */
  type DriverId = string

  /** The Compound field of a lap record: either the record has no such field, or
      it has one whose cell may itself be null. */
  datatype CompoundField = NoCompoundField | CompoundCell(cell: Option<string>)

  /** One row of a driver's lap frame.  Durations are whole milliseconds; a `None`
      duration is a null (NaT) cell. */
  datatype Lap = Lap(
    lapNumber: int,
    lapTime: Option<nat>,
    compound: CompoundField,
    sector1Time: Option<nat>,
    sector2Time: Option<nat>,
    sector3Time: Option<nat>)

  /** What the provider returns for one driver: the display abbreviation
      (`get_driver(d)['Abbreviation']`), the driver's laps in the provider's order
      (`pick_driver(d)`), and the lap the provider calls fastest (`pick_fastest()`),
      taken as given. */
  datatype Driver = Driver(abbreviation: string, laps: seq<Lap>, fastest: Option<Lap>)

  /** A loaded session, keyed by driver identifier. */
  type Session = map<DriverId, Driver>

  /** Every selected driver belongs to the session (the driver picker only offers
      the session's own drivers). */
  predicate AllKnown(s: Session, ds: seq<DriverId>)
  {
    forall i :: 0 <= i < |ds| ==> ds[i] in s
  }

  /** The LapTime column of a lap frame. */
  function LapTimes(laps: seq<Lap>): seq<Option<nat>>
  {
    seq(|laps|, j requires 0 <= j < |laps| => laps[j].lapTime)
  }

  /** The number of laps whose lap time is present: the non-null cells of the
      LapTime column. */
  function TimedLapCount(laps: seq<Lap>): nat
  {
    |Stats.PresentIndices(LapTimes(laps))|
  }
}
