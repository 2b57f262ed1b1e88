/** The lap table behind the lap-time chart: one row per lap that has a lap time,
    for each selected driver in turn. */
module LapTable {
  import opened Wrappers
  import opened Laps
  import Stats

  /** One row of the table.  `lapTime` is always a value: laps without one give no row.
      A `None` compound or sector is a null cell. */
  datatype LapRow = LapRow(
    driver: string,
    lapNumber: int,
    lapTime: nat,
    compound: Option<string>,
    sector1: Option<nat>,
    sector2: Option<nat>,
    sector3: Option<nat>)

  /** The compound reported when the lap record has no Compound field. */
  const UnknownCompound: string := "Unknown"

  function ToRow(abbreviation: string, lap: Lap): LapRow
    requires lap.lapTime.Some?
  {
    LapRow(abbreviation, lap.lapNumber, lap.lapTime.value,
           if lap.compound.CompoundCell? then lap.compound.cell else Some(UnknownCompound),
           lap.sector1Time, lap.sector2Time, lap.sector3Time)
  }

  /** `row` reports `lap` of the driver shown as `abbreviation`: every field is
      copied, a null sector or compound cell stays null, and only a record with no
      Compound field reads "Unknown". */
  predicate Reports(row: LapRow, abbreviation: string, lap: Lap)
  {
    && row.driver == abbreviation
    && lap.lapTime == Some(row.lapTime)
    && row.lapNumber == lap.lapNumber
    && row.sector1 == lap.sector1Time
    && row.sector2 == lap.sector2Time
    && row.sector3 == lap.sector3Time
    && (lap.compound.CompoundCell? ==> row.compound == lap.compound.cell)
    && (lap.compound.NoCompoundField? ==> row.compound == Some(UnknownCompound))
  }

  /** Some row of `rows` reports `lap`. */
  predicate Reported(rows: seq<LapRow>, abbreviation: string, lap: Lap)
  {
    exists k :: 0 <= k < |rows| && Reports(rows[k], abbreviation, lap)
  }

  /** The rows one driver contributes, in lap order. */
  function DriverRows(abbreviation: string, laps: seq<Lap>): seq<LapRow>
  {
    if |laps| == 0 then []
    else
      var lap := laps[|laps| - 1];
      DriverRows(abbreviation, laps[..|laps| - 1])
        + (if lap.lapTime.Some? then [ToRow(abbreviation, lap)] else [])
  }

  /** The rows of the whole table, driver after driver in selection order. */
  function LapRows(s: Session, ds: seq<DriverId>): seq<LapRow>
    requires AllKnown(s, ds)
  {
    if |ds| == 0 then []
    else
      var d := s[ds[|ds| - 1]];
      LapRows(s, ds[..|ds| - 1]) + DriverRows(d.abbreviation, d.laps)
  }

  /** `create_lap_time_chart`: the table, or `None` when it would be empty. */
  method BuildLapTable(s: Session, selected: seq<DriverId>) returns (table: Option<seq<LapRow>>)
    requires AllKnown(s, selected)
    ensures table.None? <==> LapRows(s, selected) == []
    ensures table.Some? ==> table.value == LapRows(s, selected)
  {
    var rows: seq<LapRow> := [];
    for i := 0 to |selected|
      invariant rows == LapRows(s, selected[..i])
    {
      var driver := s[selected[i]];
      for j := 0 to |driver.laps|
        invariant rows == LapRows(s, selected[..i]) + DriverRows(driver.abbreviation, driver.laps[..j])
      {
        var lap := driver.laps[j];
        assert driver.laps[..j + 1][..j] == driver.laps[..j];
        if lap.lapTime.Some? {
          rows := rows + [ToRow(driver.abbreviation, lap)];
        }
      }
      assert driver.laps[..|driver.laps|] == driver.laps;
      assert selected[..i + 1][..i] == selected[..i];
    }
    assert selected[..|selected|] == selected;
    table := if rows == [] then None else Some(rows);
  }

  /** Within one driver, the rows of a longer lap list extend those of its prefix. */
  lemma {:induction false} DriverRowsAppend(abbreviation: string, laps1: seq<Lap>, laps2: seq<Lap>)
    ensures DriverRows(abbreviation, laps1 + laps2)
         == DriverRows(abbreviation, laps1) + DriverRows(abbreviation, laps2)
    decreases |laps2|
  {
    if |laps2| == 0 {
      assert laps1 + laps2 == laps1;
    } else {
      var n := |laps2| - 1;
      assert (laps1 + laps2)[..|laps1 + laps2| - 1] == laps1 + laps2[..n];
      DriverRowsAppend(abbreviation, laps1, laps2[..n]);
    }
  }

  /** Every row reports some lap of the driver that has a lap time. */
  lemma {:induction false} DriverRowsSound(abbreviation: string, laps: seq<Lap>)
    ensures forall k :: 0 <= k < |DriverRows(abbreviation, laps)| ==>
      exists j :: 0 <= j < |laps| && Reports(DriverRows(abbreviation, laps)[k], abbreviation, laps[j])
    decreases |laps|
  {
    if |laps| > 0 {
      var n := |laps| - 1;
      var front := laps[..n];
      DriverRowsSound(abbreviation, front);
      var rows := DriverRows(abbreviation, laps);
      forall k | 0 <= k < |rows|
        ensures exists j :: 0 <= j < |laps| && Reports(rows[k], abbreviation, laps[j])
      {
        if k < |DriverRows(abbreviation, front)| {
          var j :| 0 <= j < |front| && Reports(DriverRows(abbreviation, front)[k], abbreviation, front[j]);
          assert laps[j] == front[j];
          assert rows[k] == DriverRows(abbreviation, front)[k];
        } else {
          assert Reports(rows[k], abbreviation, laps[n]);
        }
      }
    } else {
      assert DriverRows(abbreviation, laps) == [];
    }
  }

  /** Every lap with a lap time is reported by some row. */
  lemma {:induction false} DriverRowsComplete(abbreviation: string, laps: seq<Lap>)
    ensures forall j :: 0 <= j < |laps| && laps[j].lapTime.Some? ==>
      Reported(DriverRows(abbreviation, laps), abbreviation, laps[j])
    decreases |laps|
  {
    if |laps| > 0 {
      var n := |laps| - 1;
      var front := laps[..n];
      DriverRowsComplete(abbreviation, front);
      var rows := DriverRows(abbreviation, laps);
      forall j | 0 <= j < |laps| && laps[j].lapTime.Some?
        ensures Reported(rows, abbreviation, laps[j])
      {
        if j < n {
          assert front[j] == laps[j];
          var k :| 0 <= k < |DriverRows(abbreviation, front)| && Reports(DriverRows(abbreviation, front)[k], abbreviation, front[j]);
          assert rows[k] == DriverRows(abbreviation, front)[k];
          assert Reports(rows[k], abbreviation, laps[j]);
        } else {
          assert rows == DriverRows(abbreviation, front) + [ToRow(abbreviation, laps[n])];
          assert Reports(rows[|rows| - 1], abbreviation, laps[j]);
        }
      }
    }
  }

  /** A driver contributes one row per lap with a lap time, and no other. */
  lemma {:induction false} DriverRowsCount(abbreviation: string, laps: seq<Lap>)
    ensures |DriverRows(abbreviation, laps)| == TimedLapCount(laps)
    decreases |laps|
  {
    if |laps| > 0 {
      var n := |laps| - 1;
      DriverRowsCount(abbreviation, laps[..n]);
      var before := Stats.PresentIndices(LapTimes(laps[..n]));
      var after := Stats.PresentIndices(LapTimes(laps));
      if laps[n].lapTime.Some? {
        assert after == before + {n};
      } else {
        assert after == before;
      }
    }
  }

  /** The laps of the selected drivers that have a lap time, summed over drivers. */
  function TotalTimedLaps(s: Session, ds: seq<DriverId>): nat
    requires AllKnown(s, ds)
  {
    if |ds| == 0 then 0
    else TotalTimedLaps(s, ds[..|ds| - 1]) + TimedLapCount(s[ds[|ds| - 1]].laps)
  }

  /** The table has exactly one row per selected lap whose lap time is present. */
  lemma {:induction false} LapRowsCount(s: Session, ds: seq<DriverId>)
    requires AllKnown(s, ds)
    ensures |LapRows(s, ds)| == TotalTimedLaps(s, ds)
    decreases |ds|
  {
    if |ds| > 0 {
      var d := s[ds[|ds| - 1]];
      LapRowsCount(s, ds[..|ds| - 1]);
      DriverRowsCount(d.abbreviation, d.laps);
    }
  }

  /** Rows are grouped by driver in selection order: the table for two driver lists
      one after the other is the first table followed by the second. */
  lemma {:induction false} LapRowsAppend(s: Session, ds1: seq<DriverId>, ds2: seq<DriverId>)
    requires AllKnown(s, ds1) && AllKnown(s, ds2)
    ensures AllKnown(s, ds1 + ds2)
    ensures LapRows(s, ds1 + ds2) == LapRows(s, ds1) + LapRows(s, ds2)
    decreases |ds2|
  {
    assert AllKnown(s, ds1 + ds2) by {
      forall i | 0 <= i < |ds1 + ds2| ensures (ds1 + ds2)[i] in s {
        if i >= |ds1| { assert (ds1 + ds2)[i] == ds2[i - |ds1|]; }
      }
    }
    if |ds2| == 0 {
      assert ds1 + ds2 == ds1;
    } else {
      var n := |ds2| - 1;
      assert (ds1 + ds2)[..|ds1 + ds2| - 1] == ds1 + ds2[..n];
      assert AllKnown(s, ds2[..n]);
      LapRowsAppend(s, ds1, ds2[..n]);
    }
  }

  /** The rows of the `i`-th selected driver sit at positions
      `TotalTimedLaps(s, ds[..i])` up to `TotalTimedLaps(s, ds[..i + 1])` of the
      table: that slice is exactly that driver's rows, and the earlier drivers'
      rows all come before it. */
  lemma LapRowsGroup(s: Session, ds: seq<DriverId>, i: nat)
    requires AllKnown(s, ds) && i < |ds|
    ensures AllKnown(s, ds[..i]) && AllKnown(s, ds[..i + 1])
    ensures TotalTimedLaps(s, ds[..i]) <= TotalTimedLaps(s, ds[..i + 1]) <= |LapRows(s, ds)|
    ensures LapRows(s, ds)[TotalTimedLaps(s, ds[..i]) .. TotalTimedLaps(s, ds[..i + 1])]
         == DriverRows(s[ds[i]].abbreviation, s[ds[i]].laps)
  {
    var before, upto, after := ds[..i], ds[..i + 1], ds[i + 1..];
    assert AllKnown(s, before) && AllKnown(s, upto);
    assert AllKnown(s, after) by {
      forall k | 0 <= k < |after| ensures after[k] in s { assert after[k] == ds[i + 1 + k]; }
    }
    assert upto[..|upto| - 1] == before;
    assert ds == upto + after;
    LapRowsAppend(s, upto, after);
    LapRowsCount(s, before);
    LapRowsCount(s, upto);
    var d := s[ds[i]];
    assert LapRows(s, upto) == LapRows(s, before) + DriverRows(d.abbreviation, d.laps);
  }

  /** Every row of the table reports a timed lap of one of the selected drivers. */
  lemma {:induction false} LapRowsSound(s: Session, ds: seq<DriverId>)
    requires AllKnown(s, ds)
    ensures forall k :: 0 <= k < |LapRows(s, ds)| ==>
      exists i, j :: 0 <= i < |ds| && 0 <= j < |s[ds[i]].laps|
        && Reports(LapRows(s, ds)[k], s[ds[i]].abbreviation, s[ds[i]].laps[j])
    decreases |ds|
  {
    if |ds| > 0 {
      var n := |ds| - 1;
      var front := ds[..n];
      var d := s[ds[n]];
      LapRowsSound(s, front);
      DriverRowsSound(d.abbreviation, d.laps);
      var rows := LapRows(s, ds);
      var m := |LapRows(s, front)|;
      forall k | 0 <= k < |rows|
        ensures exists i, j :: (0 <= i < |ds| && 0 <= j < |s[ds[i]].laps|
          && Reports(rows[k], s[ds[i]].abbreviation, s[ds[i]].laps[j]))
      {
        if k < m {
          var i, j :| 0 <= i < |front| && 0 <= j < |s[front[i]].laps|
            && Reports(LapRows(s, front)[k], s[front[i]].abbreviation, s[front[i]].laps[j]);
          assert front[i] == ds[i];
          assert rows[k] == LapRows(s, front)[k];
        } else {
          assert rows[k] == DriverRows(d.abbreviation, d.laps)[k - m];
          var j :| 0 <= j < |d.laps| && Reports(DriverRows(d.abbreviation, d.laps)[k - m], d.abbreviation, d.laps[j]);
          assert Reports(rows[k], s[ds[n]].abbreviation, s[ds[n]].laps[j]);
        }
      }
    } else {
      assert LapRows(s, ds) == [];
    }
  }

  /** Every timed lap of every selected driver is reported by some row. */
  lemma {:induction false} LapRowsComplete(s: Session, ds: seq<DriverId>)
    requires AllKnown(s, ds)
    ensures forall i, j :: 0 <= i < |ds| && 0 <= j < |s[ds[i]].laps| && s[ds[i]].laps[j].lapTime.Some? ==>
      Reported(LapRows(s, ds), s[ds[i]].abbreviation, s[ds[i]].laps[j])
    decreases |ds|
  {
    if |ds| > 0 {
      var n := |ds| - 1;
      var front := ds[..n];
      var d := s[ds[n]];
      LapRowsComplete(s, front);
      DriverRowsComplete(d.abbreviation, d.laps);
      var rows := LapRows(s, ds);
      var m := |LapRows(s, front)|;
      forall i, j | 0 <= i < |ds| && 0 <= j < |s[ds[i]].laps| && s[ds[i]].laps[j].lapTime.Some?
        ensures Reported(rows, s[ds[i]].abbreviation, s[ds[i]].laps[j])
      {
        if i < n {
          assert front[i] == ds[i];
          var k :| 0 <= k < m && Reports(LapRows(s, front)[k], s[front[i]].abbreviation, s[front[i]].laps[j]);
          assert rows[k] == LapRows(s, front)[k];
        } else {
          var k :| 0 <= k < |DriverRows(d.abbreviation, d.laps)| && Reports(DriverRows(d.abbreviation, d.laps)[k], d.abbreviation, d.laps[j]);
          assert rows[m + k] == DriverRows(d.abbreviation, d.laps)[k];
        }
      }
    }
  }

  /** The table is empty, so the builder answers `None`, exactly when no selected
      driver has a lap with a lap time (in particular when no driver is selected). */
  lemma LapTableEmptyIff(s: Session, ds: seq<DriverId>)
    requires AllKnown(s, ds)
    ensures LapRows(s, ds) == [] <==>
      forall i, j :: 0 <= i < |ds| && 0 <= j < |s[ds[i]].laps| ==> s[ds[i]].laps[j].lapTime.None?
  {
    var rows := LapRows(s, ds);
    if rows != [] {
      LapRowsSound(s, ds);
      var i, j :| 0 <= i < |ds| && 0 <= j < |s[ds[i]].laps| && Reports(rows[0], s[ds[i]].abbreviation, s[ds[i]].laps[j]);
      assert s[ds[i]].laps[j].lapTime.Some?;
    } else {
      LapRowsComplete(s, ds);
      forall i, j | 0 <= i < |ds| && 0 <= j < |s[ds[i]].laps|
        ensures s[ds[i]].laps[j].lapTime.None?
      {
        assert !Reported(rows, s[ds[i]].abbreviation, s[ds[i]].laps[j]);
      }
    }
  }
}
