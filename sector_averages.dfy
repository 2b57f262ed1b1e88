/** The average-sector-times table: the lap table grouped by driver, with the mean
    of each sector column over the driver's rows, null cells left out. */
module SectorAverages {
  import opened Wrappers
  import opened LapTable
  import Stats

  datatype Sector = Sector1 | Sector2 | Sector3

  function SectorTime(row: LapRow, sector: Sector): Option<nat>
  {
    match sector
    case Sector1 => row.sector1
    case Sector2 => row.sector2
    case Sector3 => row.sector3
  }

  /** One row of the table; `None` is a NaN cell: the driver has no value in that sector. */
  datatype SectorMeans = SectorMeans(sector1: Option<real>, sector2: Option<real>, sector3: Option<real>)

  function Cell(means: SectorMeans, sector: Sector): Option<real>
  {
    match sector
    case Sector1 => means.sector1
    case Sector2 => means.sector2
    case Sector3 => means.sector3
  }

  /** The sector column of the rows of one driver, in table order. */
  function SectorColumn(rows: seq<LapRow>, driver: string, sector: Sector): seq<Option<nat>>
  {
    if |rows| == 0 then []
    else
      var row := rows[|rows| - 1];
      SectorColumn(rows[..|rows| - 1], driver, sector)
        + (if row.driver == driver then [SectorTime(row, sector)] else [])
  }

  /** The values a driver's mean for one sector is taken over. */
  function SectorValues(rows: seq<LapRow>, driver: string, sector: Sector): seq<nat>
  {
    Stats.Present(SectorColumn(rows, driver, sector))
  }

  /** The driver abbreviations that occur in the lap table. */
  function DriversIn(rows: seq<LapRow>): set<string>
  {
    set k | 0 <= k < |rows| :: rows[k].driver
  }

  /** The rows of `driver` that have a value for `sector`. */
  function RowsWithSector(rows: seq<LapRow>, driver: string, sector: Sector): set<nat>
  {
    Stats.PresentIndices(DriverSectorCells(rows, driver, sector))
  }

  /** `groupby('Driver').mean()` over the three sector columns. */
  function SectorTable(rows: seq<LapRow>): (t: map<string, SectorMeans>)
    ensures t.Keys == DriversIn(rows)
  {
    map a | a in DriversIn(rows) ::
      SectorMeans(Stats.MeanOfPresent(SectorColumn(rows, a, Sector1)),
                  Stats.MeanOfPresent(SectorColumn(rows, a, Sector2)),
                  Stats.MeanOfPresent(SectorColumn(rows, a, Sector3)))
  }

  /** The sector column of the whole lap table with every other driver's cells
      read as null. */
  function DriverSectorCells(rows: seq<LapRow>, driver: string, sector: Sector): seq<Option<nat>>
  {
    seq(|rows|, k requires 0 <= k < |rows| =>
      if rows[k].driver == driver then SectorTime(rows[k], sector) else None)
  }

  /** The values a driver's sector mean is taken over are, in table order, the
      non-null cells of that driver's rows in that sector. */
  lemma {:induction false} SectorValuesClosedForm(rows: seq<LapRow>, driver: string, sector: Sector)
    ensures SectorValues(rows, driver, sector) == Stats.Present(DriverSectorCells(rows, driver, sector))
    decreases |rows|
  {
    if |rows| == 0 {
      assert DriverSectorCells(rows, driver, sector) == [];
    } else {
      var n := |rows| - 1;
      var front := rows[..n];
      var c: Option<nat> := if rows[n].driver == driver then SectorTime(rows[n], sector) else None;
      var tail: seq<Option<nat>> := if rows[n].driver == driver then [SectorTime(rows[n], sector)] else [];
      assert rows == front + [rows[n]];
      assert DriverSectorCells(rows, driver, sector) == DriverSectorCells(front, driver, sector) + [c];
      SectorValuesClosedForm(front, driver, sector);
      SectorColumnAppend(front, rows[n], driver, sector);
      Stats.PresentAppend(SectorColumn(front, driver, sector), tail);
      Stats.PresentAppend(DriverSectorCells(front, driver, sector), [c]);
      assert |[c][..0]| == 0;
      if rows[n].driver == driver {
        assert tail == [c];
      } else {
        assert Stats.Present([c]) == [] == Stats.Present(tail);
      }
    }
  }

  /** Each cell of the sector table is the mean of the non-null values the
      driver's rows hold in that sector, by `MeanOfPresent`'s contract: absent
      when there is none, otherwise their sum over their number. */
  lemma SectorCellIsMean(rows: seq<LapRow>, driver: string, sector: Sector)
    requires driver in DriversIn(rows)
    ensures Cell(SectorTable(rows)[driver], sector) == Stats.MeanOfPresent(DriverSectorCells(rows, driver, sector))
  {
    SectorValuesClosedForm(rows, driver, sector);
  }

  lemma {:induction false} SectorColumnAppend(rows: seq<LapRow>, row: LapRow, driver: string, sector: Sector)
    ensures SectorColumn(rows + [row], driver, sector)
         == SectorColumn(rows, driver, sector) + (if row.driver == driver then [SectorTime(row, sector)] else [])
  {
    assert (rows + [row])[..|rows|] == rows;
  }

  /** A cell is in a driver's sector column exactly when some row of the driver holds it. */
  lemma {:induction false} SectorColumnMembers(rows: seq<LapRow>, driver: string, sector: Sector, x: Option<nat>)
    ensures x in SectorColumn(rows, driver, sector) <==>
      exists k :: 0 <= k < |rows| && rows[k].driver == driver && SectorTime(rows[k], sector) == x
    decreases |rows|
  {
    if |rows| > 0 {
      var n := |rows| - 1;
      var front := rows[..n];
      SectorColumnMembers(front, driver, sector, x);
      if exists k :: 0 <= k < |rows| && rows[k].driver == driver && SectorTime(rows[k], sector) == x {
        var k :| 0 <= k < |rows| && rows[k].driver == driver && SectorTime(rows[k], sector) == x;
        if k < n {
          assert front[k] == rows[k];
        }
      }
      if x in SectorColumn(front, driver, sector) {
        var k :| 0 <= k < |front| && front[k].driver == driver && SectorTime(front[k], sector) == x;
        assert rows[k] == front[k];
      }
    } else {
      assert SectorColumn(rows, driver, sector) == [];
    }
  }

  /** A value is averaged exactly when some row of the driver holds it in that sector. */
  lemma SectorValuesMembers(rows: seq<LapRow>, driver: string, sector: Sector, v: nat)
    ensures v in SectorValues(rows, driver, sector) <==>
      exists k :: 0 <= k < |rows| && rows[k].driver == driver && SectorTime(rows[k], sector) == Some(v)
  {
    var column := SectorColumn(rows, driver, sector);
    Stats.PresentMembers(column, v);
    SectorColumnMembers(rows, driver, sector, Some(v));
  }

  lemma RowsWithSectorStep(rows: seq<LapRow>, driver: string, sector: Sector)
    requires |rows| > 0
    ensures var n := |rows| - 1;
      RowsWithSector(rows, driver, sector)
        == RowsWithSector(rows[..n], driver, sector)
           + (if rows[n].driver == driver && SectorTime(rows[n], sector).Some? then {n} else {})
  {
  }

  /** One value per row of the driver that has that sector, so absent sectors
      neither count nor add. */
  lemma {:induction false} SectorValuesCount(rows: seq<LapRow>, driver: string, sector: Sector)
    ensures |SectorValues(rows, driver, sector)| == |RowsWithSector(rows, driver, sector)|
    decreases |rows|
  {
    if |rows| > 0 {
      var n := |rows| - 1;
      var front := rows[..n];
      var tail: seq<Option<nat>> := if rows[n].driver == driver then [SectorTime(rows[n], sector)] else [];
      assert rows == front + [rows[n]];
      SectorColumnAppend(front, rows[n], driver, sector);
      Stats.PresentAppend(SectorColumn(front, driver, sector), tail);
      SectorValuesCount(front, driver, sector);
      RowsWithSectorStep(rows, driver, sector);
      assert n !in RowsWithSector(front, driver, sector);
      if rows[n].driver == driver {
        assert tail[..0] == [];
      }
    }
  }

  /** A driver's sector cell is NaN exactly when none of the driver's rows has a
      value for that sector. */
  lemma SectorCellAbsent(rows: seq<LapRow>, driver: string, sector: Sector)
    requires driver in DriversIn(rows)
    ensures Cell(SectorTable(rows)[driver], sector).None? <==>
      forall k :: 0 <= k < |rows| && rows[k].driver == driver ==> SectorTime(rows[k], sector).None?
  {
    SectorValuesCount(rows, driver, sector);
    if exists k :: 0 <= k < |rows| && rows[k].driver == driver && SectorTime(rows[k], sector).Some? {
      var k :| 0 <= k < |rows| && rows[k].driver == driver && SectorTime(rows[k], sector).Some?;
      assert k in RowsWithSector(rows, driver, sector);
    } else {
      assert RowsWithSector(rows, driver, sector) == {};
    }
  }

  /** A driver's sector cell lies between any bounds of that driver's values in the sector. */
  lemma SectorCellBounds(rows: seq<LapRow>, driver: string, sector: Sector, lo: int, hi: int)
    requires driver in DriversIn(rows)
    requires exists k :: 0 <= k < |rows| && rows[k].driver == driver && SectorTime(rows[k], sector).Some?
    requires forall k :: 0 <= k < |rows| && rows[k].driver == driver && SectorTime(rows[k], sector).Some? ==>
      lo <= SectorTime(rows[k], sector).value <= hi
    ensures Cell(SectorTable(rows)[driver], sector).Some?
    ensures lo as real <= Cell(SectorTable(rows)[driver], sector).value <= hi as real
  {
    var vs := SectorValues(rows, driver, sector);
    SectorCellAbsent(rows, driver, sector);
    forall i | 0 <= i < |vs| ensures lo <= vs[i] <= hi {
      SectorValuesMembers(rows, driver, sector, vs[i]);
    }
    Stats.MeanBounds(vs, lo, hi);
  }

  /** A further row with no value in a sector leaves every driver's mean for that
      sector as it was: a missing sector never counts as 0. */
  lemma SectorCellIgnoresAbsent(rows: seq<LapRow>, row: LapRow, driver: string, sector: Sector)
    requires driver in DriversIn(rows)
    requires SectorTime(row, sector).None?
    ensures driver in DriversIn(rows + [row])
    ensures Cell(SectorTable(rows + [row])[driver], sector) == Cell(SectorTable(rows)[driver], sector)
  {
    var k :| 0 <= k < |rows| && rows[k].driver == driver;
    assert (rows + [row])[k] == rows[k];
    SectorColumnAppend(rows, row, driver, sector);
    var tail := if row.driver == driver then [SectorTime(row, sector)] else [];
    Stats.MeanIgnoresNulls(SectorColumn(rows, driver, sector), tail);
  }
}
