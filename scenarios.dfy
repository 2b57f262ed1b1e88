/** Two drivers with one lap each; B's lap has no compound field and no first-sector time. */
module Scenarios {
  import opened Wrappers
  import opened Laps
  import opened LapTable
  import opened SectorAverages
  import opened SessionStats
  import Stats
  import Sorting

  const LapA := Lap(1, Some(90100), CompoundCell(Some("SOFT")), Some(30000), Some(30000), Some(30100))
  const LapB := Lap(1, Some(91000), NoCompoundField, None, Some(30500), Some(30500))
  const RowA := LapRow("AAA", 1, 90100, Some("SOFT"), Some(30000), Some(30000), Some(30100))
  const RowB := LapRow("BBB", 1, 91000, Some("Unknown"), None, Some(30500), Some(30500))

  function TwoDrivers(): Session
  {
    map["1" := Driver("AAA", [LapA], Some(LapA)), "2" := Driver("BBB", [LapB], Some(LapB))]
  }

  /** No lap is dropped, and B's missing compound reads "Unknown". */
  lemma TwoDriverLapRows()
    ensures AllKnown(TwoDrivers(), ["1", "2"])
    ensures LapRows(TwoDrivers(), ["1", "2"]) == [RowA, RowB]
  {
    var s := TwoDrivers();
    assert [LapA][..0] == [] && [LapB][..0] == [];
    assert DriverRows("AAA", [LapA]) == [RowA];
    assert DriverRows("BBB", [LapB]) == [RowB];
    assert ["1", "2"][..1] == ["1"];
    assert ["1"][..0] == [];
    assert LapRows(s, ["1"]) == [RowA];
  }

  lemma TwoDriverSectorColumns(sec: Sector)
    ensures SectorColumn([RowA, RowB], "AAA", sec) == [SectorTime(RowA, sec)]
    ensures SectorColumn([RowA, RowB], "BBB", sec) == [SectorTime(RowB, sec)]
  {
    assert [RowA][..0] == [];
    assert SectorColumn([RowA], "AAA", sec) == [SectorTime(RowA, sec)];
    assert SectorColumn([RowA], "BBB", sec) == [];
    SectorColumnAppend([RowA], RowB, "AAA", sec);
    SectorColumnAppend([RowA], RowB, "BBB", sec);
  }

  lemma SingleCellMean(x: Option<nat>)
    ensures x.None? ==> Stats.MeanOfPresent([x]).None?
    ensures x.Some? ==> Stats.MeanOfPresent([x]) == Some(x.value as real)
  {
    assert [x][..0] == [];
    assert Stats.Present([x]) == if x.Some? then [x.value] else [];
    if x.Some? {
      assert Stats.Sum([x.value]) == x.value + Stats.Sum([]);
    }
  }

  /** B's first sector stays null, and so does its mean, instead of becoming 0. */
  lemma TwoDriverSectorTable()
    ensures var t := SectorTable([RowA, RowB]);
      && t.Keys == {"AAA", "BBB"}
      && t["AAA"] == SectorMeans(Some(30000.0), Some(30000.0), Some(30100.0))
      && t["BBB"] == SectorMeans(None, Some(30500.0), Some(30500.0))
  {
    var rows := [RowA, RowB];
    assert DriversIn(rows) == {"AAA", "BBB"} by {
      assert rows[0].driver == "AAA" && rows[1].driver == "BBB";
    }
    TwoDriverSectorColumns(Sector1);
    TwoDriverSectorColumns(Sector2);
    TwoDriverSectorColumns(Sector3);
    SingleCellMean(Some(30000));
    SingleCellMean(Some(30100));
    SingleCellMean(Some(30500));
    SingleCellMean(None);
  }

  /** The fastest-laps table, sorted by time, puts A before B. */
  /** Every table `BuildFastestTable` may return for the example (a permutation of
      the appended rows, sorted by time) is A at 90.1 s, then B at 91.0 s: with
      distinct times the sorted permutation is unique. */
  lemma TwoDriverFastestTable()
    ensures AllKnown(TwoDrivers(), ["1", "2"])
    ensures forall t: seq<FastestRow> ::
      multiset(t) == multiset(FastestEntries(TwoDrivers(), ["1", "2"])) && Sorting.SortedBy(t, FastestKey)
        ==> t == [FastestRow("1", Some(90100), 1), FastestRow("2", Some(91000), 1)]
  {
    assert ["1", "2"][..1] == ["1"];
    assert ["1"][..0] == [];
    var ra := FastestRow("1", Some(90100), 1);
    var rb := FastestRow("2", Some(91000), 1);
    var e := FastestEntries(TwoDrivers(), ["1", "2"]);
    assert e == [ra, rb];
    forall t: seq<FastestRow> | multiset(t) == multiset(e) && Sorting.SortedBy(t, FastestKey)
      ensures t == [ra, rb]
    {
      assert |t| == |multiset(t)| == 2;
      assert t[0] in multiset(t) && t[1] in multiset(t);
      assert t == [t[0], t[1]];
    }
  }

}
