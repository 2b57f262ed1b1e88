/** The two tables of the statistics tab: each selected driver's fastest lap, and
    each selected driver's average lap time, both sorted by time. */
module SessionStats {
  import opened Wrappers
  import opened Laps
  import opened Sorting
  import Stats

  /** A row of the fastest-laps table: the driver, the fastest lap's time (a NaT
      cell is `None`) and its lap number. */
  datatype FastestRow = FastestRow(driver: DriverId, time: Option<nat>, lap: int)

  function FastestKey(row: FastestRow): Option<real>
  {
    if row.time.Some? then Some(row.time.value as real) else None
  }

  /** The rows appended, in selection order, before the table is sorted. */
  function FastestEntries(s: Session, ds: seq<DriverId>): seq<FastestRow>
    requires AllKnown(s, ds)
  {
    if |ds| == 0 then []
    else
      var d := ds[|ds| - 1];
      FastestEntries(s, ds[..|ds| - 1])
        + (if s[d].fastest.Some? then [FastestRow(d, s[d].fastest.value.lapTime, s[d].fastest.value.lapNumber)] else [])
  }

  /** The fastest-laps table, or `None` when no selected driver has a fastest lap
      (the table is then not shown). */
  method BuildFastestTable(s: Session, selected: seq<DriverId>) returns (table: Option<seq<FastestRow>>)
    requires AllKnown(s, selected)
    ensures table.None? <==> forall i :: 0 <= i < |selected| ==> s[selected[i]].fastest.None?
    ensures table.Some? ==> multiset(table.value) == multiset(FastestEntries(s, selected))
    ensures table.Some? ==> SortedBy(table.value, FastestKey)
  {
    var fastestLaps: seq<FastestRow> := [];
    for i := 0 to |selected|
      invariant fastestLaps == FastestEntries(s, selected[..i])
    {
      var driver := selected[i];
      var driverFastest := s[driver].fastest;
      assert selected[..i + 1][..i] == selected[..i];
      if driverFastest.Some? {
        fastestLaps := fastestLaps + [FastestRow(driver, driverFastest.value.lapTime, driverFastest.value.lapNumber)];
      }
    }
    assert selected[..|selected|] == selected;
    FastestEntriesEmptyIff(s, selected);
    if fastestLaps == [] {
      table := None;
    } else {
      table := Some(SortBy(fastestLaps, FastestKey));
    }
  }

  /** A driver has a row exactly when the driver is selected and has a fastest lap. */
  lemma {:induction false} FastestEntriesDrivers(s: Session, ds: seq<DriverId>, d: DriverId)
    requires AllKnown(s, ds)
    ensures (exists k :: 0 <= k < |FastestEntries(s, ds)| && FastestEntries(s, ds)[k].driver == d)
        <==> (d in ds && s[d].fastest.Some?)
    decreases |ds|
  {
    if |ds| > 0 {
      var n := |ds| - 1;
      var front := ds[..n];
      var e := FastestEntries(s, ds);
      FastestEntriesDrivers(s, front, d);
      if exists k :: 0 <= k < |e| && e[k].driver == d {
        var k :| 0 <= k < |e| && e[k].driver == d;
        if k < |FastestEntries(s, front)| {
          assert FastestEntries(s, front)[k] == e[k];
          var i :| 0 <= i < |front| && front[i] == d;
          assert ds[i] == d;
        } else {
          assert ds[n] == d;
        }
      }
      if d in ds && s[d].fastest.Some? {
        var i :| 0 <= i < |ds| && ds[i] == d;
        if i < n {
          assert front[i] == d;
          var k :| 0 <= k < |FastestEntries(s, front)| && FastestEntries(s, front)[k].driver == d;
          assert e[k] == FastestEntries(s, front)[k];
        } else {
          assert e[|e| - 1].driver == d;
        }
      }
    }
  }

  /** Each row shows the time and the lap number of its driver's fastest lap. */
  lemma {:induction false} FastestEntriesFields(s: Session, ds: seq<DriverId>)
    requires AllKnown(s, ds)
    ensures forall k :: 0 <= k < |FastestEntries(s, ds)| ==>
      var row := FastestEntries(s, ds)[k];
      && row.driver in s
      && s[row.driver].fastest.Some?
      && row.time == s[row.driver].fastest.value.lapTime
      && row.lap == s[row.driver].fastest.value.lapNumber
    decreases |ds|
  {
    if |ds| > 0 {
      var front := ds[..|ds| - 1];
      FastestEntriesFields(s, front);
      var e := FastestEntries(s, ds);
      forall k | 0 <= k < |e|
        ensures e[k].driver in s && s[e[k].driver].fastest.Some?
        ensures e[k].time == s[e[k].driver].fastest.value.lapTime
        ensures e[k].lap == s[e[k].driver].fastest.value.lapNumber
      {
        if k < |FastestEntries(s, front)| {
          assert e[k] == FastestEntries(s, front)[k];
        }
      }
    } else {
      assert FastestEntries(s, ds) == [];
    }
  }

  /** Exactly one row per selected position whose driver has a fastest lap. */
  lemma {:induction false} FastestEntriesCount(s: Session, ds: seq<DriverId>)
    requires AllKnown(s, ds)
    ensures |FastestEntries(s, ds)| == |set i | 0 <= i < |ds| && s[ds[i]].fastest.Some?|
    decreases |ds|
  {
    if |ds| > 0 {
      var n := |ds| - 1;
      var front := ds[..n];
      FastestEntriesCount(s, front);
      var before := set i | 0 <= i < |front| && s[front[i]].fastest.Some?;
      var after := set i | 0 <= i < |ds| && s[ds[i]].fastest.Some?;
      if s[ds[n]].fastest.Some? {
        assert after == before + {n};
      } else {
        assert after == before;
      }
    }
  }

  lemma FastestEntriesEmptyIff(s: Session, ds: seq<DriverId>)
    requires AllKnown(s, ds)
    ensures FastestEntries(s, ds) == [] <==> forall i :: 0 <= i < |ds| ==> s[ds[i]].fastest.None?
  {
    var e := FastestEntries(s, ds);
    if e != [] {
      FastestEntriesDrivers(s, ds, e[0].driver);
    } else {
      forall i | 0 <= i < |ds| ensures s[ds[i]].fastest.None? {
        FastestEntriesDrivers(s, ds, ds[i]);
      }
    }
  }

  /** A row of the average-lap-times table.  `averageTime` is the mean of the
      driver's non-null lap times (NaT, here `None`, when there is none);
      `lapsCompleted` is the length of the driver's whole lap list. */
  datatype AverageRow = AverageRow(driver: DriverId, averageTime: Option<real>, lapsCompleted: nat)

  function AverageKey(row: AverageRow): Option<real>
  {
    row.averageTime
  }

  /** The rows appended, in selection order, before the table is sorted. */
  function AverageEntries(s: Session, ds: seq<DriverId>): seq<AverageRow>
    requires AllKnown(s, ds)
  {
    if |ds| == 0 then []
    else
      var d := ds[|ds| - 1];
      var laps := s[d].laps;
      AverageEntries(s, ds[..|ds| - 1])
        + (if |laps| > 0 then [AverageRow(d, Stats.MeanOfPresent(LapTimes(laps)), |laps|)] else [])
  }

  /** The average-lap-times table, or `None` when every selected driver's lap list
      is empty (the table is then not shown). */
  method BuildAverageTable(s: Session, selected: seq<DriverId>) returns (table: Option<seq<AverageRow>>)
    requires AllKnown(s, selected)
    ensures table.None? <==> forall i :: 0 <= i < |selected| ==> s[selected[i]].laps == []
    ensures table.Some? ==> multiset(table.value) == multiset(AverageEntries(s, selected))
    ensures table.Some? ==> SortedBy(table.value, AverageKey)
  {
    var avgTimes: seq<AverageRow> := [];
    for i := 0 to |selected|
      invariant avgTimes == AverageEntries(s, selected[..i])
    {
      var driver := selected[i];
      var driverLaps := s[driver].laps;
      assert selected[..i + 1][..i] == selected[..i];
      if |driverLaps| > 0 {
        avgTimes := avgTimes + [AverageRow(driver, Stats.MeanOfPresent(LapTimes(driverLaps)), |driverLaps|)];
      }
    }
    assert selected[..|selected|] == selected;
    AverageEntriesEmptyIff(s, selected);
    if avgTimes == [] {
      table := None;
    } else {
      table := Some(SortBy(avgTimes, AverageKey));
    }
  }

  /** A driver has a row exactly when the driver is selected and has at least one lap. */
  lemma {:induction false} AverageEntriesDrivers(s: Session, ds: seq<DriverId>, d: DriverId)
    requires AllKnown(s, ds)
    ensures (exists k :: 0 <= k < |AverageEntries(s, ds)| && AverageEntries(s, ds)[k].driver == d)
        <==> (d in ds && |s[d].laps| > 0)
    decreases |ds|
  {
    if |ds| > 0 {
      var n := |ds| - 1;
      var front := ds[..n];
      var e := AverageEntries(s, ds);
      AverageEntriesDrivers(s, front, d);
      if exists k :: 0 <= k < |e| && e[k].driver == d {
        var k :| 0 <= k < |e| && e[k].driver == d;
        if k < |AverageEntries(s, front)| {
          assert AverageEntries(s, front)[k] == e[k];
          var i :| 0 <= i < |front| && front[i] == d;
          assert ds[i] == d;
        } else {
          assert ds[n] == d;
        }
      }
      if d in ds && |s[d].laps| > 0 {
        var i :| 0 <= i < |ds| && ds[i] == d;
        if i < n {
          assert front[i] == d;
          var k :| 0 <= k < |AverageEntries(s, front)| && AverageEntries(s, front)[k].driver == d;
          assert e[k] == AverageEntries(s, front)[k];
        } else {
          assert e[|e| - 1].driver == d;
        }
      }
    }
  }

  /** Each row counts all of its driver's laps, null lap times included, and
      averages the lap times that are present. */
  lemma {:induction false} AverageEntriesFields(s: Session, ds: seq<DriverId>)
    requires AllKnown(s, ds)
    ensures forall k :: 0 <= k < |AverageEntries(s, ds)| ==>
      var row := AverageEntries(s, ds)[k];
      && row.driver in s
      && row.lapsCompleted == |s[row.driver].laps| > 0
      && row.averageTime == Stats.MeanOfPresent(LapTimes(s[row.driver].laps))
    decreases |ds|
  {
    if |ds| > 0 {
      var front := ds[..|ds| - 1];
      AverageEntriesFields(s, front);
      var e := AverageEntries(s, ds);
      forall k | 0 <= k < |e|
        ensures e[k].driver in s && e[k].lapsCompleted == |s[e[k].driver].laps| > 0
        ensures e[k].averageTime == Stats.MeanOfPresent(LapTimes(s[e[k].driver].laps))
      {
        if k < |AverageEntries(s, front)| {
          assert e[k] == AverageEntries(s, front)[k];
        }
      }
    } else {
      assert AverageEntries(s, ds) == [];
    }
  }

  /** Exactly one row per selected position whose driver has a non-empty lap list. */
  lemma {:induction false} AverageEntriesCount(s: Session, ds: seq<DriverId>)
    requires AllKnown(s, ds)
    ensures |AverageEntries(s, ds)| == |set i | 0 <= i < |ds| && |s[ds[i]].laps| > 0|
    decreases |ds|
  {
    if |ds| > 0 {
      var n := |ds| - 1;
      var front := ds[..n];
      AverageEntriesCount(s, front);
      var before := set i | 0 <= i < |front| && |s[front[i]].laps| > 0;
      var after := set i | 0 <= i < |ds| && |s[ds[i]].laps| > 0;
      if |s[ds[n]].laps| > 0 {
        assert after == before + {n};
      } else {
        assert after == before;
      }
    }
  }

  lemma AverageEntriesEmptyIff(s: Session, ds: seq<DriverId>)
    requires AllKnown(s, ds)
    ensures AverageEntries(s, ds) == [] <==> forall i :: 0 <= i < |ds| ==> s[ds[i]].laps == []
  {
    var e := AverageEntries(s, ds);
    if e != [] {
      AverageEntriesDrivers(s, ds, e[0].driver);
    } else {
      forall i | 0 <= i < |ds| ensures s[ds[i]].laps == [] {
        AverageEntriesDrivers(s, ds, ds[i]);
      }
    }
  }

  /** The average lap time of a driver is NaT exactly when none of the driver's
      laps has a lap time, and otherwise lies within the range of those times. */
  lemma AverageTimeMeaning(laps: seq<Lap>, lo: int, hi: int)
    requires forall j :: 0 <= j < |laps| && laps[j].lapTime.Some? ==> lo <= laps[j].lapTime.value <= hi
    ensures Stats.MeanOfPresent(LapTimes(laps)).None? <==> forall j :: 0 <= j < |laps| ==> laps[j].lapTime.None?
    ensures Stats.MeanOfPresent(LapTimes(laps)).Some? ==>
      lo as real <= Stats.MeanOfPresent(LapTimes(laps)).value <= hi as real
  {
    var xs := LapTimes(laps);
    assert forall j :: 0 <= j < |laps| ==> xs[j] == laps[j].lapTime;
    var vs := Stats.Present(xs);
    if |vs| > 0 {
      forall i | 0 <= i < |vs| ensures lo <= vs[i] <= hi {
        Stats.PresentMembers(xs, vs[i]);
      }
      Stats.MeanBounds(vs, lo, hi);
    }
  }

  /** Laps Completed can exceed the number of laps with a lap time: a driver whose
      only lap has a null lap time gets a row with one lap completed and a NaT average. */
  lemma LapsCompletedCountsNullLaps(s: Session, d: DriverId, lap: Lap)
    requires d in s && s[d].laps == [lap] && lap.lapTime.None?
    ensures AllKnown(s, [d])
    ensures AverageEntries(s, [d]) == [AverageRow(d, None, 1)]
    ensures TimedLapCount(s[d].laps) == 0
  {
    assert [d][..0] == [];
    assert LapTimes([lap]) == [None];
    assert Stats.Present([None]) == Stats.Present([]) + [];
    assert Stats.PresentIndices([None]) == {};
  }
}
