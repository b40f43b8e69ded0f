/** The whole built-up growth pipeline: the image collection becomes the area
    list, and the area list becomes the combined table. */
module Pipeline {
  import opened AreaSeries
  import opened GrowthRates

  /** The combined table of an image collection. */
  function GrowthTableOf(imgs: seq<Snapshot>): (rows: seq<Row>)
    ensures |rows| == |imgs|
    ensures forall i, j | 0 <= i < j < |rows| :: rows[i].year <= rows[j].year
    ensures forall i :: 0 <= i < |rows| ==> (rows[i].growthRatePercent.NoRate? <==> i == 0)
  {
    CombinedTable(AreaList(imgs))
  }

  /** The table depends on the collection only up to order: with distinct
      years, any reordering of the images gives the same table, because the
      growth rates are taken along the sorted list. */
  lemma PermutationInvariant(xs: seq<Snapshot>, ys: seq<Snapshot>)
    requires multiset(xs) == multiset(ys)
    requires DistinctSnapshotYears(xs)
    ensures AreaList(xs) == AreaList(ys)
    ensures GrowthTableOf(xs) == GrowthTableOf(ys)
  {
    MapKeepsPermutation(xs, ys);
    MapKeepsDistinctYears(xs);
    PermutationKeepsDistinctYears(MapToSamples(xs), AreaList(xs));
    SortedPermutationUnique(AreaList(xs), AreaList(ys));
  }

  /** With distinct years the table is strictly ascending by year. */
  lemma TableStrictlyAscending(imgs: seq<Snapshot>)
    requires DistinctSnapshotYears(imgs)
    ensures forall i, j | 0 <= i < j < |GrowthTableOf(imgs)| ::
      GrowthTableOf(imgs)[i].year < GrowthTableOf(imgs)[j].year
  {
    AreaListStrictlyAscending(imgs);
  }

  /** An empty collection gives an empty area list and an empty table. */
  lemma EmptyCollection()
    ensures AreaList([]) == []
    ensures GrowthTableOf([]) == []
  {
  }

  /** A raw region sum of 5,000,000 m² is an area of 5 km². */
  lemma UnitConversionExample(year: int)
    ensures ToSample(Snapshot(year, 5000000.0)) == Sample(year, 5.0)
  {
  }

  /** Images for 1990, 1975 and 2020, in that order, give the area list sorted
      by year and the table with rates 25 % and 100 %; the 1990 rate is taken
      from 1975, the preceding entry, fifteen years earlier. */
  // The literal input is a parameter fixed by `requires` so that the verifier
  // does not unfold the functions on it eagerly.
  lemma ThreeEpochScenario(imgs: seq<Snapshot>)
    requires imgs == [Snapshot(1990, 2500000.0), Snapshot(1975, 2000000.0), Snapshot(2020, 5000000.0)]
    ensures AreaList(imgs) == [Sample(1975, 2.0), Sample(1990, 2.5), Sample(2020, 5.0)]
    ensures GrowthTableOf(imgs)
      == [Row(1975, 2.0, NoRate), Row(1990, 2.5, Percent(25.0)), Row(2020, 5.0, Percent(100.0))]
  {
    ScenarioAreaList(imgs);
    ScenarioTable(AreaList(imgs));
  }

  /** The area list of the three-image scenario. */
  // The literal input is a parameter fixed by `requires` so that the verifier
  // does not unfold the functions on it eagerly.
  lemma ScenarioAreaList(imgs: seq<Snapshot>)
    requires imgs == [Snapshot(1990, 2500000.0), Snapshot(1975, 2000000.0), Snapshot(2020, 5000000.0)]
    ensures AreaList(imgs) == [Sample(1975, 2.0), Sample(1990, 2.5), Sample(2020, 5.0)]
  {
    var a, b, c := Sample(1975, 2.0), Sample(1990, 2.5), Sample(2020, 5.0);
    ScenarioMapped(imgs);
    SortMiddleFirst(b, a, c);
  }

  /** Sorting [b, a, c] with a before b before c in year order. */
  lemma SortMiddleFirst(b: Sample, a: Sample, c: Sample)
    requires a.year < b.year < c.year
    ensures SortByYear([b, a, c]) == [a, b, c]
  {
    var sorted, input := [a, b, c], [b, a, c];
    assert SortedByYear(sorted) && DistinctYears(sorted) by {
      forall i, j | 0 <= i < j < 3 ensures sorted[i].year < sorted[j].year {
      }
    }
    assert multiset(input) == multiset{a, b, c} == multiset(sorted) by {
      assert input == [b] + [a] + [c] && sorted == [a] + [b] + [c];
    }
    SortedPermutationUnique(sorted, SortByYear(input));
  }

  /** The three images mapped to features, still in collection order. */
  // The literal input is a parameter fixed by `requires` so that the verifier
  // does not unfold the functions on it eagerly.
  lemma ScenarioMapped(imgs: seq<Snapshot>)
    requires imgs == [Snapshot(1990, 2500000.0), Snapshot(1975, 2000000.0), Snapshot(2020, 5000000.0)]
    ensures MapToSamples(imgs) == [Sample(1990, 2.5), Sample(1975, 2.0), Sample(2020, 5.0)]
  {
    assert ToSample(imgs[0]) == Sample(1990, 2.5);
    assert ToSample(imgs[1]) == Sample(1975, 2.0);
    assert ToSample(imgs[2]) == Sample(2020, 5.0);
  }

  /** The table built from the scenario's sorted area list. */
  // The literal input is a parameter fixed by `requires` so that the verifier
  // does not unfold the functions on it eagerly.
  lemma ScenarioTable(area: seq<Sample>)
    requires area == [Sample(1975, 2.0), Sample(1990, 2.5), Sample(2020, 5.0)]
    ensures CombinedTable(area)
      == [Row(1975, 2.0, NoRate), Row(1990, 2.5, Percent(25.0)), Row(2020, 5.0, Percent(100.0))]
  {
    TableRowAt(area, 0);
    TableRowAt(area, 1);
    TableRowAt(area, 2);
  }

  /** A zero predecessor area marks only the row after it as undefined and
      leaves the other rows alone. */
  lemma ZeroAreaScenario()
    ensures CombinedTable([Sample(2000, 0.0), Sample(2010, 3.0), Sample(2020, 6.0)])
      == [Row(2000, 0.0, NoRate), Row(2010, 3.0, UndefinedRate), Row(2020, 6.0, Percent(100.0))]
  {
    var area := [Sample(2000, 0.0), Sample(2010, 3.0), Sample(2020, 6.0)];
    TableRowAt(area, 0);
    TableRowAt(area, 1);
    TableRowAt(area, 2);
  }
}
