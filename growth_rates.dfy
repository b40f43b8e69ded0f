/** The growth-rate computer of the GHSL built-up growth script: the sorted area
    list is walked by index and every element becomes one row of the combined
    table, carrying the element's year and area and the percentage change from
    the element just before it in the list. */
module GrowthRates {
  import opened AreaSeries

  /** The growth column of a row.
      NoRate is the `null` of the first row. Percent carries the relative
      change in percent. UndefinedRate marks a row whose predecessor area is
      zero, where the percentage is not a number; the model confines it to
      that one row. */
  datatype Growth = NoRate | Percent(value: real) | UndefinedRate

  /** One feature of the combined table. */
  datatype Row = Row(year: int, builtupSqKm: real, growthRatePercent: Growth)

  /** The area reached from `prev` after growing by `pct` percent. */
  function Grown(prev: real, pct: real): (area: real) {
    prev + prev * pct / 100.0
  }

  /** `g` is a percentage that scales `prev` by exactly the change to `curr`. */
  predicate IsChangeOf(g: Growth, prev: real, curr: real) {
    g.Percent? && g.value * prev == (curr - prev) * 100.0
  }

  /** The percentage change from area `prev` to area `curr`. */
  function GrowthRate(prev: real, curr: real): (g: Growth)
    ensures g.UndefinedRate? <==> prev == 0.0
    ensures prev != 0.0 ==> IsChangeOf(g, prev, curr)
  {
    if prev == 0.0 then UndefinedRate else Percent((curr - prev) / prev * 100.0)
  }

  /** Growing the predecessor area by the computed rate gives back the current
      area: the rate is the inverse of compound growth over one step. */
  lemma GrowthRateInverse(prev: real, curr: real)
    requires prev != 0.0
    ensures Grown(prev, GrowthRate(prev, curr).value) == curr
  {
    var pct := GrowthRate(prev, curr).value;
    assert IsChangeOf(GrowthRate(prev, curr), prev, curr);
    assert prev * pct == (curr - prev) * 100.0;
    assert prev * pct / 100.0 == curr - prev;
  }

  /** For a positive predecessor area the sign of the rate is the direction of
      change: positive exactly when the area grew, zero exactly when it stayed. */
  lemma GrowthRateSign(prev: real, curr: real)
    requires prev > 0.0
    ensures GrowthRate(prev, curr).value > 0.0 <==> curr > prev
    ensures GrowthRate(prev, curr).value == 0.0 <==> curr == prev
  {
    var pct := GrowthRate(prev, curr).value;
    assert IsChangeOf(GrowthRate(prev, curr), prev, curr);
    assert pct * prev == (curr - prev) * 100.0;
    if pct > 0.0 {
      assert pct * prev > 0.0;
    } else if pct < 0.0 {
      assert pct * prev < 0.0;
    }
  }

  /** Row i of the table: the row for area-list element i, as the callback
      mapped over the indices builds it. */
  function RowAt(area: seq<Sample>, i: nat): (row: Row)
    requires i < |area|
    ensures row.year == area[i].year && row.builtupSqKm == area[i].builtupSqKm
    ensures row.growthRatePercent.NoRate? <==> i == 0
    ensures i > 0 ==> (row.growthRatePercent.UndefinedRate? <==> area[i - 1].builtupSqKm == 0.0)
    ensures i > 0 && area[i - 1].builtupSqKm != 0.0 ==>
      IsChangeOf(row.growthRatePercent, area[i - 1].builtupSqKm, area[i].builtupSqKm)
  {
    Row(area[i].year, area[i].builtupSqKm,
        if i == 0 then NoRate
        else GrowthRate(area[i - 1].builtupSqKm, area[i].builtupSqKm))
  }

  /** The combined table: `ee.List.sequence(0, size - 1)` mapped to rows. */
  function CombinedTable(area: seq<Sample>): (rows: seq<Row>)
    ensures |rows| == |area|
    ensures forall i :: 0 <= i < |rows| ==>
      rows[i].year == area[i].year && rows[i].builtupSqKm == area[i].builtupSqKm
    ensures forall i :: 0 <= i < |rows| ==> (rows[i].growthRatePercent.NoRate? <==> i == 0)
    ensures forall i :: 0 < i < |rows| ==>
      (rows[i].growthRatePercent.UndefinedRate? <==> area[i - 1].builtupSqKm == 0.0)
    ensures forall i :: 0 < i < |rows| && area[i - 1].builtupSqKm != 0.0 ==>
      IsChangeOf(rows[i].growthRatePercent, area[i - 1].builtupSqKm, area[i].builtupSqKm)
  {
    seq(|area|, i requires 0 <= i < |area| => RowAt(area, i))
  }

  /** The area list a table was built from, read back from its rows. */
  function AreasOf(rows: seq<Row>): (area: seq<Sample>)
    ensures |area| == |rows|
    ensures forall i :: 0 <= i < |area| ==>
      area[i].year == rows[i].year && area[i].builtupSqKm == rows[i].builtupSqKm
  {
    if rows == [] then [] else [Sample(rows[0].year, rows[0].builtupSqKm)] + AreasOf(rows[1..])
  }

  /** The table keeps the area list intact and in order: reading the years and
      areas back from its rows gives the area list it was built from. */
  lemma TableKeepsAreaList(area: seq<Sample>)
    ensures AreasOf(CombinedTable(area)) == area
  {
    var back := AreasOf(CombinedTable(area));
    assert forall i | 0 <= i < |area| :: back[i] == area[i];
  }

  /** Row i > 0 holds (area[i] - area[i-1]) / area[i-1] * 100 whenever the
      predecessor area is nonzero, where i-1 is the preceding list element,
      whatever the gap between the two years. */
  lemma RateFromPredecessor(area: seq<Sample>, i: nat)
    requires 0 < i < |area|
    requires area[i - 1].builtupSqKm != 0.0
    ensures CombinedTable(area)[i].growthRatePercent ==
      Percent((area[i].builtupSqKm - area[i - 1].builtupSqKm) / area[i - 1].builtupSqKm * 100.0)
  {
    TableRowAt(area, i);
    RowAtRate(area, i);
  }

  /** Row i of the table is the row built for element i. */
  lemma TableRowAt(area: seq<Sample>, i: nat)
    requires i < |area|
    ensures CombinedTable(area)[i] == RowAt(area, i)
  {
  }

  /** The rate of row i > 0 over a nonzero predecessor area, written out. */
  lemma RowAtRate(area: seq<Sample>, i: nat)
    requires 0 < i < |area|
    requires area[i - 1].builtupSqKm != 0.0
    ensures RowAt(area, i).growthRatePercent ==
      Percent((area[i].builtupSqKm - area[i - 1].builtupSqKm) / area[i - 1].builtupSqKm * 100.0)
  {
  }

  /** Each row depends only on its own element and the element before it:
      two area lists that agree on positions i-1 and i give the same row i. */
  lemma RowIsLocal(a: seq<Sample>, b: seq<Sample>, i: nat)
    requires 0 < i < |a| && i < |b|
    requires a[i - 1].builtupSqKm == b[i - 1].builtupSqKm && a[i] == b[i]
    ensures CombinedTable(a)[i] == CombinedTable(b)[i]
  {
  }
}
