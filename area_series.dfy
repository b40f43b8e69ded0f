/** The time-series builder of the GHSL built-up growth script: every raster
    snapshot of the collection becomes one feature holding its calendar year and
    its built-up area in square kilometres, and the features are sorted by year
    into the area list.

    The region sum of the built-up band (a call into the raster backend) and the
    decoding of the image timestamp into a year are not modelled: each snapshot
    arrives with both already computed. Numbers are Dafny reals, not floats. */
module AreaSeries {

  /** One image of the collection as the builder sees it: the year decoded from
      its start time and the raw sum of its built-up band over the region, in
      square metres. */
  datatype Snapshot = Snapshot(year: int, rawSum: real)

  /** One feature of the area list: a year and the built-up area in km². */
  datatype Sample = Sample(year: int, builtupSqKm: real)

  /** Square metres in one square kilometre: the divisor of the unit conversion. */
  const SqMetresPerSqKm: real := 1000000.0

  /** The feature an image is mapped to: same year, area in km². */
  function ToSample(img: Snapshot): (s: Sample)
    ensures s.year == img.year
    ensures s.builtupSqKm * SqMetresPerSqKm == img.rawSum
  {
    Sample(img.year, img.rawSum / SqMetresPerSqKm)
  }

  /** The collection mapped image by image to features, in collection order. */
  function MapToSamples(imgs: seq<Snapshot>): (r: seq<Sample>)
    ensures |r| == |imgs|
    ensures forall i :: 0 <= i < |r| ==> r[i] == ToSample(imgs[i])
  {
    if imgs == [] then [] else [ToSample(imgs[0])] + MapToSamples(imgs[1..])
  }

  /** Years never decrease along the sequence. */
  predicate SortedByYear(s: seq<Sample>) {
    forall i, j | 0 <= i < j < |s| :: s[i].year <= s[j].year
  }

  /** Years strictly increase along the sequence. */
  predicate StrictlyAscending(s: seq<Sample>) {
    forall i, j | 0 <= i < j < |s| :: s[i].year < s[j].year
  }

  /** No year occurs twice among the features. */
  predicate DistinctYears(s: seq<Sample>) {
    forall i, j | 0 <= i < j < |s| :: s[i].year != s[j].year
  }

  /** No year occurs twice among the images. */
  predicate DistinctSnapshotYears(imgs: seq<Snapshot>) {
    forall i, j | 0 <= i < j < |imgs| :: imgs[i].year != imgs[j].year
  }

  /** Places x into a year-sorted sequence, after every entry of a smaller year
      and before the first entry whose year is at least x's. */
  function InsertByYear(x: Sample, s: seq<Sample>): (r: seq<Sample>)
    requires SortedByYear(s)
    ensures SortedByYear(r)
    ensures multiset(r) == multiset(s) + multiset{x}
    ensures |r| == |s| + 1
    ensures r[0] == x || (s != [] && r[0] == s[0])
  {
    if s == [] || x.year <= s[0].year then
      ConsSorted(x, s);
      [x] + s
    else
      TailFacts(s);
      var tail := InsertByYear(x, s[1..]);
      ConsSorted(s[0], tail);
      [s[0]] + tail
  }

  /** Putting an element with the least year in front keeps a sequence sorted. */
  lemma ConsSorted(x: Sample, s: seq<Sample>)
    requires SortedByYear(s)
    requires s != [] ==> x.year <= s[0].year
    ensures SortedByYear([x] + s)
  {
  }

  /** The collection's `sort('year')`: ascending by year, as a permutation. */
  function SortByYear(s: seq<Sample>): (r: seq<Sample>)
    ensures SortedByYear(r)
    ensures multiset(r) == multiset(s)
  {
    if s == [] then
      []
    else
      assert s == [s[0]] + s[1..];
      InsertByYear(s[0], SortByYear(s[1..]))
  }

  /** A collection's `toList(count)`: at most its first `count` elements. */
  function ToList(s: seq<Sample>, count: nat): (r: seq<Sample>)
    ensures |r| == if count < |s| then count else |s|
    ensures r <= s
  {
    if count < |s| then s[..count] else s
  }

  /** The area list: every image mapped to its feature, sorted by year, and
      listed with the collection size as the element count. */
  function AreaList(imgs: seq<Snapshot>): (area: seq<Sample>)
    ensures |area| == |imgs|
    ensures SortedByYear(area)
    ensures multiset(area) == multiset(MapToSamples(imgs))
  {
    var sorted := SortByYear(MapToSamples(imgs));
    assert |sorted| == |multiset(sorted)| == |multiset(MapToSamples(imgs))| == |imgs|;
    ToList(sorted, |imgs|)
  }

  /** s with its element at index p taken out. */
  function RemoveAt<T>(s: seq<T>, p: nat): (r: seq<T>)
    requires p < |s|
    ensures |r| == |s| - 1
    ensures forall k :: 0 <= k < |r| ==> r[k] == s[if k < p then k else k + 1]
    ensures multiset(r) == multiset(s) - multiset{s[p]}
    ensures multiset(s) == multiset(r) + multiset{s[p]}
  {
    assert s == s[..p] + [s[p]] + s[p + 1..];
    s[..p] + s[p + 1..]
  }

  /** Dropping the head keeps order and distinctness, and removes one copy
      of the head from the multiset. */
  lemma TailFacts(s: seq<Sample>)
    requires s != []
    ensures SortedByYear(s) ==> SortedByYear(s[1..])
    ensures DistinctYears(s) ==> DistinctYears(s[1..])
    ensures multiset(s[1..]) == multiset(s) - multiset{s[0]}
  {
    assert s == [s[0]] + s[1..];
  }

  /** The head of a year-sorted sequence has the least year of its elements. */
  lemma HeadHasLeastYear(s: seq<Sample>, x: Sample)
    requires SortedByYear(s)
    requires x in s
    ensures s[0].year <= x.year
  {
    var k :| 0 <= k < |s| && s[k] == x;
  }

  /** With distinct years, an element is identified by its year. */
  lemma YearIdentifies(s: seq<Sample>, x: Sample, k: nat)
    requires DistinctYears(s)
    requires x in s && k < |s| && x.year == s[k].year
    ensures x == s[k]
  {
    var m :| 0 <= m < |s| && s[m] == x;
  }

  /** Taking one element out keeps the years distinct, and no element left
      carries the year of the one taken out. */
  lemma RemoveAtYears(s: seq<Sample>, p: nat)
    requires p < |s|
    requires DistinctYears(s)
    ensures DistinctYears(RemoveAt(s, p))
    ensures forall y | y in RemoveAt(s, p) :: y.year != s[p].year
  {
    var r := RemoveAt(s, p);
    forall i, j | 0 <= i < j < |r| ensures r[i].year != r[j].year {
      assert r[i] == s[if i < p then i else i + 1];
      assert r[j] == s[if j < p then j else j + 1];
    }
    forall y | y in r ensures y.year != s[p].year {
      var q :| 0 <= q < |r| && r[q] == y;
      assert y == s[if q < p then q else q + 1];
    }
  }

  /** A head whose year no later element has, before a tail of distinct
      years, gives a sequence of distinct years. */
  lemma ConsDistinct(s: seq<Sample>)
    requires s != [] && DistinctYears(s[1..])
    requires forall y | y in s[1..] :: y.year != s[0].year
    ensures DistinctYears(s)
  {
    forall i, j | 0 <= i < j < |s| ensures s[i].year != s[j].year {
      assert s[j] == s[1..][j - 1];
      if i > 0 {
        assert s[i] == s[1..][i - 1];
      }
    }
  }

  /** Reordering a sequence keeps its years distinct. */
  lemma {:induction false} PermutationKeepsDistinctYears(a: seq<Sample>, b: seq<Sample>)
    requires multiset(a) == multiset(b)
    requires DistinctYears(a)
    ensures DistinctYears(b)
    decreases |b|
  {
    if b != [] {
      assert b[0] in multiset(a);
      var p :| 0 <= p < |a| && a[p] == b[0];
      var rest := RemoveAt(a, p);
      RemoveAtYears(a, p);
      assert multiset(rest) == multiset(b[1..]) by {
        TailFacts(b);
      }
      PermutationKeepsDistinctYears(rest, b[1..]);
      forall y | y in b[1..] ensures y.year != b[0].year {
        assert y in multiset(rest);
      }
      ConsDistinct(b);
    }
  }

  /** Two year-sorted orderings of the same features with distinct years
      start with the same element. */
  lemma SameHead(a: seq<Sample>, b: seq<Sample>)
    requires SortedByYear(a) && SortedByYear(b)
    requires DistinctYears(a)
    requires multiset(a) == multiset(b)
    requires a != []
    ensures b != [] && a[0] == b[0]
  {
    assert a[0] in multiset(b) && b[0] in multiset(a);
    HeadHasLeastYear(b, a[0]);
    HeadHasLeastYear(a, b[0]);
    YearIdentifies(a, b[0], 0);
  }

  /** Two year-sorted orderings of the same features are the same sequence
      when the years are distinct: the sorted order is unique. */
  lemma {:induction false} SortedPermutationUnique(a: seq<Sample>, b: seq<Sample>)
    requires SortedByYear(a) && SortedByYear(b)
    requires DistinctYears(a)
    requires multiset(a) == multiset(b)
    ensures a == b
    decreases |a|
  {
    if a == [] {
      assert |b| == |multiset(b)| == 0;
    } else {
      SameHead(a, b);
      TailFacts(a);
      TailFacts(b);
      SortedPermutationUnique(a[1..], b[1..]);
      assert a == [a[0]] + a[1..] && b == [b[0]] + b[1..];
    }
  }

  /** Mapping keeps the years of the images at the same positions, so the
      features have distinct years exactly when the images do. */
  lemma MapKeepsDistinctYears(imgs: seq<Snapshot>)
    ensures DistinctYears(MapToSamples(imgs)) <==> DistinctSnapshotYears(imgs)
  {
  }

  /** Taking an image out before mapping is taking its feature out after. */
  lemma MapRemoveAt(ys: seq<Snapshot>, p: nat)
    requires p < |ys|
    ensures MapToSamples(RemoveAt(ys, p)) == RemoveAt(MapToSamples(ys), p)
  {
  }

  /** The features of a collection are those of the collection without image
      p, plus image p's feature. */
  lemma MapRemoveAtMultiset(ys: seq<Snapshot>, p: nat)
    requires p < |ys|
    ensures multiset(MapToSamples(ys)) ==
      multiset(MapToSamples(RemoveAt(ys, p))) + multiset{ToSample(ys[p])}
  {
    var mapped := MapToSamples(ys);
    MapRemoveAt(ys, p);
    assert multiset(mapped) == multiset(RemoveAt(mapped, p)) + multiset{mapped[p]};
  }

  /** Mapping a non-empty collection maps its head and then its tail. */
  lemma MapHead(xs: seq<Snapshot>)
    requires xs != []
    ensures multiset(MapToSamples(xs)) == multiset{ToSample(xs[0])} + multiset(MapToSamples(xs[1..]))
  {
    assert MapToSamples(xs) == [ToSample(xs[0])] + MapToSamples(xs[1..]);
  }

  /** One step of the reordering argument: when xs's head sits at index p of
      ys and the rests map to the same features, so do xs and ys. */
  lemma MapPermutationStep(xs: seq<Snapshot>, ys: seq<Snapshot>, p: nat)
    requires xs != [] && p < |ys| && ys[p] == xs[0]
    requires multiset(MapToSamples(xs[1..])) == multiset(MapToSamples(RemoveAt(ys, p)))
    ensures multiset(MapToSamples(xs)) == multiset(MapToSamples(ys))
  {
    MapHead(xs);
    MapRemoveAtMultiset(ys, p);
  }

  /** When the head of xs sits at index p of a reordering ys, the rest of xs
      is a reordering of ys without index p. */
  lemma MatchedTails<T>(xs: seq<T>, ys: seq<T>, p: nat)
    requires multiset(xs) == multiset(ys)
    requires xs != [] && p < |ys| && ys[p] == xs[0]
    ensures multiset(xs[1..]) == multiset(RemoveAt(ys, p))
  {
    assert xs == [xs[0]] + xs[1..];
  }

  /** Mapping a reordered collection gives a reordering of the features. */
  lemma {:induction false} MapKeepsPermutation(xs: seq<Snapshot>, ys: seq<Snapshot>)
    requires multiset(xs) == multiset(ys)
    ensures multiset(MapToSamples(xs)) == multiset(MapToSamples(ys))
    decreases |xs|
  {
    if xs == [] {
      assert |ys| == |multiset(ys)| == 0;
    } else {
      assert xs[0] in multiset(ys);
      var p :| 0 <= p < |ys| && ys[p] == xs[0];
      var rest := RemoveAt(ys, p);
      MatchedTails(xs, ys, p);
      MapKeepsPermutation(xs[1..], rest);
      MapPermutationStep(xs, ys, p);
    }
  }

  /** With distinct image years the area list is strictly ascending by year. */
  lemma AreaListStrictlyAscending(imgs: seq<Snapshot>)
    requires DistinctSnapshotYears(imgs)
    ensures StrictlyAscending(AreaList(imgs))
  {
    MapKeepsDistinctYears(imgs);
    PermutationKeepsDistinctYears(MapToSamples(imgs), AreaList(imgs));
  }

  /** Every image contributes its converted feature to the area list, and every
      entry of the area list is the converted feature of some image: sorting
      neither drops, invents nor alters a sample. */
  lemma AreaListEntries(imgs: seq<Snapshot>)
    ensures forall i :: 0 <= i < |imgs| ==> ToSample(imgs[i]) in AreaList(imgs)
    ensures forall k :: 0 <= k < |imgs| ==>
      exists i :: 0 <= i < |imgs| && AreaList(imgs)[k] == ToSample(imgs[i])
  {
    var mapped, area := MapToSamples(imgs), AreaList(imgs);
    forall i | 0 <= i < |imgs| ensures ToSample(imgs[i]) in area {
      assert mapped[i] in multiset(mapped);
    }
    forall k | 0 <= k < |imgs| ensures exists i :: 0 <= i < |imgs| && area[k] == ToSample(imgs[i]) {
      assert area[k] in multiset(mapped);
      var i :| 0 <= i < |mapped| && mapped[i] == area[k];
      assert area[k] == ToSample(imgs[i]);
    }
  }
}
