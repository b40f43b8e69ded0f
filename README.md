# GHSL urban built-up growth: the area-and-growth pipeline in Dafny

The Earth Engine script `Script/ghsl_urban_growth.js` measures how a city's
built-up surface grows. It works on the GHSL built-up surface collection over a
drawn region. The part modelled here is the numeric pipeline in the middle of
the script:

1. **Area list** (lines 85-99). Each image becomes one feature. The feature
   holds the image's calendar year and its built-up area in km². That area is
   the region sum of the `built_surface` band divided by `1e6`. The features
   are sorted by `year` and listed with the collection size as the count.
2. **Combined table** (lines 106-138). The sorted list is walked by index
   `i = 0 .. size-1`. Each element gives one row with its `year`, its
   `builtup_sqkm` and a `growth_rate_percent`. The rate is `null` for row 0.
   For every later row it is `(curr - prev) / prev * 100`, where `prev` is the
   area of the preceding element of the sorted list.

The modules follow these two stages:

- `area_series.dfy`, module `AreaSeries`: `Snapshot` (one image: its year and
  its raw region sum in m²) and `Sample` (one feature of the area list).
  `ToSample` converts the units. `MapToSamples` is the collection `map`.
  `SortByYear` is the `sort('year')`, an insertion sort proved sorted and a
  permutation. `ToList` is `toList(count)`. `AreaList` composes them.
- `growth_rates.dfy`, module `GrowthRates`: `Growth` (the rate column),
  `Row`, `GrowthRate` and `CombinedTable`. `CombinedTable` builds row `i` for
  every index `i`, as `ee.List.sequence(...).map(...)` does.
- `pipeline.dfy`, module `Pipeline`: `GrowthTableOf` composes both stages.
  It also holds the lemmas that relate the two stages: reordering the input
  does not change the table, and the worked scenarios.

Areas and rates are Dafny `real`s. The model computes exact quotients where the
script computes IEEE doubles.

### Behaviour kept from the script

- **Duplicate years.** The script does not reject two images of the same year:
  both reach the list, next to each other. The model does the same. `AreaList`
  keeps every sample and orders them non-decreasingly by year. The results
  that need unique years (strict ascent, independence of input order) take
  distinct years as a `requires`.
- **No dropped images.** The script has no path that drops an image: every
  image yields one feature, so `AreaList` has exactly one entry per image.
- **Zero predecessor area.** The script divides by the predecessor area
  whatever its value. What the backend returns for a zero divisor is not
  visible in the source. The model makes that case explicit. Such a row's rate
  is `UndefinedRate`, and only that row is affected. `NoRate` is kept for the
  `null` of row 0.
- **Order of equal years.** The script does not say how `sort('year')` orders
  two images of the same year. The model's insertion sort keeps their
  collection order, but no contract depends on it.

## Model

| member | source | states |
|---|---|---|
| `AreaSeries.ToSample` | Script/ghsl_urban_growth.js:94-96 | the feature keeps the image's year, and its km² area times 1,000,000 is the raw m² region sum |
| `AreaSeries.MapToSamples` | Script/ghsl_urban_growth.js:85-97 | the mapped collection has one feature per image, and feature `i` is image `i` converted |
| `AreaSeries.SortByYear` | Script/ghsl_urban_growth.js:99 | the result is ordered by year (non-decreasing) and is a permutation of the input (same multiset) |
| `AreaSeries.ToList` | Script/ghsl_urban_growth.js:99 | `toList(count)` gives a prefix of the collection of length `min(count, size)` |
| `AreaSeries.AreaList` | Script/ghsl_urban_growth.js:85-99 | the area list has exactly as many entries as the collection has images, is ordered by year, and is a permutation of the converted images |
| `AreaSeries.AreaListEntries` | Script/ghsl_urban_growth.js:85-99 | every image's converted feature is in the area list, and every entry of the list is the converted feature of some image |
| `AreaSeries.AreaListStrictlyAscending` | Script/ghsl_urban_growth.js:99 | when the images' years are distinct, the area list is strictly ascending by year |
| `AreaSeries.PermutationKeepsDistinctYears` | Script/ghsl_urban_growth.js:99 | any reordering of features with distinct years still has distinct years, so sorting cannot create a duplicate year |
| `AreaSeries.SortedPermutationUnique` | Script/ghsl_urban_growth.js:99 | two year-sorted sequences with the same features and distinct years are equal: the sorted order is unique |
| `AreaSeries.MapKeepsPermutation` | Script/ghsl_urban_growth.js:85-97 | mapping two reorderings of one collection gives two reorderings of one feature multiset |
| `AreaSeries.MapKeepsDistinctYears` | Script/ghsl_urban_growth.js:94-95 | the features have distinct years exactly when the images do |
| `GrowthRates.GrowthRate` | Script/ghsl_urban_growth.js:116-129 | the rate is undefined exactly when the predecessor area is zero; otherwise rate × prev = (curr − prev) × 100 |
| `GrowthRates.GrowthRateInverse` | Script/ghsl_urban_growth.js:116-129 | growing the predecessor area by the computed percentage gives back the current area |
| `GrowthRates.GrowthRateSign` | Script/ghsl_urban_growth.js:116-129 | for a positive predecessor area the rate is positive exactly when the area grew and zero exactly when it stayed the same |
| `GrowthRates.RowAt` | Script/ghsl_urban_growth.js:109-136 | the row for index `i` carries element `i`'s year and area; its rate is null exactly at `i = 0`, undefined for `i > 0` exactly when element `i−1`'s area is zero, and otherwise the percentage change from element `i−1` |
| `GrowthRates.CombinedTable` | Script/ghsl_urban_growth.js:106-138 | one row per area-list element in the same order; row `i` has element `i`'s year and area; only row 0 has the null rate; a later row is undefined exactly when its predecessor area is zero, and otherwise its rate is the percentage change from element `i-1` |
| `GrowthRates.TableKeepsAreaList` | Script/ghsl_urban_growth.js:109-135 | reading the year and area back from the rows gives exactly the area list: the table changes nothing about the samples and keeps their order |
| `GrowthRates.RateFromPredecessor` | Script/ghsl_urban_growth.js:116-129 | for `i > 0` with a nonzero predecessor area, row `i`'s rate is `(area[i] − area[i−1]) / area[i−1] × 100`, where `i−1` is the preceding list entry whatever the year gap |
| `GrowthRates.RowIsLocal` | Script/ghsl_urban_growth.js:109-129 | row `i > 0` depends only on element `i` and the area of element `i−1` |
| `Pipeline.GrowthTableOf` | Script/ghsl_urban_growth.js:85-138 | the table of a collection has one row per image, in non-decreasing year order, with the null rate on the first row only |
| `Pipeline.PermutationInvariant` | Script/ghsl_urban_growth.js:99-130 | with distinct years, any reordering of the image collection gives the same area list and the same table |
| `Pipeline.TableStrictlyAscending` | Script/ghsl_urban_growth.js:99-136 | with distinct years, the table's rows are strictly ascending by year |
| `Pipeline.EmptyCollection` | Script/ghsl_urban_growth.js:99-107 | an empty collection gives an empty area list and an empty table |
| `Pipeline.UnitConversionExample` | Script/ghsl_urban_growth.js:96 | a raw region sum of 5,000,000 m² becomes 5.0 km² |
| `Pipeline.ThreeEpochScenario` | Script/ghsl_urban_growth.js:85-138 | images for 1990, 1975 and 2020 (in that order) give the list [(1975, 2.0), (1990, 2.5), (2020, 5.0)] and rates null, 25 and 100 |
| `Pipeline.ZeroAreaScenario` | Script/ghsl_urban_growth.js:116-129 | a zero area in 2000 makes only the 2010 rate undefined; the 2020 rate is still 100 |

## Left out

- The region sum `reduceRegion(... Reducer.sum() ...)` at scale 100 is a call into the raster backend. Each image arrives with its raw sum already computed (`Snapshot.rawSum`).
- Decoding `system:time_start` into a calendar year is a backend date call. Each image arrives with its year (`Snapshot.year`).
- `filterBounds` and `select(['built_surface'])` on the collection are backend filtering. The model starts from the filtered collection.
- Floating point: areas and rates are exact reals. Rounding of the division by `1e6` and of the rate is not modelled.
- What the backend's `divide` returns for a zero predecessor area is not visible in the source. The model marks that row `UndefinedRate` and claims nothing about the backend's value.
- Pipeline.EmptyCollection: the empty table for an empty collection is the model's choice; the script does not show what `ee.List.sequence(0, -1)` (line 107 with an empty list) yields, and the lemma makes no claim about it.
- Earth Engine's deferred evaluation is not modelled. The pipeline is an ordinary function of its inputs.
- How `sort('year')` orders equal years is not stated by the source. No contract speaks about tie order.
- Every export (`Export.table.toDrive`, `Export.image.toDrive`) is file or cloud output and is not modelled.
- Map display, layers, palettes and charts (`Map.centerObject`, `Map.addLayer`, `ui.Chart`, `print`) are user interface and are not modelled.
- Raster algebra is image processing inside the backend and is not modelled. This covers `toBands`, `clip`, the 1975 and 2020 `calendarRange(...).first()` selections and the change image `builtup2020.subtract(builtup1975)`.
