# SatLook core in Dafny

SatLook shows which geostationary satellites an observer on the ground can
see. This project models the part of SatLook that decides that:

- **Geospatial** (`geospatial.dfy`) is `calculateSatelliteElevation`. It
  converts degrees to radians, computes cos(psi) for the central angle psi
  between the observer and the sub-satellite point, and returns the
  sentinel -90 when cos(psi) is under the horizon ratio 6378/42164.
  Otherwise it returns `atan((cos psi - ratio) / sqrt(1 - cos² psi))` in
  degrees.
- **SatelliteData** (`satellite_data.dfy`) is the `Satellite` record and the
  fixed catalog `SATELLITES` of twenty entries.
- **StableSort** (`stable_sort.dfy`) is the stable descending sort that
  `Array.prototype.sort` performs with the comparator
  `(a, b) => b.elevation! - a.elevation!`. It is an insertion sort over
  sequences. Its stability is stated with `WithKey`, the subsequence of
  elements that share one key value.
- **Visibility** (`visibility.dfy`) is the home page's
  `filter → map → sort` expression, written as the pure function `Visible`
  of the trigonometry, the catalog, the observer and the threshold.

Real numbers stand in for JavaScript doubles. The trigonometry
(`Math.cos`, `Math.atan`, `Math.sqrt`, `Math.PI`) is a parameter `t: Trig`.
`Trig` is a record of function values restricted to those that obey a
small set of laws:

- cos lies in [-1, 1], is even, has cos 0 = 1, does not increase on
  [0, pi] and is non-negative on [0, pi/2];
- atan 0 = 0, atan is monotone and |atan| < pi/2;
- sqrt is positive on positive arguments and monotone.

Every property below holds for every such choice of functions. A concrete
witness shows that these laws are consistent.

## Model

| member | source | states |
|---|---|---|
| Geospatial.DegRadRoundTrip | src/lib/geospatial.ts:6-13 | radToDeg(degToRad(x)) = x and degToRad(radToDeg(x)) = x |
| Geospatial.DegToRadDifference | src/lib/geospatial.ts:6-8 | degToRad is linear: it maps a difference to the difference and a negation to the negation |
| Geospatial.RadToDegMonotone | src/lib/geospatial.ts:11-13 | radToDeg preserves order |
| Geospatial.RadToDegStrict | src/lib/geospatial.ts:11-13 | radToDeg preserves strict order |
| Geospatial.RadToDegQuarterTurn | src/lib/geospatial.ts:11-13 | radToDeg(±pi/2) = ±90, the limits of the returned angle |
| Geospatial.CosPsi | src/lib/geospatial.ts:28-33 | cos(psi), the product of cos(phi) and cos(lambda_sat - lambda_obs), lies in [-1, 1] |
| Geospatial.HorizonSlope | src/lib/geospatial.ts:50-52 | the atan argument is non-negative whenever the horizon test is passed and cos(psi) < 1 |
| Geospatial.ElevationFromCosPsi | src/lib/geospatial.ts:35-54 | the result lies in [-90, 90]; it is the sentinel -90 exactly when cos(psi) is below 6378/42164; it is at least 0 exactly when cos(psi) is at least that ratio |
| Geospatial.Elevation | src/lib/geospatial.ts:21-55 | the same three facts, stated over the observer and the slot longitude |
| Geospatial.ElevationAtHorizon | src/lib/geospatial.ts:36-38 | at cos(psi) equal to the ratio the comparison is strict, so the atan branch is taken and gives 0, not -90 |
| Geospatial.ElevationMonotoneInCosPsi | src/lib/geospatial.ts:36-54 | the elevation never decreases as cos(psi) grows, across the sentinel branch and the atan branch |
| Geospatial.ElevationOverhead | src/lib/geospatial.ts:21-55 | an observer on the equator directly below the slot sees elevation 90 |
| Geospatial.ElevationLongitudeShift | src/lib/geospatial.ts:28-33 | shifting both longitudes by the same amount leaves the elevation unchanged |
| Geospatial.CosPsiLongitudeShift | src/lib/geospatial.ts:28-33 | the same invariance for cos(psi) |
| Geospatial.ElevationLatitudeMirror | src/lib/geospatial.ts:28-33 | the observers at latitude lat and -lat see the same elevation |
| Geospatial.CosPsiLatitudeMirror | src/lib/geospatial.ts:28-33 | the same symmetry for cos(psi) |
| Geospatial.ElevationLongitudeSwap | src/lib/geospatial.ts:29-33 | exchanging the observer's longitude and the slot leaves the elevation unchanged |
| Geospatial.CosPsiLongitudeSwap | src/lib/geospatial.ts:29-33 | the same symmetry for cos(psi) |
| Geospatial.ElevationMonotoneInSeparation | src/lib/geospatial.ts:21-55 | for a latitude in [-90, 90], moving the slot further away in longitude, up to 180 degrees, never raises the elevation |
| Geospatial.CosPsiMonotoneInSeparation | src/lib/geospatial.ts:28-33 | the same monotonicity for cos(psi) |
| SatelliteData.CatalogSize | src/lib/satellite-data.ts:11-39 | the catalog has 20 entries |
| SatelliteData.CatalogIdsDistinct | src/lib/satellite-data.ts:13-38 | no two catalog entries share a NORAD number |
| SatelliteData.CatalogSlotsInRange | src/lib/satellite-data.ts:13-38 | every slot longitude lies in [-180, 180] |
| SatelliteData.CatalogUnannotated | src/lib/satellite-data.ts:8-38 | no catalog entry carries an elevation yet |
| SatelliteData.CatalogStatuses | src/lib/satellite-data.ts:7-38 | every status is operational or spare; the spares are exactly entries 4 and 14, DirecTV-5 and Arabsat-2B |
| StableSort.InsertBy | src/app/page.tsx:48 | inserting adds exactly the one element: the multiset grows by `x` |
| StableSort.SortDescendingBy | src/app/page.tsx:48 | the sort is a permutation of its input |
| StableSort.SortKeepsEvery | src/app/page.tsx:48 | every element of the output is an element of the input |
| StableSort.InsertKeepsSorted | src/app/page.tsx:48 | inserting into a descending sequence keeps it descending |
| StableSort.SortIsSorted | src/app/page.tsx:48 | the result is in descending order of the key |
| StableSort.WithKeyAppend | src/app/page.tsx:48 | picking the elements of one key distributes over concatenation |
| StableSort.NoneAboveFirst | src/app/page.tsx:48 | in a descending sequence, no element has a key above the first key |
| StableSort.InsertIsStable | src/app/page.tsx:48 | an inserted element goes after every element that has the same key |
| StableSort.SortIsStable | src/app/page.tsx:48 | stability: for each key value, the elements with that key keep their input order |
| Visibility.KeepAbove | src/app/page.tsx:42-45 | the filter keeps only entries whose elevation is at least the threshold, and it never lengthens the catalog |
| Visibility.KeepAboveMembership | src/app/page.tsx:42-45 | an entry survives the filter exactly when it is in the catalog and reaches the threshold |
| Visibility.AnnotateAll | src/app/page.tsx:45-48 | the map keeps the length, and entry i becomes entry i with only its elevation set |
| Visibility.AnnotateAllAppend | src/app/page.tsx:45-48 | the map distributes over concatenation |
| Visibility.KeptWithKey | src/app/page.tsx:42-48 | filtering and then annotating keeps, for each elevation at or above the threshold, all records of that elevation in catalog order, and keeps none below it |
| Visibility.Visible | src/app/page.tsx:42-48 | the result is no longer than the catalog; every record carries an elevation at or above the threshold; the order is descending by elevation; the result is a permutation of the filtered, annotated entries |
| Visibility.VisibleMembership | src/app/page.tsx:42-48 | a record is returned exactly when it is the annotated copy of a catalog entry that reaches the threshold |
| Visibility.VisibleTiesInCatalogOrder | src/app/page.tsx:42-48 | records of equal elevation appear in catalog order |
| Visibility.VisibleOfEmpty | src/app/page.tsx:42-48 | an empty catalog gives an empty result |
| Visibility.VisibleExcludesBelowHorizon | src/app/page.tsx:42-48 | with a threshold above -90, no record carrying the below-horizon sentinel is returned |
| Visibility.VisibleAboveZenithIsEmpty | src/app/page.tsx:42-48 | a threshold above 90 leaves nothing visible |
| Visibility.KeepAboveKeepsIdsDistinct | src/app/page.tsx:42-45 | the filter keeps NORAD numbers distinct |
| Visibility.VisibleKeepsIdsDistinct | src/app/page.tsx:42-48 | if the catalog's NORAD numbers are distinct, no satellite is returned twice |
| Visibility.VisibleFromCatalog | src/app/page.tsx:42-48 | over the fixed catalog, at most 20 satellites are visible, with distinct NORAD numbers |

## Left out

- Floating point is not modelled. Numbers are exact reals, and `Math.cos`, `Math.atan`, `Math.sqrt` and `Math.PI` are the lawful but otherwise arbitrary functions of `Trig`. Rounding, NaN and infinities are not represented.
- Geospatial.ElevationFromCosPsi: at cos(psi) = 1 the source divides a positive number by `Math.sqrt(0)`. `Math.atan(+Infinity)` then gives 90 degrees, so the model returns 90 on that branch directly instead of dividing.
- The doc comment of `calculateSatelliteElevation` (src/lib/geospatial.ts:19) says that NaN is returned below the horizon. The code returns -90, and the model follows the code.
- The distance `d` and `sin_E` (src/lib/geospatial.ts:41-47) are computed but never used for the result, so they are not modelled.
- Geospatial.ElevationMonotoneInSeparation: states non-strict monotonicity only. The laws assumed of `Math.cos` are order facts, not strict decrease, so a strict version cannot be derived from them.
- Concrete elevations, such as that of a given satellite from a given city, are not derived. They depend on the actual values of cos and atan, which the model keeps abstract.
- Visibility.ElevationKey: the sort's `b.elevation!` is modelled as a key that falls back to -90 for a record without an elevation. Every record that reaches the sort has one, so the fallback is never used.
- The React state and effects around the expression in src/app/page.tsx (`useEffect`, `setVisibleSatellites`, reading `lat`, `lon` and `minElev` from the URL) are not modelled. `Visible` takes the observer and the threshold as parameters.
- The globe rendering, the map projections, the UI components and the language-model flows are not part of this model.
- `Status` has a third constructor `Other` for the `'other'` member of the source's union type. No catalog entry uses it.
