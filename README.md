# Polyline and map-region helpers

This project models the geometry helpers in `utils/polyline.ts`. The model has two operations:

- **`decodePolyline`** turns an encoded polyline string into a list of `{latitude, longitude}` coordinates. It calls a third-party decoder to do the work. Absent or empty input gives an empty list. So does a decoder that throws.
- **`calculateMapRegion`** computes the map viewport for a list of Strava segments. A missing or empty list gives a fixed fallback region. Otherwise one pass over the segments keeps four running bounds (`minLat`, `maxLat`, `minLng`, `maxLng`), seeded with ±Infinity and narrowed by every present start and end coordinate. The centre is the midpoint of each axis's bounds. The span is the axis's extent times 1.2.

Files:

- `wrappers.dfy`: module `Wrappers`, the `Option` type.
- `types.dfy`: module `Types`, the record shapes from `types/types.ts`.
  - `Segment` keeps the two coordinate fields of `StravaSegment`, both optional.
  - `MapRegion` is the region record.
- `polyline.dfy`: module `Polyline`, both operations and their lemmas.

How each part is modelled:

- **The decoder** is a parameter of type `string --> Option<seq<LatLng>>`. `None` stands for "the decoder threw". `DecodePolyline` only requires the decoder to be defined on non-empty strings, so the decoder is never called on an absent or empty input.
- **`calculateMapRegion`** is the method `CalculateMapRegion`, a loop over the segments with the four accumulators. Each accumulator has type `Extended`: a finite real, or ±Infinity as in the source's seeds. The method is proved equal to the specification function `MapRegionOf`. That function is defined over the list `Points` of present coordinates, in visiting order.
- **Coordinates** are `real`, so the midpoint and the ×1.2 margin are exact.
- **A non-empty list with no coordinate at all** gives `Degenerate`. In the source, the bounds then stay at ±Infinity, so the centre is NaN and the spans are -Infinity. The model never claims a well-formed region for this input.
- **The segment list** is an `Option<seq<Segment>>`. Its declared type is a non-optional array, but the code still tests `!segments`, so the absent case is covered.

## Model

| member | source | states |
|---|---|---|
| `Polyline.DecodePolyline` | utils/polyline.ts:9-21 | Absent or empty input gives `[]` and the decoder is not needed there. A decoder failure gives `[]`. On success the result has one coordinate per decoded pair, in order: element i has latitude = first component and longitude = second component of pair i. |
| `Polyline.DecodePolylineKeepsPairs` | utils/polyline.ts:13-16 | After a successful decode, reading the coordinates back as pairs gives exactly the decoder's output (nothing lost, reordered or added). |
| `Polyline.DecodePolylineEmptyIff` | utils/polyline.ts:10-20 | The result is empty exactly when one of these holds: the input is absent or empty, the decoder fails, or it decodes no pairs. |
| `Polyline.CalculateMapRegion` | utils/polyline.ts:23-61 | The loop over segments with four running bounds returns `MapRegionOf(segments)`. An absent or empty list gives the fallback region (45.764, 4.835, 0.1, 0.1). The result is `Degenerate` exactly when the list is non-empty and carries no coordinate. |
| `Polyline.Min` | utils/polyline.ts:41-51 | `Math.min` of a running bound and a coordinate returns one of its two arguments and is no larger than either, in the order where -Infinity is below every real and Infinity above. |
| `Polyline.Max` | utils/polyline.ts:41-51 | `Math.max` of a running bound and a coordinate returns one of its two arguments and is no smaller than either, in the same order. |
| `Polyline.RegionFromBounds` | utils/polyline.ts:55-60 | The result is a region exactly when all four bounds are finite. The centre is then equidistant from each axis's min and max, and span / 1.2 equals max − min. |
| `Polyline.LowestIsMinimum` | utils/polyline.ts:33-53 | The running minimum, seeded with Infinity, stays Infinity exactly when no point was visited. Otherwise it is finite, some point attains it, and no point is below it. |
| `Polyline.HighestIsMaximum` | utils/polyline.ts:33-53 | The running maximum, seeded with -Infinity, stays -Infinity exactly when no point was visited. Otherwise it is finite, some point attains it, and no point is above it. |
| `Polyline.DegenerateIffNoPoints` | utils/polyline.ts:24-60 | The computed region is degenerate, meaning infinite bounds, exactly when the list is present and non-empty and no segment has a start or end coordinate. |
| `Polyline.PointsMembership` | utils/polyline.ts:38-53 | A point takes part in the bounds exactly when some segment has it as its present start or present end. Missing fields contribute nothing and cause no error. |
| `Polyline.RegionContainsPoints` | utils/polyline.ts:38-60 | Given at least one present coordinate, the region is well formed. On each axis the span is non-negative and the centre lies between the min and max coordinate. Every present start or end point lies within centre ± span/2. |
| `Polyline.RegionCharacterized` | utils/polyline.ts:55-60 | Take any values `lo` and `hi` that present points attain, with every point between them. On that axis the centre is then (lo + hi)/2 and the span is (hi − lo) × 1.2. |
| `Polyline.CoincidentPointsZeroSpan` | utils/polyline.ts:38-60 | When all present points equal p, the region is centred on p with both spans 0. |
| `Polyline.SamePointsSameBounds` | utils/polyline.ts:38-53 | Two point lists with the same members yield the same four bounds, whatever their order or repetitions. |
| `Polyline.OrderIrrelevant` | utils/polyline.ts:38-60 | Any permutation of the segment list gives the same region. |
| `Polyline.CoordinatelessSegmentSkipped` | utils/polyline.ts:39-52 | Inserting a segment with neither coordinate anywhere into a non-empty list leaves the region unchanged. |
| `Polyline.PointsAppend` | utils/polyline.ts:38 | `forEach` visits segments in list order. The points of a concatenation are the points of each part, in order. |
| `Polyline.FallbackExample` | utils/polyline.ts:24-31 | Both the absent list and the empty list give exactly latitude 45.764, longitude 4.835, deltas 0.1 and 0.1. |
| `Polyline.SingleStartExample` | utils/polyline.ts:38-60 | One segment with only a start coordinate (45, 4) gives centre (45, 4) and spans (0, 0). |
| `Polyline.TwoStartsExample` | utils/polyline.ts:38-60 | Start coordinates (45, 4) and (46, 5) give centre (45.5, 4.5) and spans (1.2, 1.2). |

## Left out

- The internals of `@mapbox/polyline` `decode` (utils/polyline.ts:1,13) are not modelled. It is third-party code. The model takes it as a parameter and does not restate the encoded polyline format.
- The `console.error` logging in the decoder's catch branch is left out. It is output only and does not affect the returned value.
- IEEE-754 behaviour is not modelled: rounding of the midpoint and of the ×1.2 factor, and NaN propagation. Coordinates are exact reals. The only IEEE values modelled are the ±Infinity seeds of the bounds, and the NaN / -Infinity region they lead to is reported as `Degenerate`.
- The decoder's output is modelled as pairs. The library's output is `number[][]`, and the model does not cover an inner array whose length is not 2.
- `StravaSegment` fields other than `start_latlng` and `end_latlng` are left out, because neither helper reads them.
- Not part of this model: the screens, the HTTP clients (api/), authentication, React contexts and hooks, and configuration files. They hold I/O, navigation and UI state, not geometry logic.
