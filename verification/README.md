# geojson2h3 in Dafny

A model of the conversion layer of geojson2h3, the library that turns GeoJSON
polygons into sets of H3 hexagonal grid cells and turns cell sets back into
GeoJSON features. The model covers the part of `src/geojson2h3.js` that the
library itself implements: dispatch on the GeoJSON object kind, recursion
through FeatureCollections, the Polygon-as-MultiPolygon normalisation, the
optional centroid fallback for polygons too small to hold a cell centre, the
deduplicating merge of per-polygon and per-feature cell lists, the collapse
of an outline list to a Polygon or MultiPolygon, and the per-cell adapters.

Every geometric computation belongs to the h3-js grid library and is not
implemented here. The model takes those primitives as a value of type
`GeoJson.Primitives<C>`, a record of functions about which nothing is assumed
beyond their types:

- `polyfill`: the cells whose centres lie in a polygon (`h3.polyfill`).
- `geoToH3`: the cell holding a point (`h3.geoToH3`).
- `boundary`: the boundary ring of one cell (`h3.h3ToGeoBoundary`).
- `setToMultiPolygon`: the outline polygons of a cell set (`h3.h3SetToMultiPolygon`).
- `centroid`: the converter's own floating-point vertex mean of an outer ring.

Cells are a generic type `C` with equality. Property values are a generic type
`V`, and a property bag is a `map<string, V>`.

Files:

- `results.dfy`: module `Results`, with `Option` (standing for a value that may
  be `undefined`) and `Result` (a return value or a thrown error).
- `distinct.dfy`: module `Distinct`. It holds concatenation and first-occurrence
  deduplication of sequences, with their algebra: membership, no repeats,
  order of first occurrence, uniqueness of a list with those three properties,
  and merging of already-merged groups.
- `geojson.dfy`: module `GeoJson`. It holds the GeoJSON objects, the error
  values and the primitives record.
- `geojson2h3.dfy`: module `Geojson2H3`, the operations.
- `laws.dfy`: module `ConversionLaws`, lemmas relating several calls.

Points where the code's behaviour is easy to misread:

- `h3SetToFeature` takes the polygons that `h3.h3SetToMultiPolygon` returns
  as they are (src/geojson2h3.js:176). Assigning holes to outer rings, and the
  "Unsupported MultiPolygon topology" error for nested donuts, happen inside
  that primitive, so neither is modelled.
- A FeatureCollection does not pass the `ensureOutput` option on to its
  members (src/geojson2h3.js:84, 116). `CollectionIsMergedMembers` states this.
- The centroid fallback reads the outer ring of the polygon
  (src/geojson2h3.js:62-63). For a polygon with no rings that ring is missing,
  and the code throws a TypeError. The model reports this as the error
  `NoOuterRing`. The case arises naturally: `h3SetToFeature([])` gives a
  Polygon with no rings.
- The centroid cell is looked up as `h3.geoToH3(lng, lat, resolution)`
  (src/geojson2h3.js:137-138). The model keeps that argument order: the
  primitive receives the longitude first. The h3-js signature itself is not
  part of this model, so nothing is claimed about which order it expects.

## Model

| member | source | states |
|---|---|---|
| Geojson2H3.Flatten | src/geojson2h3.js:38-50 | The merged list holds exactly the cells of the input lists, none of them twice, in order of first appearance. An empty list of lists gives the empty list. |
| Geojson2H3.FlattenArrays | src/geojson2h3.js:38-50 | The source's two-step loop gives the merge defined by `Flatten`. The first step pushes every later list onto the first one; the second reads the result through an insertion-ordered set. |
| ConversionLaws.FlattenMembers | src/geojson2h3.js:38-50 | A cell is in the merge if and only if it is in one of the input lists. |
| ConversionLaws.FlattenUnique | src/geojson2h3.js:38-50 | Any list with the merge's three properties (same cells, no repeats, first-appearance order) equals the merge. |
| ConversionLaws.FlattenOfDistinct | src/geojson2h3.js:38-50 | Merging a single list with no repeats returns that list unchanged. |
| ConversionLaws.FlattenOfFlattens | src/geojson2h3.js:38-50 | Merging lists that are themselves merges equals merging all the original lists in one pass. |
| Geojson2H3.FeatureToH3Set | src/geojson2h3.js:111-141 | Results never repeat a cell. An object that is neither a Feature nor a FeatureCollection fails with "Unhandled type", whatever its geometry. A Feature whose geometry is missing or is neither a Polygon nor a MultiPolygon fails with "Unhandled geometry type", naming the geometry type or `undefined`. A Feature with polygons succeeds if and only if no polygon takes the centroid fallback without having any ring; otherwise it fails with `NoOuterRing`. A collection without `features` fails with "No features found". |
| Geojson2H3.FeatureCollectionToH3Set | src/geojson2h3.js:79-85 | A collection without a `features` member fails with "No features found" (an empty member list is accepted). A successful result never repeats a cell. |
| Geojson2H3.CollectAll | src/geojson2h3.js:84 | Mapping the members either gives every member's value in order or fails with the error of the first failing member, with all earlier members succeeding. |
| Geojson2H3.PolygonToH3Set | src/geojson2h3.js:131-139 | Without `ensureOutput`, a polygon contributes exactly its polyfill, and so does any polygon whose polyfill is non-empty. With `ensureOutput` and an empty polyfill, a polygon with rings contributes exactly the one cell `geoToH3(lng, lat, res)` at its centroid. A polygon without rings fails with `NoOuterRing`, and that is the only way it fails. |
| Geojson2H3.PolygonsToH3Set | src/geojson2h3.js:130-140 | A polygon list converts if and only if no polygon takes the centroid fallback without having any ring. A failure is always `NoOuterRing`. A successful result never repeats a cell. |
| ConversionLaws.PolygonIsMultiPolygonOfOne | src/geojson2h3.js:126-127 | A Feature with Polygon coordinates `c` converts exactly like the same Feature with MultiPolygon coordinates `[c]`. |
| ConversionLaws.FeatureIsMergedPolygons | src/geojson2h3.js:129-140 | With or without `ensureOutput`, when every polygon converts, a Feature converts to the merge of the per-polygon cell lists, in polygon order. |
| ConversionLaws.FeatureIsMergedPolyfill | src/geojson2h3.js:129-140 | Without `ensureOutput`, a Feature converts to the merge of the polyfills of its polygons, in polygon order. |
| ConversionLaws.EnsureOutputFallback | src/geojson2h3.js:130-140 | With `ensureOutput`, the Feature fails (with `NoOuterRing`) if and only if some polygon has no rings and an empty polyfill. On success, a cell is in the result if and only if some polygon has it in a non-empty polyfill, or some polygon has an empty polyfill and this is the cell at that polygon's centroid. A successful result is non-empty when there is at least one polygon. |
| ConversionLaws.CollectionIsMergedMembers | src/geojson2h3.js:79-85 | When every member converts, a collection converts to the merge of the members' cells, in member order. Members are converted without `ensureOutput`, so the option makes no difference. |
| ConversionLaws.CollectionFailsAtFirstBadMember | src/geojson2h3.js:84 | A collection with a failing member fails with the first failing member's error, whatever the option. |
| ConversionLaws.NestedCollectionsFlatten | src/geojson2h3.js:79-85 | A collection of collections converts to the merge of all their members' cell lists. A cell shared by two members appears once. |
| Geojson2H3.CollapsePolygons | src/geojson2h3.js:177-181 | The geometry is a MultiPolygon if and only if there is more than one outline, and a MultiPolygon never holds fewer than two polygons. |
| Geojson2H3.H3SetToFeature | src/geojson2h3.js:175-190 | The result is a Feature with no id, whose properties are the given bag or `{}`, and whose geometry is a Polygon or a MultiPolygon of at least two polygons. |
| ConversionLaws.OutlineCollapse | src/geojson2h3.js:175-190 | The result is a MultiPolygon if and only if the primitive gives more than one outline. With at least one outline, reading the geometry back as a polygon list (as the forward direction does) gives the outlines unchanged and in order. With none, the geometry is a Polygon without rings. |
| ConversionLaws.OutlineBackToCells | src/geojson2h3.js:127-140 | Converting an outline Feature back to cells converts each outline polygon and merges the results. With no outline the geometry is a Polygon without rings. That converts to its deduplicated polyfill, unless `ensureOutput` is set and the polyfill is empty; then it fails with `NoOuterRing`, as the source throws. |
| Geojson2H3.H3ToFeature | src/geojson2h3.js:150-162 | The Feature's id is the cell. Its geometry is a Polygon whose only ring is the cell's boundary. Its properties are the given bag, or `{}` when none is given. |
| ConversionLaws.CellFeatureBackToCells | src/geojson2h3.js:150-162 | A one-cell Feature's single-ring polygon never fails to convert. Converting the Feature back to cells gives that polygon's cells without repeats. |
| Geojson2H3.H3SetToMultiPolygonFeature | src/geojson2h3.js:202-215 | The result is always a MultiPolygon, even for zero or one cell. It has one polygon per input cell, in input order and with repeats kept, and polygon `i` is the single ring `[boundary(hexagons[i])]`. |
| ConversionLaws.PerCellPolygonsMatchCellFeatures | src/geojson2h3.js:202-215 | Polygon `i` of the per-cell MultiPolygon has the same rings as the one-cell Feature of cell `i`. |
| Geojson2H3.H3SetToFeatureCollection | src/geojson2h3.js:228-239 | The collection has exactly one Feature per input cell. Feature `i` is the one-cell Feature of `hexagons[i]`, built with that cell's looked-up properties. |
| ConversionLaws.CollectionFeatureProperties | src/geojson2h3.js:150-162 | Feature `i` of the per-cell collection has id `hexagons[i]` and the cell boundary as its only ring. Its properties are `{}` when there is no lookup function or the lookup returns nothing; otherwise they are what the lookup returns. |
| ConversionLaws.PerCellAdaptersAgree | src/geojson2h3.js:202-239 | Without `ensureOutput`, the per-cell MultiPolygon Feature and the per-cell FeatureCollection of the same cells convert back to the same cells. |

## Left out

- The h3-js primitives `polyfill`, `geoToH3`, `h3ToGeoBoundary` and `h3SetToMultiPolygon` are parameters with no assumed behaviour. Their source is not part of this model, so properties that depend on real grid geometry are not stated: the exact cells of a round trip, hole detection, nested-donut rejection and resolution range checks.
- The floating-point arithmetic of the private `centroid` helper (src/geojson2h3.js:58-69) is a parameter too. The helper's throw on a polygon with no rings is modelled (`NoOuterRing`). Its division by zero on an outer ring with no vertices is not: the resulting NaN coordinates go to `geoToH3`, and what h3-js does with them is not part of this model.
- The flag passed to `h3ToGeoBoundary` is `true` in one adapter and the truthy object `{geoJson: true}` in the other. Both are modelled as the same `boundary` primitive.
- The first step of `flatten` extends the first input array in place. Both callers pass freshly mapped arrays that nothing else sees, so the model treats the merge as a pure function.
- JavaScript `null` is not told apart from `undefined`. A properties argument or lookup result of `null` would be stored as `null` rather than replaced by `{}`; the model has only "absent", which gets the `{}` default.
- Malformed input the code does not check is not modelled: a non-object argument, or supported geometry whose `coordinates` member is missing or nested wrongly. The `coordinates` of an unsupported geometry, `bbox`, and foreign members are never read, so the model has no place for them.
- The `resolution` argument is passed to the primitives unchecked and is an unbounded `int`.
