/** The conversion functions of geojson2h3: GeoJSON polygons to sets of H3
    cells (the forward direction) and H3 cells to GeoJSON features (the
    reverse direction). Every geometric computation is delegated to the
    `Primitives` passed in; this module only dispatches on the GeoJSON
    object kind, assembles results and merges cell lists. */
module Geojson2H3 {
  import opened Results
  import opened Distinct
  import opened GeoJson

  // ---------------------------------------------------------------------
  // Deduplicating merge

  /** Merges cell lists into one list holding each cell once, in the order
      in which cells first appear across the lists. */
  function Flatten<C(==)>(arrays: seq<seq<C>>): (r: seq<C>)
    ensures Elems(r) == Elems(Concat(arrays))
    ensures NoDuplicates(r)
    ensures FirstOccurrenceOrder(r, Concat(arrays))
    ensures |arrays| == 0 ==> r == []
  {
    DedupFromOrder(Concat(arrays), {});
    Dedup(Concat(arrays))
  }

  /** The merge as the converter performs it: every later list is pushed onto
      the first one, and the result is read back through a `Set`, which keeps
      insertion order and drops repeats. */
  method FlattenArrays<C(==)>(arrays: seq<seq<C>>) returns (r: seq<C>)
    ensures r == Flatten(arrays)
  {
    var out: seq<C> := [];
    for i := 0 to |arrays|
      invariant out == Concat(arrays[..i])
    {
      for j := 0 to |arrays[i]|
        invariant out == Concat(arrays[..i]) + arrays[i][..j]
      {
        out := out + [arrays[i][j]];
      }
      assert arrays[i][..|arrays[i]|] == arrays[i];
      assert arrays[..i + 1] == arrays[..i] + [arrays[i]];
      ConcatAppend(arrays[..i], arrays[i]);
    }
    assert arrays[..|arrays|] == arrays;
    var seen: set<C> := {};
    r := [];
    for k := 0 to |out|
      invariant r == Dedup(out[..k])
      invariant seen == Elems(out[..k])
    {
      assert out[..k + 1] == out[..k] + [out[k]];
      DedupSnoc(out[..k], out[k]);
      if out[k] !in seen {
        r := r + [out[k]];
        seen := seen + {out[k]};
      }
    }
    assert out[..|out|] == out;
  }

  // ---------------------------------------------------------------------
  // Forward direction: GeoJSON to cells

  /** The centroid fallback is taken for a polygon without rings, whose
      missing outer ring the centroid helper then tries to read. */
  predicate FallbackReadsMissingRing<C>(h3: Primitives<C>, polygon: PolygonCoords, res: int, ensureOutput: bool) {
    ensureOutput && |h3.polyfill(polygon, res)| == 0 && |polygon| == 0
  }

  /** The cells for one polygon: its polyfill, or, when that is empty and the
      caller asked for non-empty output, the one cell holding the polygon's
      centroid. */
  function PolygonToH3Set<C>(h3: Primitives<C>, polygon: PolygonCoords, res: int, ensureOutput: bool): (r: Result<seq<C>, Error>)
    ensures !ensureOutput ==> r == Success(h3.polyfill(polygon, res))
    ensures |h3.polyfill(polygon, res)| > 0 ==> r == Success(h3.polyfill(polygon, res))
    ensures ensureOutput && |h3.polyfill(polygon, res)| == 0 && |polygon| > 0 ==>
              r == Success([h3.geoToH3(h3.centroid(polygon).lng, h3.centroid(polygon).lat, res)])
    ensures r.Failure? <==> FallbackReadsMissingRing(h3, polygon, res, ensureOutput)
    ensures r.Failure? ==> r.error == NoOuterRing
    ensures r.Success? && ensureOutput ==> |r.value| > 0
  {
    var result := h3.polyfill(polygon, res);
    if |result| > 0 || !ensureOutput then Success(result)
    else if |polygon| == 0 then Failure(NoOuterRing)
    else
      var c := h3.centroid(polygon);
      Success([h3.geoToH3(c.lng, c.lat, res)])
  }

  /** The per-polygon results, in polygon order. */
  function PolyfillEach<C>(h3: Primitives<C>, polygons: seq<PolygonCoords>, res: int, ensureOutput: bool): (results: seq<Result<seq<C>, Error>>)
    ensures |results| == |polygons|
    ensures forall i :: 0 <= i < |polygons| ==> results[i] == PolygonToH3Set(h3, polygons[i], res, ensureOutput)
  {
    seq(|polygons|, i requires 0 <= i < |polygons| => PolygonToH3Set(h3, polygons[i], res, ensureOutput))
  }

  /** The merged cells of a list of polygons; the first polygon whose
      fallback fails makes the whole conversion fail. */
  function PolygonsToH3Set<C(==)>(h3: Primitives<C>, polygons: seq<PolygonCoords>, res: int, ensureOutput: bool): (r: Result<seq<C>, Error>)
    ensures r.Success? <==> forall i :: 0 <= i < |polygons| ==> !FallbackReadsMissingRing(h3, polygons[i], res, ensureOutput)
    ensures r.Failure? ==> r.error == NoOuterRing
    ensures r.Success? ==> NoDuplicates(r.value)
  {
    match CollectAll(PolyfillEach(h3, polygons, res, ensureOutput))
    case Failure(e) => Failure(e)
    case Success(lists) => Success(Flatten(lists))
  }

  /** The geometry is present and is a Polygon or a MultiPolygon. */
  predicate HasPolygons(g: Option<Geometry>) {
    g.Some? && (g.value.Polygon? || g.value.MultiPolygon?)
  }

  /** A supported geometry as a list of polygons: a Polygon is a MultiPolygon
      of one. */
  function AsPolygons(g: Geometry): (polygons: seq<PolygonCoords>)
    requires g.Polygon? || g.MultiPolygon?
    ensures g.Polygon? ==> |polygons| == 1
  {
    if g.Polygon? then [g.rings] else g.polygons
  }

  /** The first failure among `results`, or all their values in order. */
  function CollectAll<T, E>(results: seq<Result<T, E>>): (r: Result<seq<T>, E>)
    ensures r.Success? <==> forall i :: 0 <= i < |results| ==> results[i].Success?
    ensures r.Success? ==> |r.value| == |results|
    ensures r.Success? ==> forall i :: 0 <= i < |results| ==> r.value[i] == results[i].value
    ensures r.Failure? ==> exists k :: 0 <= k < |results| && results[k] == Failure(r.error)
                              && forall i :: 0 <= i < k ==> results[i].Success?
  {
    if |results| == 0 then Success([])
    else match results[0]
      case Failure(e) => Failure(e)
      case Success(v) =>
        match CollectAll(results[1..])
        case Failure(e) => Failure(e)
        case Success(vs) => Success([v] + vs)
  }

  /** The cells covering a GeoJSON Feature or FeatureCollection. A collection
      is converted member by member; anything else must be a Feature whose
      geometry is a Polygon or a MultiPolygon. */
  function FeatureToH3Set<C(==), V>(h3: Primitives<C>, obj: Object<C, V>, res: int, ensureOutput: bool): (r: Result<seq<C>, Error>)
    ensures r.Success? ==> NoDuplicates(r.value)
    // the envelope type is checked before the geometry
    ensures obj.kind.OtherType? ==> r == Failure(UnhandledType(obj.kind.name))
    ensures obj.kind.Feature? && !HasPolygons(obj.geometry) ==>
              r == Failure(UnhandledGeometryType(GeometryTypeName(obj.geometry)))
    ensures obj.kind.Feature? && HasPolygons(obj.geometry) ==>
              (r.Success? <==> forall i :: 0 <= i < |AsPolygons(obj.geometry.value)| ==>
                                 !FallbackReadsMissingRing(h3, AsPolygons(obj.geometry.value)[i], res, ensureOutput))
    ensures obj.kind.Feature? && HasPolygons(obj.geometry) && r.Failure? ==> r.error == NoOuterRing
    ensures obj.kind.FeatureCollection? && obj.features.Absent? ==> r == Failure(NoFeaturesFound)
    decreases obj, 1
  {
    if obj.kind.FeatureCollection? then FeatureCollectionToH3Set(h3, obj, res)
    else if !obj.kind.Feature? then Failure(UnhandledType(obj.kind.name))
    else match obj.geometry
      case Some(g) =>
        if g.Polygon? || g.MultiPolygon? then
          PolygonsToH3Set(h3, AsPolygons(g), res, ensureOutput)
        else Failure(UnhandledGeometryType(GeometryTypeName(obj.geometry)))
      case None => Failure(UnhandledGeometryType(GeometryTypeName(obj.geometry)))
  }

  /** The cells covering every member of a collection, merged. Members are
      converted without the non-empty-output option. */
  function FeatureCollectionToH3Set<C(==), V>(h3: Primitives<C>, fc: Object<C, V>, res: int): (r: Result<seq<C>, Error>)
    ensures r.Success? ==> NoDuplicates(r.value)
    ensures fc.features.Absent? ==> r == Failure(NoFeaturesFound)
    decreases fc, 0
  {
    match fc.features
    case Absent => Failure(NoFeaturesFound)
    case Members(fs) =>
      var results := seq(|fs|, i requires 0 <= i < |fs| => FeatureToH3Set(h3, fs[i], res, false));
      match CollectAll(results)
      case Failure(e) => Failure(e)
      case Success(lists) => Success(Flatten(lists))
  }

  // ---------------------------------------------------------------------
  // Reverse direction: cells to GeoJSON

  /** The property bag actually stored: the given one, or `{}` when omitted. */
  function PropertiesOrEmpty<V>(properties: Option<Properties<V>>): (bag: Properties<V>)
    ensures properties.Some? ==> bag == properties.value
    ensures properties.None? ==> bag == map[]
  {
    properties.GetOr(map[])
  }

  /** One cell as a Polygon Feature whose only ring is the cell boundary and
      whose id is the cell. */
  function H3ToFeature<C, V>(h3: Primitives<C>, cell: C, properties: Option<Properties<V>>): (f: Object<C, V>)
    ensures f.kind.Feature? && f.id == Some(cell) && f.features.Absent?
    ensures f.geometry == Some(Polygon([h3.boundary(cell)]))
    ensures f.properties == Some(PropertiesOrEmpty(properties))
  {
    Object(Feature, Some(cell), Some(PropertiesOrEmpty(properties)), Some(Polygon([h3.boundary(cell)])), Absent)
  }

  /** The outline geometry of a polygon list: several polygons stay a
      MultiPolygon, a single one is unwrapped to a Polygon, and none is a
      Polygon without rings. */
  function CollapsePolygons(polygons: seq<PolygonCoords>): (g: Geometry)
    ensures g.Polygon? || g.MultiPolygon?
    ensures g.MultiPolygon? <==> |polygons| > 1
    ensures g.MultiPolygon? ==> |g.polygons| >= 2
  {
    if |polygons| > 1 then MultiPolygon(polygons)
    else if |polygons| == 1 then Polygon(polygons[0])
    else Polygon([])
  }

  /** A cell set as one Feature outlining the set. */
  function H3SetToFeature<C, V>(h3: Primitives<C>, hexagons: seq<C>, properties: Option<Properties<V>>): (f: Object<C, V>)
    ensures f.kind.Feature? && f.id.None? && f.features.Absent?
    ensures f.properties == Some(PropertiesOrEmpty(properties))
    ensures f.geometry.Some? && (f.geometry.value.Polygon? || f.geometry.value.MultiPolygon?)
    ensures f.geometry.value.MultiPolygon? ==> |f.geometry.value.polygons| >= 2
  {
    var polygons := h3.setToMultiPolygon(hexagons);
    Object(Feature, None, Some(PropertiesOrEmpty(properties)), Some(CollapsePolygons(polygons)), Absent)
  }

  /** A cell set as one MultiPolygon Feature with one single-ring polygon per
      cell, in input order. */
  function H3SetToMultiPolygonFeature<C, V>(h3: Primitives<C>, hexagons: seq<C>, properties: Option<Properties<V>>): (f: Object<C, V>)
    ensures f.kind.Feature? && f.id.None? && f.features.Absent?
    ensures f.properties == Some(PropertiesOrEmpty(properties))
    ensures f.geometry.Some? && f.geometry.value.MultiPolygon?
    ensures |f.geometry.value.polygons| == |hexagons|
    ensures forall i :: 0 <= i < |hexagons| ==> f.geometry.value.polygons[i] == [h3.boundary(hexagons[i])]
  {
    var coordinates := seq(|hexagons|, i requires 0 <= i < |hexagons| => [h3.boundary(hexagons[i])]);
    Object(Feature, None, Some(PropertiesOrEmpty(properties)), Some(MultiPolygon(coordinates)), Absent)
  }

  /** The properties for one cell: `{}` without a lookup function, otherwise
      whatever the lookup returns (left to `H3ToFeature`'s default when it
      returns nothing). */
  function LookupProperties<C, V>(getProperties: Option<C -> Option<Properties<V>>>, cell: C): (props: Option<Properties<V>>)
    ensures getProperties.None? ==> props == Some(map[])
  {
    match getProperties
    case None => Some(map[])
    case Some(lookup) => lookup(cell)
  }

  /** A cell set as a FeatureCollection with one single-cell Polygon Feature
      per cell, in input order. */
  function H3SetToFeatureCollection<C, V>(h3: Primitives<C>, hexagons: seq<C>, getProperties: Option<C -> Option<Properties<V>>>): (fc: Object<C, V>)
    ensures fc.kind.FeatureCollection? && fc.features.Members?
    ensures |fc.features.items| == |hexagons|
    ensures forall i :: 0 <= i < |hexagons| ==>
              fc.features.items[i] == H3ToFeature(h3, hexagons[i], LookupProperties(getProperties, hexagons[i]))
  {
    var features := seq(|hexagons|, i requires 0 <= i < |hexagons| =>
                          H3ToFeature(h3, hexagons[i], LookupProperties(getProperties, hexagons[i])));
    Object(FeatureCollection, None, None, None, Members(features))
  }
}
