/** The GeoJSON objects read and produced by the converter, and the grid
    primitives it delegates every geometric computation to. */
module GeoJson {
  import opened Results

  /** A coordinate pair in GeoJSON order: longitude first. */
  datatype Position = Position(lng: real, lat: real)

  /** A closed loop of positions: an outer boundary or a hole. */
  type Ring = seq<Position>

  /** The coordinates of one polygon: outer ring first, then holes. */
  type PolygonCoords = seq<Ring>

  /** A `type` string other than the two envelope types. */
  type ForeignTypeName = s: string | s != "Feature" && s != "FeatureCollection"

  /** A geometry `type` string other than the two supported ones. */
  type ForeignGeometryName = s: string | s != "Polygon" && s != "MultiPolygon"

  /** The textual form of a missing value inside an error message. */
  const Undefined: string := "undefined"

  /** The `geometry` member, tagged by its `type` field. */
  datatype Geometry =
    | Polygon(rings: PolygonCoords)
    | MultiPolygon(polygons: seq<PolygonCoords>)
    | OtherGeometry(typeName: ForeignGeometryName)

  /** The `type` field of a GeoJSON object. A missing field is
      `OtherType("undefined")`. */
  datatype ObjectType = Feature | FeatureCollection | OtherType(name: ForeignTypeName)

  /** A property bag. */
  type Properties<V> = map<string, V>

  /** A GeoJSON object. Members the converter never reads or writes (`bbox`,
      foreign members) are not represented; absent members are `None`. */
  datatype Object<C, V> = Object(
    kind: ObjectType,
    id: Option<C>,
    properties: Option<Properties<V>>,
    geometry: Option<Geometry>,
    features: MemberList<C, V>)

  /** The `features` member of a collection: absent, or an array of objects. */
  datatype MemberList<C, V> = Absent | Members(items: seq<Object<C, V>>)

  /** The errors the converter throws, carrying the value interpolated into
      the message. */
  datatype Error =
    | UnhandledType(typeName: string)
    | UnhandledGeometryType(geometryType: string)
    | NoFeaturesFound
    // the TypeError raised when the centroid fallback reads the outer ring
    // of a polygon that has no rings
    | NoOuterRing

  /** The `type` string of an optional geometry, as it is printed in an error
      message. */
  function GeometryTypeName(g: Option<Geometry>): (name: string)
    ensures g.None? ==> name == Undefined
    ensures g.Some? && g.value.OtherGeometry? ==> name == g.value.typeName
  {
    match g
    case None => Undefined
    case Some(Polygon(_)) => "Polygon"
    case Some(MultiPolygon(_)) => "MultiPolygon"
    case Some(OtherGeometry(name)) => name
  }

  /** The collaborators the converter calls but does not implement. All of
      them are deterministic; nothing is assumed about their results beyond
      their types.
      - polyfill: the cells whose centres lie inside a polygon, at a resolution
      - geoToH3: the cell containing a point, called with its arguments in the
        order the converter passes them (first, second, resolution)
      - boundary: the boundary ring of one cell, in GeoJSON order
      - setToMultiPolygon: the outlines of a set of cells, as polygons
      - centroid: the vertex mean of a polygon's outer ring (computed in
        floating point by the converter's private helper) */
  datatype Primitives<!C> = Primitives(
    polyfill: (PolygonCoords, int) -> seq<C>,
    geoToH3: (real, real, int) -> C,
    boundary: C -> Ring,
    setToMultiPolygon: seq<C> -> seq<PolygonCoords>,
    centroid: PolygonCoords -> Position)
}
