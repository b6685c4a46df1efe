/** The geometry layer the clipper stands on: geometries, coordinate
    reference systems, feature collections (GeoDataFrames), the file system
    that holds shapefiles, and the operations of the geometry, clipping and
    projection libraries, which are left uninterpreted. */
module Geo {
  import opened Wrappers
  import opened Seqs

  /** The geometry types a shapefile feature can have. */
  datatype GeomKind =
    | Point | MultiPoint
    | LineString | MultiLineString
    | Polygon | MultiPolygon
    | GeometryCollection

  /** A geometry: its type and an opaque token standing for its coordinates. */
  datatype Geometry = Geometry(kind: GeomKind, shape: nat)

  /** A coordinate reference system, identified by its definition string. */
  datatype Crs = Crs(srs: string)

  /** `str(crs)`: the cache key of a CRS. Keys are canonical: a key names
      exactly one CRS. */
  function Key(crs: Crs): (k: string)
    ensures Crs(k) == crs
  {
    crs.srs
  }

  /** One row of a feature collection: its geometry and, once
      `check_geometries` has run, its `is_valid` column. */
  datatype Feature = Feature(geometry: Geometry, isValid: Option<bool>)

  /** A feature collection: rows in order, all in one CRS. */
  datatype Frame = Frame(rows: seq<Feature>, crs: Crs)

  /** The library operations the clipper calls, as uninterpreted functions:
      shapely's `is_valid`, `is_empty`, `buffer(0.0)`, `intersects` and
      `unary_union`, pyproj's point transformation behind `to_crs`,
      earthpy's `clip_shp`, and `CRS.from_epsg(code).to_wkt()` (None when the
      code is unknown). */
  datatype GeoLib = GeoLib(
    isValid: Geometry -> bool,
    isEmpty: Geometry -> bool,
    buffer: Geometry -> Geometry,
    intersects: (Geometry, Geometry) -> bool,
    unaryUnion: seq<Geometry> -> Geometry,
    transform: (Geometry, Crs, Crs) -> Geometry,
    clipShp: (seq<Feature>, seq<Feature>) -> seq<Feature>,
    crsFromEpsg: string -> Option<Crs>)

  /** The rows with every geometry carried from `source` to `target`,
      attributes kept. */
  function TransformRows(lib: GeoLib, rows: seq<Feature>, source: Crs, target: Crs): (r: seq<Feature>)
    ensures |r| == |rows|
    decreases |rows|
  {
    if rows == [] then []
    else [rows[0].(geometry := lib.transform(rows[0].geometry, source, target))]
         + TransformRows(lib, rows[1..], source, target)
  }

  /** Row `i` of the result is row `i` of the input with its geometry
      transformed and nothing else changed. */
  lemma {:induction false} TransformRowsPointwise(lib: GeoLib, rows: seq<Feature>, source: Crs, target: Crs)
    ensures var r := TransformRows(lib, rows, source, target);
            forall i :: 0 <= i < |r| ==>
              r[i] == rows[i].(geometry := lib.transform(rows[i].geometry, source, target))
    decreases |rows|
  {
    if rows != [] {
      TransformRowsPointwise(lib, rows[1..], source, target);
    }
  }

  /** `frame.to_crs(target)`: every geometry transformed, attributes kept,
      the CRS replaced. */
  function Reproject(lib: GeoLib, frame: Frame, target: Crs): (r: Frame)
    ensures r.crs == target
    ensures |r.rows| == |frame.rows|
  {
    Frame(TransformRows(lib, frame.rows, frame.crs, target), target)
  }

  /** The geometry column of `rows`. */
  function Geometries(rows: seq<Feature>): (r: seq<Geometry>)
    ensures |r| == |rows|
    decreases |rows|
  {
    if rows == [] then [] else [rows[0].geometry] + Geometries(rows[1..])
  }

  /** `frame.unary_union`: one geometry covering the whole collection. */
  function UnaryUnion(lib: GeoLib, frame: Frame): Geometry
  {
    lib.unaryUnion(Geometries(frame.rows))
  }

  /** `any(rows.intersects(g))`. */
  function AnyIntersects(lib: GeoLib, rows: seq<Feature>, g: Geometry): (b: bool)
    decreases |rows|
  {
    if rows == [] then false
    else lib.intersects(rows[0].geometry, g) || AnyIntersects(lib, rows[1..], g)
  }

  /** The test holds exactly when some row's geometry intersects `g`. */
  lemma {:induction false} AnyIntersectsSome(lib: GeoLib, rows: seq<Feature>, g: Geometry)
    ensures AnyIntersects(lib, rows, g) <==> exists i :: 0 <= i < |rows| && lib.intersects(rows[i].geometry, g)
    decreases |rows|
  {
    if rows != [] {
      AnyIntersectsSome(lib, rows[1..], g);
      if !lib.intersects(rows[0].geometry, g) && exists i :: 0 <= i < |rows| && lib.intersects(rows[i].geometry, g) {
        var i :| 0 <= i < |rows| && lib.intersects(rows[i].geometry, g);
        assert rows[1..][i - 1] == rows[i];
      }
    }
  }

  /** The row mask `~rows.is_empty`. */
  function NonEmptyMask(lib: GeoLib): Feature -> bool
  {
    (f: Feature) => !lib.isEmpty(f.geometry)
  }

  /** `rows[~rows.is_empty]`: the rows with a non-empty geometry, in order. */
  function NonEmptyRows(lib: GeoLib, rows: seq<Feature>): (r: seq<Feature>)
    ensures |r| <= |rows|
  {
    Filter(rows, NonEmptyMask(lib))
  }

  /** A row is kept exactly when it is in the input and its geometry is not
      empty. */
  lemma NonEmptyRowsMembers(lib: GeoLib, rows: seq<Feature>)
    ensures forall f :: f in NonEmptyRows(lib, rows) <==> f in rows && !lib.isEmpty(f.geometry)
  {
    FilterMembers(rows, NonEmptyMask(lib));
  }

  /** Dropping empty geometries keeps the order of the rows: the rows kept
      from a concatenation are the rows kept from each part, concatenated. */
  lemma NonEmptyRowsKeepsOrder(lib: GeoLib, a: seq<Feature>, b: seq<Feature>)
    ensures NonEmptyRows(lib, a + b) == NonEmptyRows(lib, a) + NonEmptyRows(lib, b)
  {
    FilterAppend(a, b, NonEmptyMask(lib));
  }

  /** Clip `frame` against `extent` as `__clip_data` does after choosing the
      extent: `clip_shp`, then the input's CRS forced onto the result, then
      empty geometries dropped. */
  function ClipTo(lib: GeoLib, frame: Frame, extent: Frame): (r: Frame)
    ensures r.crs == frame.crs
  {
    Frame(NonEmptyRows(lib, lib.clipShp(frame.rows, extent.rows)), frame.crs)
  }

  /** The clipped rows are exactly the non-empty rows `clip_shp` returns. */
  lemma ClipToDropsEmpty(lib: GeoLib, frame: Frame, extent: Frame)
    ensures var r := ClipTo(lib, frame, extent);
            && (forall f :: f in r.rows ==> !lib.isEmpty(f.geometry))
            && (forall f :: f in r.rows <==> f in lib.clipShp(frame.rows, extent.rows) && !lib.isEmpty(f.geometry))
  {
    NonEmptyRowsMembers(lib, lib.clipShp(frame.rows, extent.rows));
  }

  /** A GeoDataFrame object, for the helpers that change one in place. */
  class DataFrame {
    var rows: seq<Feature>
    var crs: Crs

    constructor (frame: Frame)
      ensures rows == frame.rows && crs == frame.crs
    {
      rows := frame.rows;
      crs := frame.crs;
    }

    /** The collection this object currently holds. */
    function Value(): Frame
      reads this
    {
      Frame(rows, crs)
    }
  }

  /** The shapefiles on disk, by path (`gpd.read_file` and `to_file`). */
  class FileSystem {
    var files: map<string, Frame>

    /** `gpd.read_file(path)`: None when there is no readable file there. */
    method ReadFile(path: string) returns (r: Option<Frame>)
      ensures r.Some? <==> path in files
      ensures r.Some? ==> r.value == files[path]
    {
      r := if path in files then Some(files[path]) else None;
    }

    /** `frame.to_file(path)`: overwrites whatever was at `path`. */
    method WriteFile(path: string, frame: Frame)
      modifies this
      ensures files == old(files)[path := frame]
    {
      files := files[path := frame];
    }
  }
}
