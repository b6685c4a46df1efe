/** The geometry helpers of geo_util.py: validity partition, polygon repair,
    the polygon-type test that decides whether repair runs, and reprojection
    by EPSG code. */
module GeoUtil {
  import opened Wrappers
  import opened Seqs
  import opened Geo

  /** The rows with their `is_valid` column set from their geometry. */
  function Annotated(lib: GeoLib, rows: seq<Feature>): (r: seq<Feature>)
    ensures |r| == |rows|
    decreases |rows|
  {
    if rows == [] then []
    else [rows[0].(isValid := Some(lib.isValid(rows[0].geometry)))] + Annotated(lib, rows[1..])
  }

  /** Row `i` of the result is row `i` of the input with its `is_valid`
      column set from its geometry and nothing else changed. */
  lemma {:induction false} AnnotatedPointwise(lib: GeoLib, rows: seq<Feature>)
    ensures var r := Annotated(lib, rows);
            forall i :: 0 <= i < |r| ==> r[i] == rows[i].(isValid := Some(lib.isValid(rows[i].geometry)))
    decreases |rows|
  {
    if rows != [] {
      AnnotatedPointwise(lib, rows[1..]);
    }
  }

  /** The row mask `data_frame["is_valid"]`. */
  predicate MarkedValid(f: Feature)
  {
    f.isValid == Some(true)
  }

  /** The row mask `data_frame["is_valid"] == False`. */
  predicate MarkedInvalid(f: Feature)
  {
    f.isValid == Some(false)
  }

  /** `check_geometries`: adds the `is_valid` column to the frame in place and
      returns the valid rows and the invalid rows as two new frames. */
  method CheckGeometries(lib: GeoLib, dataFrame: DataFrame) returns (validValues: Frame, nonValidValues: Frame)
    modifies dataFrame
    ensures dataFrame.rows == Annotated(lib, old(dataFrame.rows))
    ensures dataFrame.crs == old(dataFrame.crs)
    ensures validValues == Frame(Filter(dataFrame.rows, MarkedValid), dataFrame.crs)
    ensures nonValidValues == Frame(Filter(dataFrame.rows, MarkedInvalid), dataFrame.crs)
  {
    dataFrame.rows := Annotated(lib, dataFrame.rows);
    validValues := Frame(Filter(dataFrame.rows, MarkedValid), dataFrame.crs);
    nonValidValues := Frame(Filter(dataFrame.rows, MarkedInvalid), dataFrame.crs);
  }

  /** Every annotated row carries the validity flag of its own geometry. */
  lemma AnnotatedFlagged(lib: GeoLib, rows: seq<Feature>)
    ensures forall f :: f in Annotated(lib, rows) ==> f.isValid == Some(lib.isValid(f.geometry))
  {
    var annotated := Annotated(lib, rows);
    AnnotatedPointwise(lib, rows);
    forall f | f in annotated ensures f.isValid == Some(lib.isValid(f.geometry)) {
      var i :| 0 <= i < |annotated| && annotated[i] == f;
    }
  }

  /** No row is lost or duplicated by `check_geometries`: together its two
      outputs hold exactly the annotated rows. */
  lemma CheckGeometriesPartitions(lib: GeoLib, rows: seq<Feature>)
    ensures var annotated := Annotated(lib, rows);
            var valid := Filter(annotated, MarkedValid);
            var invalid := Filter(annotated, MarkedInvalid);
            && multiset(valid) + multiset(invalid) == multiset(annotated)
            && |valid| + |invalid| == |rows|
  {
    var annotated := Annotated(lib, rows);
    AnnotatedFlagged(lib, rows);
    forall f | f in annotated ensures MarkedValid(f) != MarkedInvalid(f) {
      assert f.isValid == Some(lib.isValid(f.geometry));
      if lib.isValid(f.geometry) {
        assert MarkedValid(f) && !MarkedInvalid(f);
      } else {
        assert !MarkedValid(f) && MarkedInvalid(f);
      }
    }
    FilterPartition(annotated, MarkedValid, MarkedInvalid);
    assert |multiset(annotated)| == |rows|;
  }

  /** Row `i` lands in the valid output exactly when its geometry is valid,
      and in the invalid output exactly when it is not. */
  lemma CheckGeometriesSorts(lib: GeoLib, rows: seq<Feature>, i: int)
    requires 0 <= i < |rows|
    ensures var annotated := Annotated(lib, rows);
            && (annotated[i] in Filter(annotated, MarkedValid) <==> lib.isValid(rows[i].geometry))
            && (annotated[i] in Filter(annotated, MarkedInvalid) <==> !lib.isValid(rows[i].geometry))
  {
    var annotated := Annotated(lib, rows);
    AnnotatedPointwise(lib, rows);
    AnnotatedFlagged(lib, rows);
    FilterMembers(annotated, MarkedValid);
    FilterMembers(annotated, MarkedInvalid);
    assert annotated[i] in annotated;
  }

  /** `check_geometries` keeps the source order in both outputs: the outputs
      for a concatenation are the concatenated outputs. */
  lemma CheckGeometriesKeepsOrder(lib: GeoLib, a: seq<Feature>, b: seq<Feature>)
    ensures Filter(Annotated(lib, a + b), MarkedValid)
         == Filter(Annotated(lib, a), MarkedValid) + Filter(Annotated(lib, b), MarkedValid)
    ensures Filter(Annotated(lib, a + b), MarkedInvalid)
         == Filter(Annotated(lib, a), MarkedInvalid) + Filter(Annotated(lib, b), MarkedInvalid)
  {
    AnnotatedAppend(lib, a, b);
    FilterAppend(Annotated(lib, a), Annotated(lib, b), MarkedValid);
    FilterAppend(Annotated(lib, a), Annotated(lib, b), MarkedInvalid);
  }

  /** Annotation is row by row: annotating a concatenation concatenates the
      annotated parts. */
  lemma AnnotatedAppend(lib: GeoLib, a: seq<Feature>, b: seq<Feature>)
    ensures Annotated(lib, a + b) == Annotated(lib, a) + Annotated(lib, b)
  {
    var lhs := Annotated(lib, a + b);
    var rhs := Annotated(lib, a) + Annotated(lib, b);
    AnnotatedPointwise(lib, a + b);
    AnnotatedPointwise(lib, a);
    AnnotatedPointwise(lib, b);
    assert |lhs| == |rhs|;
    forall i | 0 <= i < |lhs| ensures lhs[i] == rhs[i] {
      if i < |a| {
        assert (a + b)[i] == a[i];
      } else {
        assert (a + b)[i] == b[i - |a|];
      }
    }
  }

  /** The rows with every geometry replaced by its zero-width buffer. */
  function Buffered(lib: GeoLib, rows: seq<Feature>): (r: seq<Feature>)
    ensures |r| == |rows|
    decreases |rows|
  {
    if rows == [] then []
    else [rows[0].(geometry := lib.buffer(rows[0].geometry))] + Buffered(lib, rows[1..])
  }

  /** Row `i` of the result is row `i` of the input with its geometry
      buffered and nothing else changed. */
  lemma {:induction false} BufferedPointwise(lib: GeoLib, rows: seq<Feature>)
    ensures var r := Buffered(lib, rows);
            forall i :: 0 <= i < |r| ==> r[i] == rows[i].(geometry := lib.buffer(rows[i].geometry))
    decreases |rows|
  {
    if rows != [] {
      BufferedPointwise(lib, rows[1..]);
    }
  }

  /** `fix_polygons`: replaces the geometry column in place by its
      `buffer(0.0)` image and returns the same frame. */
  method FixPolygons(lib: GeoLib, dataFrame: DataFrame) returns (r: DataFrame)
    modifies dataFrame
    ensures r == dataFrame
    ensures dataFrame.rows == Buffered(lib, old(dataFrame.rows))
    ensures |dataFrame.rows| == |old(dataFrame.rows)|
    ensures forall i :: 0 <= i < |dataFrame.rows| ==>
              dataFrame.rows[i].geometry == lib.buffer(old(dataFrame.rows)[i].geometry)
              && dataFrame.rows[i].isValid == old(dataFrame.rows)[i].isValid
    ensures dataFrame.crs == old(dataFrame.crs)
  {
    BufferedPointwise(lib, dataFrame.rows);
    dataFrame.rows := Buffered(lib, dataFrame.rows);
    r := dataFrame;
  }

  /** `is_polygon_feature_set`: looks at the geometry at row label 0 only (the
      first row of a frame just read); None stands for the KeyError an empty
      frame raises. */
  function IsPolygonFeatureSet(frame: Frame, includeMultipolygons: bool): (r: Option<bool>)
    ensures r.None? <==> frame.rows == []
    ensures r == Some(true) <==>
              && frame.rows != []
              && (|| frame.rows[0].geometry.kind == Polygon
                  || (includeMultipolygons && frame.rows[0].geometry.kind == MultiPolygon))
  {
    if frame.rows == [] then None
    else if includeMultipolygons && frame.rows[0].geometry.kind == MultiPolygon then Some(true)
    else Some(frame.rows[0].geometry.kind == Polygon)
  }

  /** The polygon test reads nothing but the geometry type at row 0. */
  lemma PolygonTestReadsRowZero(a: Frame, b: Frame, includeMultipolygons: bool)
    requires a.rows != [] && b.rows != []
    requires a.rows[0].geometry.kind == b.rows[0].geometry.kind
    ensures IsPolygonFeatureSet(a, includeMultipolygons) == IsPolygonFeatureSet(b, includeMultipolygons)
  {
  }

  /** The flag matters for MultiPolygons only: a Polygon passes either way,
      a MultiPolygon passes exactly when the flag is set. */
  lemma MultipolygonFlag(frame: Frame)
    requires frame.rows != []
    ensures frame.rows[0].geometry.kind == Polygon ==>
              IsPolygonFeatureSet(frame, true) == IsPolygonFeatureSet(frame, false) == Some(true)
    ensures frame.rows[0].geometry.kind == MultiPolygon ==>
              IsPolygonFeatureSet(frame, true) == Some(true) && IsPolygonFeatureSet(frame, false) == Some(false)
  {
  }

  /** `project_data_frame`: reprojects to the CRS registered under
      `epsgCode`; None stands for the error an unknown code raises. */
  function ProjectDataFrame(lib: GeoLib, frame: Frame, epsgCode: string): (r: Option<Frame>)
    ensures r.Some? <==> lib.crsFromEpsg(epsgCode).Some?
    ensures r.Some? ==> r.value.crs == lib.crsFromEpsg(epsgCode).value
                        && |r.value.rows| == |frame.rows|
  {
    match lib.crsFromEpsg(epsgCode)
    case None => None
    case Some(crs) => Some(Reproject(lib, frame, crs))
  }

  /** What the clipper does with a frame it has just read: repair the
      geometries when asked to, then split the rows into valid and invalid
      (the two frames `check_geometries` returns). */
  function Prepared(lib: GeoLib, frame: Frame, repair: bool): (Frame, Frame)
  {
    var rows := Annotated(lib, if repair then Buffered(lib, frame.rows) else frame.rows);
    (Frame(Filter(rows, MarkedValid), frame.crs), Frame(Filter(rows, MarkedInvalid), frame.crs))
  }

  /** Both parts of a prepared frame keep its CRS; the valid part holds only
      valid geometries and the invalid part only invalid ones. */
  lemma PreparedParts(lib: GeoLib, frame: Frame, repair: bool)
    ensures var (valid, invalid) := Prepared(lib, frame, repair);
            && valid.crs == frame.crs && invalid.crs == frame.crs
            && (forall f :: f in valid.rows ==> lib.isValid(f.geometry) && f.isValid == Some(true))
            && (forall f :: f in invalid.rows ==> !lib.isValid(f.geometry) && f.isValid == Some(false))
            && |valid.rows| + |invalid.rows| == |frame.rows|
  {
    var rows := if repair then Buffered(lib, frame.rows) else frame.rows;
    AnnotatedFlagged(lib, rows);
    FilterMembers(Annotated(lib, rows), MarkedValid);
    FilterMembers(Annotated(lib, rows), MarkedInvalid);
    CheckGeometriesPartitions(lib, rows);
  }
}
