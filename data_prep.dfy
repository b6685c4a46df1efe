/** data_prep.py: the earlier clip engine. It has no extent cache: every
    file is clipped against the master extent as read. Its skip messages
    tell "no overlap" from "nothing left after clipping", and
    `clip_and_project` logs the full output path. The helpers it shares
    with geo_util.py (`check_geometries`, `project_data_frame`, the timer,
    the log entry, the output path) are the ones modelled there. */
module DataPrep {
  import opened Wrappers
  import opened Paths
  import opened Geo
  import opened GeoUtil
  import opened ClipLog
  import C = Clipper

  /** A geometry compared with a string: a geometry object is never equal
      to a `str`, so the comparison is false whatever the geometry. */
  function GeometryEqualsText(g: Geometry, text: string): bool
  {
    false
  }

  /** `is_polygon_feature_set` as written: compares the geometry at row 0
      itself, not its type name, with "Polygon"; None stands for the
      KeyError of an empty frame. */
  function IsPolygonFeatureSetAsWritten(frame: Frame): Option<bool>
  {
    if frame.rows == [] then None
    else Some(GeometryEqualsText(frame.rows[0].geometry, "Polygon"))
  }

  /** As written, the test says "not polygons" for every frame it can
      read, so `fix_polygons` never runs. */
  lemma AsWrittenNeverRepairs(frame: Frame)
    requires frame.rows != []
    ensures IsPolygonFeatureSetAsWritten(frame) == Some(false)
  {
  }

  /** A frame whose row 0 is a Polygon: the test as written rejects it,
      the intended test (the geometry type compared, as geo_util.py does)
      accepts it. */
  lemma PolygonFrameNotRepaired()
    ensures var frame := Frame([Feature(Geometry(Polygon, 0), None)], Crs("EPSG:2961"));
            && IsPolygonFeatureSetAsWritten(frame) == Some(false)
            && IsPolygonFeatureSet(frame, false) == Some(true)
  {
  }

  /** The intended test decides repair from the type at row 0 alone: a
      Polygon is repaired, anything else (a MultiPolygon included) is not. */
  lemma IntendedRepairDecision(frame: Frame)
    requires frame.rows != []
    ensures IsPolygonFeatureSet(frame, false) == Some(frame.rows[0].geometry.kind == Polygon)
  {
  }

  /** The two tests differ on Polygon frames only: when row 0 is not a
      Polygon, the corrected test gives what the test as written gives. */
  lemma CorrectedTestAgreesOffPolygons(frame: Frame)
    requires frame.rows == [] || frame.rows[0].geometry.kind != Polygon
    ensures IsPolygonFeatureSet(frame, false) == IsPolygonFeatureSetAsWritten(frame)
  {
  }

  /** `fix_polygons` of data_prep.py: replaces the geometry column in place
      and returns nothing. */
  method FixPolygonsInPlace(lib: GeoLib, dataFrame: DataFrame)
    modifies dataFrame
    ensures dataFrame.rows == Buffered(lib, old(dataFrame.rows))
    ensures dataFrame.crs == old(dataFrame.crs)
  {
    dataFrame.rows := Buffered(lib, dataFrame.rows);
  }

  function NoOverlapMessage(name: string): string
  {
    name + " does not overlap with clipping extent. Ignored."
  }

  function NoFeaturesMessage(name: string): string
  {
    "No features of " + name + " within clipping extent."
  }

  /** `clip_and_project` here logs the full output path. */
  function ProjectedPathMessage(outputFilePath: string): string
  {
    outputFilePath + " projected and saved."
  }

  /** The second half of `__clip`: skip unless some valid row intersects the
      union of the master extent; otherwise clip against the master extent
      and skip when nothing is left. */
  function Decide(lib: GeoLib, master: Frame, valid: Frame, invalid: Frame, name: string): C.Decision
  {
    if !AnyIntersects(lib, valid.rows, UnaryUnion(lib, master)) then
      C.Decision(None, invalid, NoOverlapMessage(name))
    else
      var clipped := ClipTo(lib, valid, master);
      if |clipped.rows| == 0 then C.Decision(None, invalid, NoFeaturesMessage(name))
      else C.Decision(Some(clipped), invalid, C.ClippedMessage(name))
  }

  /** The three outcomes of a decision. No overlap: nothing clipped, the
      "does not overlap" message. Overlap but nothing left: the "No features
      of" message. Overlap and something left: the clip of the valid rows
      against the master extent itself, with the "successfully clipped."
      message; such a clip is non-empty, in the valid rows' CRS and without
      empty geometries. The invalid rows are reported in every case. */
  lemma DecideOutcomes(lib: GeoLib, master: Frame, valid: Frame, invalid: Frame, name: string)
    ensures var d := Decide(lib, master, valid, invalid, name);
            && d.ignored == invalid
            && (!AnyIntersects(lib, valid.rows, UnaryUnion(lib, master)) ==>
                  d.clipped.None? && d.message == NoOverlapMessage(name))
            && (AnyIntersects(lib, valid.rows, UnaryUnion(lib, master)) && ClipTo(lib, valid, master).rows == [] ==>
                  d.clipped.None? && d.message == NoFeaturesMessage(name))
            && (AnyIntersects(lib, valid.rows, UnaryUnion(lib, master)) && ClipTo(lib, valid, master).rows != [] ==>
                  d.clipped == Some(ClipTo(lib, valid, master)) && d.message == C.ClippedMessage(name))
            && (d.clipped.Some? ==>
                  && d.clipped.value == ClipTo(lib, valid, master)
                  && d.clipped.value.rows != []
                  && d.clipped.value.crs == valid.crs
                  && (forall f :: f in d.clipped.value.rows ==> !lib.isEmpty(f.geometry))
                  && d.message == C.ClippedMessage(name))
  {
    ClipToDropsEmpty(lib, valid, master);
  }

  /** `__clip`: read the file, repair it when its row 0 is a Polygon (the
      intended test), split valid from invalid rows, and decide. */
  function ClipFile(lib: GeoLib, master: Frame, files: map<string, Frame>, path: string): Result<C.Decision, C.ClipError>
  {
    if path !in files then Failure(C.UnreadableFile(path))
    else
      var isPolygon := IsPolygonFeatureSet(files[path], false);
      if isPolygon.None? then Failure(C.NoRowZero(path))
      else
        var (valid, invalid) := Prepared(lib, files[path], isPolygon.value);
        Success(Decide(lib, master, valid, invalid, Basename(path)))
  }

  /** What a call can change: the log and the files on disk. */
  datatype PrepState = PrepState(log: seq<LogEntry>, files: map<string, Frame>)

  /** The clip half of one call: `__clip`, and on success its outcome
      logged. */
  function ClipStep(lib: GeoLib, master: Frame, st: PrepState, path: string, clock: Clock): (Result<C.Decision, C.ClipError>, PrepState)
  {
    var result := ClipFile(lib, master, st.files, path);
    if result.Failure? then (result, st)
    else (result, PrepState(st.log + [C.ClipEntry(result.value, clock)], st.files))
  }

  /** The save half of one call: nothing when nothing was clipped;
      otherwise reproject if asked, write the result to `out` and log the
      save with the full output path. */
  function SaveStep(lib: GeoLib, st: PrepState, out: string, clipped: Option<Frame>, clock: Clock, mode: C.Mode): (Option<C.ClipError>, PrepState)
  {
    if clipped.None? then (None, st)
    else if mode.ClipOnly? then
      (None, PrepState(st.log + [C.SaveEntry(C.SavedMessage(out), clock)], st.files[out := clipped.value]))
    else
      var projected := ProjectDataFrame(lib, clipped.value, mode.epsgCode);
      if projected.None? then (Some(C.UnknownCrs(mode.epsgCode)), st)
      else (None, PrepState(st.log + [C.SaveEntry(ProjectedPathMessage(out), clock)], st.files[out := projected.value]))
  }

  /** One `clip` (mode ClipOnly) or `clip_and_project` call. */
  function FileStep(lib: GeoLib, master: Frame, outputPath: Option<string>, postfix: string,
                    st: PrepState, path: string, clock: Clock, mode: C.Mode): (Option<C.ClipError>, PrepState)
  {
    var (result, logged) := ClipStep(lib, master, st, path, clock);
    if result.Failure? then (Some(result.error), st)
    else SaveStep(lib, logged, ClippedOutputFilePath(path, outputPath, postfix), result.value.clipped, clock, mode)
  }

  /** The clip half leaves the files alone, logs exactly one entry when it
      succeeds and changes nothing when it fails; it fails exactly when the
      file is missing or empty. */
  lemma ClipStepEffect(lib: GeoLib, master: Frame, st: PrepState, path: string, clock: Clock)
    ensures var (r, st') := ClipStep(lib, master, st, path, clock);
            && st'.files == st.files
            && (r.Failure? <==> path !in st.files || st.files[path].rows == [])
            && (r.Failure? ==> st' == st)
            && (r.Success? ==> st'.log == st.log + [C.ClipEntry(r.value, clock)])
  {
  }

  /** The save half logs one entry exactly when something was clipped and
      saved, writes only `out`, and changes nothing on an error. */
  lemma SaveStepEffect(lib: GeoLib, st: PrepState, out: string, clipped: Option<Frame>, clock: Clock, mode: C.Mode)
    ensures var (err, st') := SaveStep(lib, st, out, clipped, clock, mode);
            && st.log <= st'.log && |st'.log| <= |st.log| + 1
            && (err.Some? ==> st' == st && mode.Project? && err.value == C.UnknownCrs(mode.epsgCode))
            && (err.None? ==> (|st'.log| == |st.log| + 1 <==> clipped.Some?))
            && (|st'.log| == |st.log| ==> st'.files == st.files)
            && (|st'.log| == |st.log| + 1 ==>
                  && st'.files == st.files[out := st'.files[out]]
                  && (mode.ClipOnly? ==> st'.files[out] == clipped.value
                                         && st'.log[|st.log|] == C.SaveEntry(C.SavedMessage(out), clock))
                  && (mode.Project? ==> st'.files[out].crs == lib.crsFromEpsg(mode.epsgCode).value
                                        && st'.log[|st.log|] == C.SaveEntry(ProjectedPathMessage(out), clock)))
  {
  }

  /** What one call does to the log: it only grows at its end, by one
      entry when nothing was clipped and by two when a file was saved; an
      unreadable or empty file changes nothing, and a log that grew by one
      means no file was written. */
  lemma FileStepEffect(lib: GeoLib, master: Frame, outputPath: Option<string>, postfix: string,
                       st: PrepState, path: string, clock: Clock, mode: C.Mode)
    ensures var (err, st') := FileStep(lib, master, outputPath, postfix, st, path, clock, mode);
            && st.log <= st'.log
            && |st'.log| <= |st.log| + 2
            && (err.None? ==> |st'.log| >= |st.log| + 1)
            && (err.None? && |st'.log| == |st.log| + 1 ==> st'.files == st.files)
            && ((path !in st.files || st.files[path].rows == []) ==> st' == st && err.Some?)
  {
    ClipStepEffect(lib, master, st, path, clock);
    var (r, logged) := ClipStep(lib, master, st, path, clock);
    if r.Success? {
      var out := ClippedOutputFilePath(path, outputPath, postfix);
      SaveStepEffect(lib, logged, out, r.value.clipped, clock, mode);
      assert FileStep(lib, master, outputPath, postfix, st, path, clock, mode)
          == SaveStep(lib, logged, out, r.value.clipped, clock, mode);
    } else {
      assert FileStep(lib, master, outputPath, postfix, st, path, clock, mode) == (Some(r.error), st);
    }
  }

  /** A readable, non-empty file whose valid rows overlap the master extent
      and whose clip against it is non-empty is clipped, saved and logged
      twice: the clip entry with the invalid rows, then the save entry with
      the full output path; the file at the derived output path is the clip
      (`clip`) or the clip reprojected to the target CRS (`clip_and_project`
      with a known EPSG code), and no other file changes. */
  lemma FileStepSavesOverlap(lib: GeoLib, master: Frame, outputPath: Option<string>, postfix: string,
                             st: PrepState, path: string, clock: Clock, mode: C.Mode)
    requires path in st.files && st.files[path].rows != []
    requires var valid := Prepared(lib, st.files[path], IsPolygonFeatureSet(st.files[path], false).value).0;
             AnyIntersects(lib, valid.rows, UnaryUnion(lib, master)) && ClipTo(lib, valid, master).rows != []
    requires mode.Project? ==> lib.crsFromEpsg(mode.epsgCode).Some?
    ensures var (valid, invalid) := Prepared(lib, st.files[path], IsPolygonFeatureSet(st.files[path], false).value);
            var c := ClipTo(lib, valid, master);
            var out := ClippedOutputFilePath(path, outputPath, postfix);
            var saved := if mode.ClipOnly? then c else Reproject(lib, c, lib.crsFromEpsg(mode.epsgCode).value);
            var message := if mode.ClipOnly? then C.SavedMessage(out) else ProjectedPathMessage(out);
            var (err, st') := FileStep(lib, master, outputPath, postfix, st, path, clock, mode);
            && err.None?
            && st'.log == st.log + [C.ClipEntry(C.Decision(Some(c), invalid, C.ClippedMessage(Basename(path))), clock),
                                    C.SaveEntry(message, clock)]
            && st'.files == st.files[out := saved]
  {
    var (valid, invalid) := Prepared(lib, st.files[path], IsPolygonFeatureSet(st.files[path], false).value);
    DecideOutcomes(lib, master, valid, invalid, Basename(path));
    var (r, logged) := ClipStep(lib, master, st, path, clock);
    var out := ClippedOutputFilePath(path, outputPath, postfix);
    assert FileStep(lib, master, outputPath, postfix, st, path, clock, mode)
        == SaveStep(lib, logged, out, r.value.clipped, clock, mode);
  }

  /** The batch `clip_and_project`: every file in order through one engine,
      stopping at the first exception. */
  function Batch(lib: GeoLib, master: Frame, outputPath: Option<string>, postfix: string,
                 st: PrepState, paths: seq<string>, clocks: seq<Clock>, epsgCode: string): (Option<C.ClipError>, PrepState)
    requires |clocks| == |paths|
    decreases |paths|
  {
    if paths == [] then (None, st)
    else
      var (err, st') := FileStep(lib, master, outputPath, postfix, st, paths[0], clocks[0], C.Project(epsgCode));
      if err.Some? then (err, st')
      else Batch(lib, master, outputPath, postfix, st', paths[1..], clocks[1..], epsgCode)
  }

  /** One step of the batch: after the first file, the batch stops on an
      error and otherwise goes on with the rest. */
  lemma BatchFirst(lib: GeoLib, master: Frame, outputPath: Option<string>, postfix: string,
                   st: PrepState, paths: seq<string>, clocks: seq<Clock>, epsgCode: string,
                   err: Option<C.ClipError>, st': PrepState)
    requires |clocks| == |paths| && paths != []
    requires (err, st') == FileStep(lib, master, outputPath, postfix, st, paths[0], clocks[0], C.Project(epsgCode))
    ensures err.Some? ==> Batch(lib, master, outputPath, postfix, st, paths, clocks, epsgCode) == (err, st')
    ensures err.None? ==> Batch(lib, master, outputPath, postfix, st, paths, clocks, epsgCode)
                          == Batch(lib, master, outputPath, postfix, st', paths[1..], clocks[1..], epsgCode)
  {
  }

  /** Over a batch the log only grows at its end; after n files that all
      went through it holds between n and 2n new entries. */
  lemma {:induction false} BatchLog(lib: GeoLib, master: Frame, outputPath: Option<string>, postfix: string,
                                    st: PrepState, paths: seq<string>, clocks: seq<Clock>, epsgCode: string)
    requires |clocks| == |paths|
    ensures var (err, st') := Batch(lib, master, outputPath, postfix, st, paths, clocks, epsgCode);
            && st.log <= st'.log
            && |st'.log| <= |st.log| + 2 * |paths|
            && (err.None? ==> |st.log| + |paths| <= |st'.log|)
    decreases |paths|
  {
    if paths != [] {
      FileStepEffect(lib, master, outputPath, postfix, st, paths[0], clocks[0], C.Project(epsgCode));
      var (err, st1) := FileStep(lib, master, outputPath, postfix, st, paths[0], clocks[0], C.Project(epsgCode));
      if err.None? {
        BatchLog(lib, master, outputPath, postfix, st1, paths[1..], clocks[1..], epsgCode);
      }
    }
  }

  /** `ShapeFileClipper` of data_prep.py. */
  class ShapeFileClipper {
    const lib: GeoLib
    const clipExtent: Frame
    const outputPath: Option<string>
    const outputFilePostfix: string
    var log: seq<LogEntry>

    ghost function State(fs: FileSystem): PrepState
      reads this`log, fs
    {
      PrepState(log, fs.files)
    }

    /** The clip extent is read by the caller and passed in. */
    constructor (lib: GeoLib, clipExtent: Frame, outputPath: Option<string>, outputFilePostfix: string)
      ensures this.lib == lib && this.clipExtent == clipExtent
      ensures this.outputPath == outputPath && this.outputFilePostfix == outputFilePostfix
      ensures log == []
    {
      this.lib := lib;
      this.clipExtent := clipExtent;
      this.outputPath := outputPath;
      this.outputFilePostfix := outputFilePostfix;
      log := [];
    }

    /** `__clip_data`: `clip_shp` against the master extent, the input's CRS
        forced onto the result, empty geometries dropped. */
    method ClipData(dataFrame: Frame) returns (clipped: Frame)
      ensures clipped == ClipTo(lib, dataFrame, clipExtent)
      ensures clipped.crs == dataFrame.crs
      ensures forall f :: f in clipped.rows <==>
                f in lib.clipShp(dataFrame.rows, clipExtent.rows) && !lib.isEmpty(f.geometry)
    {
      clipped := ClipTo(lib, dataFrame, clipExtent);
      ClipToDropsEmpty(lib, dataFrame, clipExtent);
    }

    /** `__clip`. */
    method ClipShapeFile(fs: FileSystem, shapeFile: string) returns (r: Result<C.Decision, C.ClipError>)
      ensures r == ClipFile(lib, clipExtent, fs.files, shapeFile)
    {
      var frame := fs.ReadFile(shapeFile);
      if frame.None? {
        return Failure(C.UnreadableFile(shapeFile));
      }
      var dataFrame := new DataFrame(frame.value);
      var shapeFileName := Basename(shapeFile);
      var isPolygon := IsPolygonFeatureSet(dataFrame.Value(), false);
      if isPolygon.None? {
        return Failure(C.NoRowZero(shapeFile));
      }
      if isPolygon.value {
        FixPolygonsInPlace(lib, dataFrame);
      }
      var validValues, nonValidValues := CheckGeometries(lib, dataFrame);
      if !AnyIntersects(lib, validValues.rows, UnaryUnion(lib, clipExtent)) {
        return Success(C.Decision(None, nonValidValues, NoOverlapMessage(shapeFileName)));
      }
      var clippedDataFrame := ClipData(validValues);
      if |clippedDataFrame.rows| == 0 {
        return Success(C.Decision(None, nonValidValues, NoFeaturesMessage(shapeFileName)));
      }
      return Success(C.Decision(Some(clippedDataFrame), nonValidValues, C.ClippedMessage(shapeFileName)));
    }

    /** `__save_shape_file`. */
    method SaveShapeFile(fs: FileSystem, dataFrame: Frame, shapeFile: string) returns (outputFilePath: string)
      modifies fs
      ensures outputFilePath == ClippedOutputFilePath(shapeFile, outputPath, outputFilePostfix)
      ensures fs.files == old(fs.files)[outputFilePath := dataFrame]
    {
      outputFilePath := ClippedOutputFilePath(shapeFile, outputPath, outputFilePostfix);
      fs.WriteFile(outputFilePath, dataFrame);
    }

    /** The timed clip half shared by `clip` and `clip_and_project`. */
    method ClipAndLog(fs: FileSystem, shapeFile: string, timer: ExecutionTimer, clock: Clock) returns (result: Result<C.Decision, C.ClipError>)
      requires timer.startTime == clock.start
      modifies this`log
      ensures (result, State(fs)) == ClipStep(lib, clipExtent, old(State(fs)), shapeFile, clock)
    {
      ghost var st := State(fs);
      result := ClipShapeFile(fs, shapeFile);
      if result.Success? {
        var t := timer.GetRunningTime(clock.clipped);
        log := log + [LogEntry(result.value.message, Some(result.value.ignored), t)];
        ghost var st' := PrepState(st.log + [C.ClipEntry(result.value, clock)], st.files);
        assert State(fs) == st';
        assert ClipStep(lib, clipExtent, st, shapeFile, clock) == (result, st');
      } else {
        assert ClipStep(lib, clipExtent, st, shapeFile, clock) == (result, st);
      }
    }

    /** The timed save half shared by `clip` and `clip_and_project`. */
    method SaveAndLog(fs: FileSystem, shapeFile: string, clipped: Option<Frame>, timer: ExecutionTimer, clock: Clock, mode: C.Mode)
      returns (err: Option<C.ClipError>)
      requires timer.startTime == clock.reset
      modifies this`log, fs
      ensures (err, State(fs)) == SaveStep(lib, old(State(fs)), ClippedOutputFilePath(shapeFile, outputPath, outputFilePostfix), clipped, clock, mode)
    {
      ghost var st := State(fs);
      ghost var out := ClippedOutputFilePath(shapeFile, outputPath, outputFilePostfix);
      if clipped.None? {
        assert SaveStep(lib, st, out, clipped, clock, mode) == (None, st);
        return None;
      }
      var saved := clipped.value;
      if mode.Project? {
        var projected := ProjectDataFrame(lib, saved, mode.epsgCode);
        if projected.None? {
          assert SaveStep(lib, st, out, clipped, clock, mode) == (Some(C.UnknownCrs(mode.epsgCode)), st);
          return Some(C.UnknownCrs(mode.epsgCode));
        }
        saved := projected.value;
      }
      var outputFilePath := SaveShapeFile(fs, saved, shapeFile);
      var t := timer.GetRunningTime(clock.saved);
      var message := if mode.ClipOnly? then C.SavedMessage(outputFilePath) else ProjectedPathMessage(outputFilePath);
      log := log + [LogEntry(message, None, t)];
      err := None;
      ghost var st' := PrepState(st.log + [C.SaveEntry(message, clock)], st.files[out := saved]);
      assert LogEntry(message, None, t) == C.SaveEntry(message, clock);
      assert State(fs) == st';
      assert SaveStep(lib, st, out, clipped, clock, mode) == (None, st');
    }

    /** `clip`. */
    method Clip(fs: FileSystem, shapeFile: string, clock: Clock) returns (err: Option<C.ClipError>)
      modifies this`log, fs
      ensures (err, State(fs)) == FileStep(lib, clipExtent, outputPath, outputFilePostfix, old(State(fs)), shapeFile, clock, C.ClipOnly)
    {
      var timer := new ExecutionTimer(clock.start);
      var result := ClipAndLog(fs, shapeFile, timer, clock);
      if result.Failure? {
        return Some(result.error);
      }
      timer.Reset(clock.reset);
      err := SaveAndLog(fs, shapeFile, result.value.clipped, timer, clock, C.ClipOnly);
    }

    /** `clip_and_project`. */
    method ClipAndProject(fs: FileSystem, shapeFile: string, epsgCode: string, clock: Clock) returns (err: Option<C.ClipError>)
      modifies this`log, fs
      ensures (err, State(fs)) == FileStep(lib, clipExtent, outputPath, outputFilePostfix, old(State(fs)), shapeFile, clock, C.Project(epsgCode))
    {
      var timer := new ExecutionTimer(clock.start);
      var result := ClipAndLog(fs, shapeFile, timer, clock);
      if result.Failure? {
        return Some(result.error);
      }
      timer.Reset(clock.reset);
      err := SaveAndLog(fs, shapeFile, result.value.clipped, timer, clock, C.Project(epsgCode));
    }
  }

  /** The module-level `clip_and_project`: one engine for the whole batch.
      The log it prints is returned instead. */
  method ClipAndProjectBatch(lib: GeoLib, fs: FileSystem, shapeFiles: seq<string>, clipShapeFile: string,
                             outputPath: Option<string>, outputFilePostfix: string, epsgCode: string,
                             clocks: seq<Clock>)
    returns (err: Option<C.ClipError>, log: seq<LogEntry>)
    requires |clocks| == |shapeFiles|
    modifies fs
    ensures clipShapeFile !in old(fs.files) ==>
              err == Some(C.UnreadableFile(clipShapeFile)) && log == [] && fs.files == old(fs.files)
    ensures clipShapeFile in old(fs.files) ==>
              var (e, st) := Batch(lib, old(fs.files)[clipShapeFile], outputPath, outputFilePostfix,
                                   PrepState([], old(fs.files)), shapeFiles, clocks, epsgCode);
              err == e && log == st.log && fs.files == st.files
  {
    var clipExtent := fs.ReadFile(clipShapeFile);
    if clipExtent.None? {
      return Some(C.UnreadableFile(clipShapeFile)), [];
    }
    var clipper := new ShapeFileClipper(lib, clipExtent.value, outputPath, outputFilePostfix);
    err := ClipEach(clipper, fs, shapeFiles, epsgCode, clocks);
    log := clipper.log;
  }

  /** The loop of the batch: each file in order through one engine,
      stopping at the first exception. */
  method ClipEach(clipper: ShapeFileClipper, fs: FileSystem, shapeFiles: seq<string>, epsgCode: string, clocks: seq<Clock>)
    returns (err: Option<C.ClipError>)
    requires |clocks| == |shapeFiles|
    modifies clipper`log, fs
    ensures (err, clipper.State(fs))
         == Batch(clipper.lib, clipper.clipExtent, clipper.outputPath, clipper.outputFilePostfix,
                  old(clipper.State(fs)), shapeFiles, clocks, epsgCode)
  {
    ghost var whole := Batch(clipper.lib, clipper.clipExtent, clipper.outputPath, clipper.outputFilePostfix,
                             clipper.State(fs), shapeFiles, clocks, epsgCode);
    var i := 0;
    while i < |shapeFiles|
      invariant 0 <= i <= |shapeFiles|
      invariant whole == Batch(clipper.lib, clipper.clipExtent, clipper.outputPath, clipper.outputFilePostfix,
                               clipper.State(fs), shapeFiles[i..], clocks[i..], epsgCode)
    {
      assert shapeFiles[i..][1..] == shapeFiles[i + 1..];
      assert clocks[i..][1..] == clocks[i + 1..];
      ghost var before := clipper.State(fs);
      var e := clipper.ClipAndProject(fs, shapeFiles[i], epsgCode, clocks[i]);
      BatchFirst(clipper.lib, clipper.clipExtent, clipper.outputPath, clipper.outputFilePostfix,
                 before, shapeFiles[i..], clocks[i..], epsgCode, e, clipper.State(fs));
      if e.Some? {
        return e;
      }
      i := i + 1;
    }
    return None;
  }
}
