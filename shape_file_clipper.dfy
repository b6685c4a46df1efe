/** shape_file_clipper.py: the clip engine. One engine holds a master clip
    extent, a CRS-keyed cache of that extent reprojected into other CRSs
    (filled on first use, never emptied), the output-path policy and an
    append-only log. `clip` and `clip_and_project` take one shapefile through
    repair, validity check, an overlap pre-check against the master extent,
    the clip proper against the extent in the file's own CRS, and the save.

    The pure functions below say what one call does to the engine's state;
    the class methods are proved to do exactly that. */
module Clipper {
  import opened Wrappers
  import opened Seqs
  import opened Paths
  import opened Geo
  import opened GeoUtil
  import opened ClipLog

  /** The exceptions that end a call early. */
  datatype ClipError =
    | UnreadableFile(path: string)   // `gpd.read_file` raises
    | NoRowZero(path: string)        // `data_frame.loc[0, ...]` raises KeyError: the file has no rows
    | UnknownCrs(epsgCode: string)   // `CRS.from_epsg` raises

  /** Which of the two public operations runs: `clip`, or `clip_and_project`
      with its EPSG code. */
  datatype Mode = ClipOnly | Project(epsgCode: string)

  /** The reprojected-extent cache (`projected_clip_extents`) with the keys
      reprojected so far, in the order the reprojections ran. */
  datatype Cache = Cache(extents: map<string, Frame>, reprojections: seq<string>)

  /** What `__clip` returns: the clipped frame (None when nothing is left),
      the invalid rows, and the result message. */
  datatype Decision = Decision(clipped: Option<Frame>, ignored: Frame, message: string)

  /** What a call can change: the cache, the log and the files on disk. */
  datatype EngineState = EngineState(cache: Cache, log: seq<LogEntry>, files: map<string, Frame>)

  /** The cache invariant: each entry is the master extent reprojected into
      the CRS its key names (never the master's own CRS), and each key was
      reprojected exactly once. */
  predicate CacheInv(lib: GeoLib, master: Frame, cache: Cache)
  {
    && (forall k :: k in cache.extents ==>
          Crs(k) != master.crs && cache.extents[k] == Reproject(lib, master, Crs(k)))
    && NoDuplicates(cache.reprojections)
    && (forall k :: k in cache.extents ==> k in cache.reprojections)
    && (forall i :: 0 <= i < |cache.reprojections| ==> cache.reprojections[i] in cache.extents)
  }

  /** `c2` extends `c1`: no entry removed or overwritten, no reprojection
      forgotten. */
  predicate Grows(c1: Cache, c2: Cache)
  {
    && (forall k :: k in c1.extents ==> k in c2.extents && c2.extents[k] == c1.extents[k])
    && c1.reprojections <= c2.reprojections
  }

  /** The first half of `__clip_data`: the extent to clip with, in `crs`, and
      the cache afterwards. */
  function ExtentFor(lib: GeoLib, master: Frame, cache: Cache, crs: Crs): (Frame, Cache)
  {
    if master.crs == crs then (master, cache)
    else if Key(crs) in cache.extents then (cache.extents[Key(crs)], cache)
    else
      var extent := Reproject(lib, master, crs);
      (extent, Cache(cache.extents[Key(crs) := extent], cache.reprojections + [Key(crs)]))
  }

  /** The cache is transparent: the extent it hands out is the master
      extent, or the master reprojected into `crs`, exactly as a fresh
      reprojection would give. A hit or a matching CRS leaves the cache as
      it was; a miss adds one entry, under `Key(crs)`, and one reprojection. */
  lemma ExtentForSound(lib: GeoLib, master: Frame, cache: Cache, crs: Crs)
    requires CacheInv(lib, master, cache)
    ensures var (extent, cache') := ExtentFor(lib, master, cache, crs);
            && extent == ExtentIn(lib, master, crs)
            && extent.crs == crs
            && CacheInv(lib, master, cache')
            && Grows(cache, cache')
            && cache'.extents.Keys == cache.extents.Keys + (if master.crs == crs then {} else {Key(crs)})
            && (master.crs == crs || Key(crs) in cache.extents ==> cache' == cache)
            && (master.crs != crs && Key(crs) !in cache.extents ==>
                  cache'.reprojections == cache.reprojections + [Key(crs)])
  {
    var k := Key(crs);
    if master.crs != crs && k !in cache.extents {
      var cache' := ExtentFor(lib, master, cache, crs).1;
      assert k !in cache.reprojections;
      assert NoDuplicates(cache'.reprojections) by {
        var s := cache'.reprojections;
        forall i, j | 0 <= i < j < |s| ensures s[i] != s[j] {
          if j == |s| - 1 {
            assert s[i] in cache.reprojections;
          }
        }
      }
    }
  }

  /** `__clip_data`: clip with the extent in the frame's CRS; the result
      carries the frame's CRS and no empty geometry. */
  function ClipWithCache(lib: GeoLib, master: Frame, cache: Cache, frame: Frame): (Frame, Cache)
  {
    var (extent, cache') := ExtentFor(lib, master, cache, frame.crs);
    (ClipTo(lib, frame, extent), cache')
  }

  /** Clipping through the cache gives what clipping against a fresh
      reprojection of the master extent gives. */
  lemma ClipWithCacheSound(lib: GeoLib, master: Frame, cache: Cache, frame: Frame)
    requires CacheInv(lib, master, cache)
    ensures var (clipped, cache') := ClipWithCache(lib, master, cache, frame);
            && clipped == ClipTo(lib, frame, ExtentIn(lib, master, frame.crs))
            && clipped.crs == frame.crs
            && (forall f :: f in clipped.rows ==> !lib.isEmpty(f.geometry))
            && CacheInv(lib, master, cache')
            && Grows(cache, cache')
  {
    ExtentForSound(lib, master, cache, frame.crs);
    ClipToDropsEmpty(lib, frame, ExtentFor(lib, master, cache, frame.crs).0);
  }

  function IgnoredMessage(name: string): string
  {
    "No features in " + name + " within clipping extent. Ignored."
  }

  function ClippedMessage(name: string): string
  {
    name + " successfully clipped."
  }

  /** `clip` logs the full output path. */
  function SavedMessage(outputFilePath: string): string
  {
    outputFilePath + " saved."
  }

  /** `clip_and_project` logs the output file's base name only. */
  function ProjectedMessage(outputFilePath: string): string
  {
    Basename(outputFilePath) + " projected and saved."
  }

  /** The second half of `__clip`, after repair and validity check: skip
      unless some valid row intersects the union of the master extent (in
      the master's own CRS, whatever the frame's CRS); otherwise clip through
      the cache and skip when nothing is left. */
  function Decide(lib: GeoLib, master: Frame, cache: Cache, valid: Frame, invalid: Frame, name: string): (r: (Decision, Cache))
    ensures r.0.ignored == invalid
    ensures r.0.clipped.None? <==> r.0.message == IgnoredMessage(name)
    ensures r.0.clipped.Some? ==>
              && r.0.message == ClippedMessage(name)
              && r.0.clipped.value.rows != []
              && r.0.clipped.value.crs == valid.crs
    ensures !AnyIntersects(lib, valid.rows, UnaryUnion(lib, master)) ==> r.0.clipped.None? && r.1 == cache
  {
    if !AnyIntersects(lib, valid.rows, UnaryUnion(lib, master)) then
      (Decision(None, invalid, IgnoredMessage(name)), cache)
    else
      var (clipped, cache') := ClipWithCache(lib, master, cache, valid);
      if |clipped.rows| == 0 then (Decision(None, invalid, IgnoredMessage(name)), cache')
      else (Decision(Some(clipped), invalid, ClippedMessage(name)), cache')
  }

  /** A clipped result holds no empty geometry. */
  lemma DecideDropsEmpty(lib: GeoLib, master: Frame, cache: Cache, valid: Frame, invalid: Frame, name: string)
    ensures var d := Decide(lib, master, cache, valid, invalid, name).0;
            d.clipped.Some? ==> forall f :: f in d.clipped.value.rows ==> !lib.isEmpty(f.geometry)
  {
    ClipToDropsEmpty(lib, valid, ExtentFor(lib, master, cache, valid.crs).0);
  }

  /** The extent the clip proper uses for rows in `crs`, as a fresh
      reprojection would give it. */
  function ExtentIn(lib: GeoLib, master: Frame, crs: Crs): Frame
  {
    if master.crs == crs then master else Reproject(lib, master, crs)
  }

  /** Which rows `__clip` keeps: exactly the clip of the valid rows against
      the extent in their CRS, when some valid row overlaps the master
      extent and that clip is non-empty; nothing otherwise. */
  lemma DecideClips(lib: GeoLib, master: Frame, cache: Cache, valid: Frame, invalid: Frame, name: string)
    requires CacheInv(lib, master, cache)
    ensures var c := ClipTo(lib, valid, ExtentIn(lib, master, valid.crs));
            Decide(lib, master, cache, valid, invalid, name).0.clipped
            == if AnyIntersects(lib, valid.rows, UnaryUnion(lib, master)) && c.rows != [] then Some(c) else None
  {
    ExtentForSound(lib, master, cache, valid.crs);
  }

  /** `__clip`: read the file, repair it when its row 0 is a Polygon or a
      MultiPolygon, split valid from invalid rows, and decide. */
  function ClipFile(lib: GeoLib, master: Frame, cache: Cache, files: map<string, Frame>, path: string): (r: (Result<Decision, ClipError>, Cache))
    ensures r.0.Failure? ==> r.1 == cache
  {
    if path !in files then (Failure(UnreadableFile(path)), cache)
    else
      match IsPolygonFeatureSet(files[path], true)
      case None => (Failure(NoRowZero(path)), cache)
      case Some(isPolygon) =>
        var (valid, invalid) := Prepared(lib, files[path], isPolygon);
        var (decision, cache') := Decide(lib, master, cache, valid, invalid, Basename(path));
        (Success(decision), cache')
  }

  /** For a readable, non-empty file `__clip` succeeds, reports the invalid
      rows of the prepared file, and keeps exactly the clip of its valid rows
      against the extent in the file's CRS when some valid row overlaps the
      master extent and that clip is non-empty. */
  lemma ClipFileClips(lib: GeoLib, master: Frame, cache: Cache, files: map<string, Frame>, path: string)
    requires CacheInv(lib, master, cache)
    ensures path in files && files[path].rows != [] ==>
              var (valid, invalid) := Prepared(lib, files[path], IsPolygonFeatureSet(files[path], true).value);
              var c := ClipTo(lib, valid, ExtentIn(lib, master, files[path].crs));
              var r := ClipFile(lib, master, cache, files, path).0;
              && r.Success?
              && r.value.ignored == invalid
              && r.value.clipped
                 == if AnyIntersects(lib, valid.rows, UnaryUnion(lib, master)) && c.rows != [] then Some(c) else None
  {
    if path in files && files[path].rows != [] {
      var parts := Prepared(lib, files[path], IsPolygonFeatureSet(files[path], true).value);
      PreparedParts(lib, files[path], IsPolygonFeatureSet(files[path], true).value);
      DecideClips(lib, master, cache, parts.0, parts.1, Basename(path));
    }
  }

  /** The log entry of a clip step: its outcome and the time since the
      timer started. */
  function ClipEntry(d: Decision, clock: Clock): LogEntry
  {
    LogEntry(d.message, Some(d.ignored), clock.clipped - clock.start)
  }

  /** The log entry of a save step: its message and the time since the timer
      was reset. */
  function SaveEntry(message: string, clock: Clock): LogEntry
  {
    LogEntry(message, None, clock.saved - clock.reset)
  }

  /** The save half of one call, after the clip step was logged into `st`:
      nothing when nothing was clipped; otherwise reproject if asked, write
      the result to `out` and log the save. */
  function SaveStep(lib: GeoLib, st: EngineState, out: string, clipped: Option<Frame>, clock: Clock, mode: Mode): (Option<ClipError>, EngineState)
  {
    if clipped.None? then (None, st)
    else if mode.ClipOnly? then
      (None, EngineState(st.cache, st.log + [SaveEntry(SavedMessage(out), clock)], st.files[out := clipped.value]))
    else
      var projected := ProjectDataFrame(lib, clipped.value, mode.epsgCode);
      if projected.None? then (Some(UnknownCrs(mode.epsgCode)), st)
      else (None, EngineState(st.cache, st.log + [SaveEntry(ProjectedMessage(out), clock)], st.files[out := projected.value]))
  }

  /** The clip half of one call: `__clip`, and on success its outcome
      logged. */
  function ClipStep(lib: GeoLib, master: Frame, st: EngineState, path: string, clock: Clock): (Result<Decision, ClipError>, EngineState)
  {
    var (result, cache) := ClipFile(lib, master, st.cache, st.files, path);
    if result.Failure? then (result, st)
    else (result, EngineState(cache, st.log + [ClipEntry(result.value, clock)], st.files))
  }

  /** One `clip` (mode ClipOnly) or `clip_and_project` call: the clip half,
      then the save half into the derived output path. */
  function FileStep(lib: GeoLib, master: Frame, outputPath: Option<string>, postfix: string,
                    st: EngineState, path: string, clock: Clock, mode: Mode): (Option<ClipError>, EngineState)
  {
    var (result, logged) := ClipStep(lib, master, st, path, clock);
    if result.Failure? then (Some(result.error), st)
    else SaveStep(lib, logged, ClippedOutputFilePath(path, outputPath, postfix), result.value.clipped, clock, mode)
  }

  /** When no valid row overlaps the master extent, the clip step does not
      run: one "Ignored." entry carrying the invalid rows is logged, and the
      cache and the files stay as they were. */
  lemma SkipWithoutOverlap(lib: GeoLib, master: Frame, outputPath: Option<string>, postfix: string,
                           st: EngineState, path: string, clock: Clock, mode: Mode)
    requires path in st.files && st.files[path].rows != []
    requires var isPolygon := IsPolygonFeatureSet(st.files[path], true).value;
             !AnyIntersects(lib, Prepared(lib, st.files[path], isPolygon).0.rows, UnaryUnion(lib, master))
    ensures var invalid := Prepared(lib, st.files[path], IsPolygonFeatureSet(st.files[path], true).value).1;
            FileStep(lib, master, outputPath, postfix, st, path, clock, mode)
            == (None, EngineState(st.cache,
                                  st.log + [LogEntry(IgnoredMessage(Basename(path)), Some(invalid), clock.clipped - clock.start)],
                                  st.files))
  {
  }

  /** What `__clip` does to the cache: the invariant holds, nothing is lost,
      and at most the key of the file's CRS is added; the cache is untouched
      when that CRS is the master's or already cached. */
  lemma ClipFileCache(lib: GeoLib, master: Frame, cache: Cache, files: map<string, Frame>, path: string)
    requires CacheInv(lib, master, cache)
    ensures var cache' := ClipFile(lib, master, cache, files, path).1;
            && CacheInv(lib, master, cache')
            && Grows(cache, cache')
            && (path in files ==> cache'.extents.Keys <= cache.extents.Keys + {Key(files[path].crs)})
            && ((path in files && (files[path].crs == master.crs || Key(files[path].crs) in cache.extents))
                  ==> cache' == cache)
  {
    if path in files && files[path].rows != [] {
      var frame := files[path];
      var parts := Prepared(lib, frame, IsPolygonFeatureSet(frame, true).value);
      PreparedParts(lib, frame, IsPolygonFeatureSet(frame, true).value);
      if AnyIntersects(lib, parts.0.rows, UnaryUnion(lib, master)) {
        ExtentForSound(lib, master, cache, parts.0.crs);
      }
    }
  }

  /** What `__clip` decides: it fails exactly when the file is missing or
      empty; otherwise a clipped result comes with the "successfully
      clipped." message, is non-empty, keeps the file's CRS and holds no
      empty geometry, and an empty result comes with the "Ignored." message. */
  lemma ClipFileDecision(lib: GeoLib, master: Frame, cache: Cache, files: map<string, Frame>, path: string)
    ensures var r := ClipFile(lib, master, cache, files, path).0;
            && (r.Failure? <==> path !in files || files[path].rows == [])
            && (r.Failure? ==> r.error == (if path !in files then UnreadableFile(path) else NoRowZero(path)))
            && (r.Success? && r.value.clipped.None? ==> r.value.message == IgnoredMessage(Basename(path)))
            && (r.Success? && r.value.clipped.Some? ==>
                  && r.value.message == ClippedMessage(Basename(path))
                  && r.value.clipped.value.rows != []
                  && r.value.clipped.value.crs == files[path].crs
                  && (forall f :: f in r.value.clipped.value.rows ==> !lib.isEmpty(f.geometry)))
  {
    if path in files && files[path].rows != [] {
      var parts := Prepared(lib, files[path], IsPolygonFeatureSet(files[path], true).value);
      PreparedParts(lib, files[path], IsPolygonFeatureSet(files[path], true).value);
      DecideDropsEmpty(lib, master, cache, parts.0, parts.1, Basename(path));
    }
  }

  /** The clip half leaves the files alone, logs exactly one entry when it
      succeeds and changes nothing when it fails. */
  lemma ClipStepEffect(lib: GeoLib, master: Frame, st: EngineState, path: string, clock: Clock)
    requires CacheInv(lib, master, st.cache)
    ensures var (r, st') := ClipStep(lib, master, st, path, clock);
            && st'.files == st.files
            && (r.Failure? ==> st' == st)
            && (r.Success? ==> st'.log == st.log + [ClipEntry(r.value, clock)])
            && CacheInv(lib, master, st'.cache)
            && Grows(st.cache, st'.cache)
            && (path in st.files ==> st'.cache.extents.Keys <= st.cache.extents.Keys + {Key(st.files[path].crs)})
            && ((path in st.files && (st.files[path].crs == master.crs || Key(st.files[path].crs) in st.cache.extents))
                  ==> st'.cache == st.cache)
  {
    ClipFileCache(lib, master, st.cache, st.files, path);
  }

  /** The save half never touches the cache and logs at most one entry; an
      error leaves everything as it was, and when nothing is logged nothing
      is written. A save writes `out` and nothing else: the clipped rows
      under `clip`, the rows reprojected to the target CRS under
      `clip_and_project`. */
  lemma SaveStepEffect(lib: GeoLib, st: EngineState, out: string, clipped: Option<Frame>, clock: Clock, mode: Mode)
    ensures var (err, st') := SaveStep(lib, st, out, clipped, clock, mode);
            && st'.cache == st.cache
            && st.log <= st'.log && |st'.log| <= |st.log| + 1
            && (err.Some? ==> st' == st && mode.Project? && err.value == UnknownCrs(mode.epsgCode))
            && (err.None? && |st'.log| == |st.log| ==> st'.files == st.files)
            && (err.None? ==> (|st'.log| == |st.log| + 1 <==> clipped.Some?))
            && (err.None? && clipped.Some? ==>
                  && st'.files == st.files[out := st'.files[out]]
                  && |st'.files[out].rows| == |clipped.value.rows|
                  && (mode.ClipOnly? ==> st'.files[out] == clipped.value
                                         && st'.log[|st.log|] == SaveEntry(SavedMessage(out), clock))
                  && (mode.Project? ==> st'.files[out].crs == lib.crsFromEpsg(mode.epsgCode).value
                                        && st'.log[|st.log|] == SaveEntry(ProjectedMessage(out), clock)))
  {
  }

  /** What one call does to the log, the cache and the files. The log only
      grows at its end: by one entry when nothing was clipped, by two when a
      file was saved, by none when the file could not be read. The cache
      keeps its invariant, loses nothing, and gains at most the key of the
      file's CRS; it is untouched when that CRS is the master's or already
      cached. */
  lemma FileStepEffect(lib: GeoLib, master: Frame, outputPath: Option<string>, postfix: string,
                       st: EngineState, path: string, clock: Clock, mode: Mode)
    requires CacheInv(lib, master, st.cache)
    ensures var (err, st') := FileStep(lib, master, outputPath, postfix, st, path, clock, mode);
            && st.log <= st'.log
            && |st'.log| <= |st.log| + 2
            && (err.None? ==> |st'.log| >= |st.log| + 1)
            && (err.None? && |st'.log| == |st.log| + 1 ==> st'.files == st.files)
            && (err.Some? && !err.value.UnknownCrs? ==> st' == st)
            && CacheInv(lib, master, st'.cache)
            && Grows(st.cache, st'.cache)
            && (path in st.files ==>
                  st'.cache.extents.Keys <= st.cache.extents.Keys + {Key(st.files[path].crs)})
            && ((path in st.files && (st.files[path].crs == master.crs || Key(st.files[path].crs) in st.cache.extents))
                  ==> st'.cache == st.cache)
  {
    ClipStepEffect(lib, master, st, path, clock);
    var (r, logged) := ClipStep(lib, master, st, path, clock);
    if r.Success? {
      var out := ClippedOutputFilePath(path, outputPath, postfix);
      SaveStepEffect(lib, logged, out, r.value.clipped, clock, mode);
      assert FileStep(lib, master, outputPath, postfix, st, path, clock, mode)
          == SaveStep(lib, logged, out, r.value.clipped, clock, mode);
    } else {
      assert FileStep(lib, master, outputPath, postfix, st, path, clock, mode) == (Some(r.error), st);
    }
  }

  /** A successful call that logs two entries saved a file at the derived
      output path: `clip` writes the clipped rows in the input's CRS and logs
      the full path, `clip_and_project` writes them in the target CRS and
      logs the base name. */
  lemma FileStepSaves(lib: GeoLib, master: Frame, outputPath: Option<string>, postfix: string,
                      st: EngineState, path: string, clock: Clock, mode: Mode)
    requires CacheInv(lib, master, st.cache)
    requires var (err, st') := FileStep(lib, master, outputPath, postfix, st, path, clock, mode);
             err.None? && |st'.log| == |st.log| + 2
    ensures var (err, st') := FileStep(lib, master, outputPath, postfix, st, path, clock, mode);
            var out := ClippedOutputFilePath(path, outputPath, postfix);
            && path in st.files
            && st'.log[|st.log|].resultMessage == ClippedMessage(Basename(path))
            && out in st'.files
            && st'.files == st.files[out := st'.files[out]]
            && st'.files[out].rows != []
            && (mode.ClipOnly? ==> st'.files[out].crs == st.files[path].crs
                                   && (forall f :: f in st'.files[out].rows ==> !lib.isEmpty(f.geometry))
                                   && st'.log[|st.log| + 1].resultMessage == SavedMessage(out))
            && (mode.Project? ==> st'.files[out].crs == lib.crsFromEpsg(mode.epsgCode).value
                                  && st'.log[|st.log| + 1].resultMessage == ProjectedMessage(out))
  {
    ClipStepEffect(lib, master, st, path, clock);
    ClipFileDecision(lib, master, st.cache, st.files, path);
    var (r, logged) := ClipStep(lib, master, st, path, clock);
    var out := ClippedOutputFilePath(path, outputPath, postfix);
    SaveStepEffect(lib, logged, out, r.value.clipped, clock, mode);
  }

  /** A readable, non-empty file whose valid rows overlap the master extent
      and whose clip is non-empty is clipped, saved and logged twice: the
      clip entry with the invalid rows, then the save entry; the file at
      the derived output path is the clip (`clip`) or the clip reprojected
      to the target CRS (`clip_and_project` with a known EPSG code), and no
      other file changes. */
  lemma FileStepSavesOverlap(lib: GeoLib, master: Frame, outputPath: Option<string>, postfix: string,
                             st: EngineState, path: string, clock: Clock, mode: Mode)
    requires CacheInv(lib, master, st.cache)
    requires path in st.files && st.files[path].rows != []
    requires var valid := Prepared(lib, st.files[path], IsPolygonFeatureSet(st.files[path], true).value).0;
             && AnyIntersects(lib, valid.rows, UnaryUnion(lib, master))
             && ClipTo(lib, valid, ExtentIn(lib, master, st.files[path].crs)).rows != []
    requires mode.Project? ==> lib.crsFromEpsg(mode.epsgCode).Some?
    ensures var (valid, invalid) := Prepared(lib, st.files[path], IsPolygonFeatureSet(st.files[path], true).value);
            var c := ClipTo(lib, valid, ExtentIn(lib, master, st.files[path].crs));
            var out := ClippedOutputFilePath(path, outputPath, postfix);
            var saved := if mode.ClipOnly? then c else Reproject(lib, c, lib.crsFromEpsg(mode.epsgCode).value);
            var message := if mode.ClipOnly? then SavedMessage(out) else ProjectedMessage(out);
            var (err, st') := FileStep(lib, master, outputPath, postfix, st, path, clock, mode);
            && err.None?
            && st'.log == st.log + [ClipEntry(Decision(Some(c), invalid, ClippedMessage(Basename(path))), clock),
                                    SaveEntry(message, clock)]
            && st'.files == st.files[out := saved]
  {
    ClipFileClips(lib, master, st.cache, st.files, path);
    ClipFileDecision(lib, master, st.cache, st.files, path);
    var (r, logged) := ClipStep(lib, master, st, path, clock);
    var out := ClippedOutputFilePath(path, outputPath, postfix);
    assert FileStep(lib, master, outputPath, postfix, st, path, clock, mode)
        == SaveStep(lib, logged, out, r.value.clipped, clock, mode);
  }

  /** The batch driver's loop: every file in order through one engine,
      stopping at the first exception. */
  function Batch(lib: GeoLib, master: Frame, outputPath: Option<string>, postfix: string,
                 st: EngineState, paths: seq<string>, clocks: seq<Clock>, mode: Mode): (Option<ClipError>, EngineState)
    requires |clocks| == |paths|
    decreases |paths|
  {
    if paths == [] then (None, st)
    else
      var (err, st') := FileStep(lib, master, outputPath, postfix, st, paths[0], clocks[0], mode);
      if err.Some? then (err, st')
      else Batch(lib, master, outputPath, postfix, st', paths[1..], clocks[1..], mode)
  }

  /** One step of the batch: after the first file, the batch stops on an
      error and otherwise goes on with the rest. */
  lemma BatchFirst(lib: GeoLib, master: Frame, outputPath: Option<string>, postfix: string,
                   st: EngineState, paths: seq<string>, clocks: seq<Clock>, mode: Mode,
                   err: Option<ClipError>, st': EngineState)
    requires |clocks| == |paths| && paths != []
    requires (err, st') == FileStep(lib, master, outputPath, postfix, st, paths[0], clocks[0], mode)
    ensures err.Some? ==> Batch(lib, master, outputPath, postfix, st, paths, clocks, mode) == (err, st')
    ensures err.None? ==> Batch(lib, master, outputPath, postfix, st, paths, clocks, mode)
                          == Batch(lib, master, outputPath, postfix, st', paths[1..], clocks[1..], mode)
  {
  }

  /** The files are taken in order through one shared state: a batch over
      `p1 + p2` is the batch over `p1` followed by the batch over `p2` from
      the state `p1` left behind, and an error in `p1` ends the whole
      batch there. */
  lemma {:induction false} BatchSequential(lib: GeoLib, master: Frame, outputPath: Option<string>, postfix: string,
                                           st: EngineState, p1: seq<string>, c1: seq<Clock>,
                                           p2: seq<string>, c2: seq<Clock>, mode: Mode)
    requires |c1| == |p1| && |c2| == |p2|
    ensures var (err, st1) := Batch(lib, master, outputPath, postfix, st, p1, c1, mode);
            Batch(lib, master, outputPath, postfix, st, p1 + p2, c1 + c2, mode)
            == if err.Some? then (err, st1) else Batch(lib, master, outputPath, postfix, st1, p2, c2, mode)
    decreases |p1|
  {
    if p1 == [] {
      assert p1 + p2 == p2 && c1 + c2 == c2;
    } else {
      assert (p1 + p2)[0] == p1[0] && (c1 + c2)[0] == c1[0];
      assert (p1 + p2)[1..] == p1[1..] + p2 && (c1 + c2)[1..] == c1[1..] + c2;
      var (err, st1) := FileStep(lib, master, outputPath, postfix, st, p1[0], c1[0], mode);
      if err.None? {
        BatchSequential(lib, master, outputPath, postfix, st1, p1[1..], c1[1..], p2, c2, mode);
      }
    }
  }

  /** Over a batch the log only grows at its end, and after n files that
      all went through it holds between n and 2n new entries; the shared
      cache keeps its invariant and loses nothing. */
  lemma {:induction false} BatchEffect(lib: GeoLib, master: Frame, outputPath: Option<string>, postfix: string,
                                       st: EngineState, paths: seq<string>, clocks: seq<Clock>, mode: Mode)
    requires |clocks| == |paths|
    requires CacheInv(lib, master, st.cache)
    ensures var (err, st') := Batch(lib, master, outputPath, postfix, st, paths, clocks, mode);
            && st.log <= st'.log
            && |st'.log| <= |st.log| + 2 * |paths|
            && (err.None? ==> |st.log| + |paths| <= |st'.log|)
            && CacheInv(lib, master, st'.cache)
            && Grows(st.cache, st'.cache)
    decreases |paths|
  {
    if paths != [] {
      FileStepEffect(lib, master, outputPath, postfix, st, paths[0], clocks[0], mode);
      var (err, st1) := FileStep(lib, master, outputPath, postfix, st, paths[0], clocks[0], mode);
      if err.None? {
        BatchEffect(lib, master, outputPath, postfix, st1, paths[1..], clocks[1..], mode);
      }
    }
  }

  /** Each key is reprojected once over the engine's lifetime: there are as
      many reprojections as cache entries. */
  lemma ReprojectionsMatchEntries(lib: GeoLib, master: Frame, cache: Cache)
    requires CacheInv(lib, master, cache)
    ensures |cache.reprojections| == |cache.extents|
  {
    var keys := set k | k in cache.reprojections;
    assert keys == cache.extents.Keys;
    DistinctCount(cache.reprojections);
  }

  /** A duplicate-free sequence has as many distinct elements as entries. */
  lemma {:induction false} DistinctCount(s: seq<string>)
    requires NoDuplicates(s)
    ensures |set x | x in s| == |s|
    decreases |s|
  {
    if s != [] {
      var rest := s[1..];
      assert NoDuplicates(rest) by {
        forall i, j | 0 <= i < j < |rest| ensures rest[i] != rest[j] {
          assert rest[i] == s[i + 1] && rest[j] == s[j + 1];
        }
      }
      DistinctCount(rest);
      assert s[0] !in rest by {
        forall j | 0 <= j < |rest| ensures rest[j] != s[0] {
          assert rest[j] == s[j + 1];
        }
      }
      assert (set x | x in s) == (set x | x in rest) + {s[0]} by {
        assert s == [s[0]] + rest;
      }
    }
  }

  /** The engine's starting state over the files on disk. */
  function InitialState(files: map<string, Frame>): EngineState
  {
    EngineState(Cache(map[], []), [], files)
  }

  /** `ShapeFileClipper`. */
  class ShapeFileClipper {
    const lib: GeoLib
    const clipExtent: Frame
    const outputPath: Option<string>
    const outputFilePostfix: string
    var projectedClipExtents: map<string, Frame>
    var log: seq<LogEntry>
    ghost var reprojections: seq<string>

    ghost function CacheState(): Cache
      reads this`projectedClipExtents, this`reprojections
    {
      Cache(projectedClipExtents, reprojections)
    }

    ghost function State(fs: FileSystem): EngineState
      reads this, fs
    {
      EngineState(CacheState(), log, fs.files)
    }

    ghost predicate Valid()
      reads this`projectedClipExtents, this`reprojections
    {
      CacheInv(lib, clipExtent, CacheState())
    }

    /** The clip extent is read by the caller and passed in. */
    constructor (lib: GeoLib, clipExtent: Frame, outputPath: Option<string>, outputFilePostfix: string)
      ensures Valid()
      ensures this.lib == lib && this.clipExtent == clipExtent
      ensures this.outputPath == outputPath && this.outputFilePostfix == outputFilePostfix
      ensures CacheState() == Cache(map[], []) && log == []
    {
      this.lib := lib;
      this.clipExtent := clipExtent;
      this.outputPath := outputPath;
      this.outputFilePostfix := outputFilePostfix;
      projectedClipExtents := map[];
      log := [];
      reprojections := [];
    }

    /** `__clip_data`. */
    method ClipData(dataFrame: Frame) returns (clipped: Frame)
      requires Valid()
      modifies this`projectedClipExtents, this`reprojections
      ensures Valid()
      ensures (clipped, CacheState()) == ClipWithCache(lib, clipExtent, old(CacheState()), dataFrame)
    {
      ExtentForSound(lib, clipExtent, CacheState(), dataFrame.crs);
      var extent := clipExtent;
      if extent.crs != dataFrame.crs {
        var key := Key(dataFrame.crs);
        if key in projectedClipExtents {
          extent := projectedClipExtents[key];
        } else {
          extent := Reproject(lib, extent, dataFrame.crs);
          projectedClipExtents := projectedClipExtents[key := extent];
          reprojections := reprojections + [key];
        }
      }
      clipped := ClipTo(lib, dataFrame, extent);
    }

    /** `__clip`. */
    method ClipShapeFile(fs: FileSystem, shapeFile: string) returns (r: Result<Decision, ClipError>)
      requires Valid()
      modifies this`projectedClipExtents, this`reprojections
      ensures Valid()
      ensures (r, CacheState()) == ClipFile(lib, clipExtent, old(CacheState()), fs.files, shapeFile)
    {
      var frame := fs.ReadFile(shapeFile);
      if frame.None? {
        return Failure(UnreadableFile(shapeFile));
      }
      var shapeFileName := Basename(shapeFile);
      var dataFrame := new DataFrame(frame.value);
      var isPolygon := IsPolygonFeatureSet(dataFrame.Value(), true);
      if isPolygon.None? {
        return Failure(NoRowZero(shapeFile));
      }
      if isPolygon.value {
        dataFrame := FixPolygons(lib, dataFrame);
      }
      var validValues, nonValidValues := CheckGeometries(lib, dataFrame);
      var clippedDataFrame: Option<Frame> := None;
      if AnyIntersects(lib, validValues.rows, UnaryUnion(lib, clipExtent)) {
        var clipped := ClipData(validValues);
        clippedDataFrame := Some(clipped);
      }
      if clippedDataFrame.None? || |clippedDataFrame.value.rows| == 0 {
        return Success(Decision(None, nonValidValues, IgnoredMessage(shapeFileName)));
      }
      return Success(Decision(clippedDataFrame, nonValidValues, ClippedMessage(shapeFileName)));
    }

    /** `__save_shape_file`. */
    method SaveShapeFile(fs: FileSystem, dataFrame: Frame, shapeFile: string) returns (outputFilePath: string)
      modifies fs
      ensures outputFilePath == ClippedOutputFilePath(shapeFile, outputPath, outputFilePostfix)
      ensures fs.files == old(fs.files)[outputFilePath := dataFrame]
    {
      outputFilePath := ClippedOutputFilePath(shapeFile, outputPath, outputFilePostfix);
      fs.WriteFile(outputFilePath, dataFrame);
    }

    /** The timed clip half shared by `clip` and `clip_and_project`. */
    method ClipAndLog(fs: FileSystem, shapeFile: string, timer: ExecutionTimer, clock: Clock) returns (result: Result<Decision, ClipError>)
      requires Valid()
      requires timer.startTime == clock.start
      modifies this`projectedClipExtents, this`reprojections, this`log
      ensures Valid()
      ensures (result, State(fs)) == ClipStep(lib, clipExtent, old(State(fs)), shapeFile, clock)
    {
      ghost var st := State(fs);
      result := ClipShapeFile(fs, shapeFile);
      ghost var cache := CacheState();
      assert ClipFile(lib, clipExtent, st.cache, st.files, shapeFile) == (result, cache);
      if result.Success? {
        var t := timer.GetRunningTime(clock.clipped);
        log := log + [LogEntry(result.value.message, Some(result.value.ignored), t)];
        ghost var st' := EngineState(cache, st.log + [ClipEntry(result.value, clock)], st.files);
        assert State(fs) == st';
        assert ClipStep(lib, clipExtent, st, shapeFile, clock) == (result, st');
      } else {
        assert State(fs) == st;
        assert ClipStep(lib, clipExtent, st, shapeFile, clock) == (result, st);
      }
    }

    /** The timed save half shared by `clip` and `clip_and_project`. */
    method SaveAndLog(fs: FileSystem, shapeFile: string, clipped: Option<Frame>, timer: ExecutionTimer, clock: Clock, mode: Mode)
      returns (err: Option<ClipError>)
      requires timer.startTime == clock.reset
      modifies this`log, fs
      ensures (err, State(fs)) == SaveStep(lib, old(State(fs)), ClippedOutputFilePath(shapeFile, outputPath, outputFilePostfix), clipped, clock, mode)
    {
      ghost var st := State(fs);
      ghost var out := ClippedOutputFilePath(shapeFile, outputPath, outputFilePostfix);
      if clipped.None? {
        assert SaveStep(lib, st, out, clipped, clock, mode) == (None, st);
        return None;
      }
      var saved := clipped.value;
      if mode.Project? {
        var projected := ProjectDataFrame(lib, saved, mode.epsgCode);
        if projected.None? {
          assert SaveStep(lib, st, out, clipped, clock, mode) == (Some(UnknownCrs(mode.epsgCode)), st);
          return Some(UnknownCrs(mode.epsgCode));
        }
        saved := projected.value;
      }
      var outputFilePath := SaveShapeFile(fs, saved, shapeFile);
      var t := timer.GetRunningTime(clock.saved);
      var message := if mode.ClipOnly? then SavedMessage(outputFilePath) else ProjectedMessage(outputFilePath);
      log := log + [LogEntry(message, None, t)];
      err := None;
      ghost var st' := EngineState(st.cache, st.log + [SaveEntry(message, clock)], st.files[out := saved]);
      assert LogEntry(message, None, t) == SaveEntry(message, clock);
      assert State(fs) == st';
      assert SaveStep(lib, st, out, clipped, clock, mode) == (None, st');
    }

    /** `clip`. */
    method Clip(fs: FileSystem, shapeFile: string, clock: Clock) returns (err: Option<ClipError>)
      requires Valid()
      modifies this`projectedClipExtents, this`reprojections, this`log, fs
      ensures Valid()
      ensures (err, State(fs)) == FileStep(lib, clipExtent, outputPath, outputFilePostfix, old(State(fs)), shapeFile, clock, ClipOnly)
    {
      var timer := new ExecutionTimer(clock.start);
      var result := ClipAndLog(fs, shapeFile, timer, clock);
      if result.Failure? {
        return Some(result.error);
      }
      timer.Reset(clock.reset);
      err := SaveAndLog(fs, shapeFile, result.value.clipped, timer, clock, ClipOnly);
    }

    /** `clip_and_project`. */
    method ClipAndProject(fs: FileSystem, shapeFile: string, epsgCode: string, clock: Clock) returns (err: Option<ClipError>)
      requires Valid()
      modifies this`projectedClipExtents, this`reprojections, this`log, fs
      ensures Valid()
      ensures (err, State(fs)) == FileStep(lib, clipExtent, outputPath, outputFilePostfix, old(State(fs)), shapeFile, clock, Project(epsgCode))
    {
      var timer := new ExecutionTimer(clock.start);
      var result := ClipAndLog(fs, shapeFile, timer, clock);
      if result.Failure? {
        return Some(result.error);
      }
      timer.Reset(clock.reset);
      err := SaveAndLog(fs, shapeFile, result.value.clipped, timer, clock, Project(epsgCode));
    }
  }

  /** The module-level `clip_and_project`: one engine for the whole batch,
      each file in the given order. Reading the clip extent is the engine's
      first act; the log is returned so that callers can see it. */
  method ClipAndProjectBatch(lib: GeoLib, fs: FileSystem, shapeFiles: seq<string>, clipShapeFile: string,
                             outputPath: Option<string>, outputFilePostfix: string, epsgCode: string,
                             clocks: seq<Clock>)
    returns (err: Option<ClipError>, log: seq<LogEntry>)
    requires |clocks| == |shapeFiles|
    modifies fs
    ensures clipShapeFile !in old(fs.files) ==>
              err == Some(UnreadableFile(clipShapeFile)) && log == [] && fs.files == old(fs.files)
    ensures clipShapeFile in old(fs.files) ==>
              var (e, st) := Batch(lib, old(fs.files)[clipShapeFile], outputPath, outputFilePostfix,
                                   InitialState(old(fs.files)), shapeFiles, clocks, Project(epsgCode));
              err == e && log == st.log && fs.files == st.files
  {
    var clipExtent := fs.ReadFile(clipShapeFile);
    if clipExtent.None? {
      return Some(UnreadableFile(clipShapeFile)), [];
    }
    var clipper := new ShapeFileClipper(lib, clipExtent.value, outputPath, outputFilePostfix);
    err := ClipEach(clipper, fs, shapeFiles, epsgCode, clocks);
    log := clipper.log;
  }

  /** The loop of the module-level `clip_and_project`: each file in order
      through one engine, stopping at the first exception. */
  method ClipEach(clipper: ShapeFileClipper, fs: FileSystem, shapeFiles: seq<string>, epsgCode: string, clocks: seq<Clock>)
    returns (err: Option<ClipError>)
    requires |clocks| == |shapeFiles|
    requires clipper.Valid()
    modifies clipper`projectedClipExtents, clipper`reprojections, clipper`log, fs
    ensures clipper.Valid()
    ensures (err, clipper.State(fs))
         == Batch(clipper.lib, clipper.clipExtent, clipper.outputPath, clipper.outputFilePostfix,
                  old(clipper.State(fs)), shapeFiles, clocks, Project(epsgCode))
  {
    ghost var whole := Batch(clipper.lib, clipper.clipExtent, clipper.outputPath, clipper.outputFilePostfix,
                             clipper.State(fs), shapeFiles, clocks, Project(epsgCode));
    var i := 0;
    while i < |shapeFiles|
      invariant 0 <= i <= |shapeFiles|
      invariant clipper.Valid()
      invariant whole == Batch(clipper.lib, clipper.clipExtent, clipper.outputPath, clipper.outputFilePostfix,
                               clipper.State(fs), shapeFiles[i..], clocks[i..], Project(epsgCode))
    {
      assert shapeFiles[i..][1..] == shapeFiles[i + 1..];
      assert clocks[i..][1..] == clocks[i + 1..];
      ghost var before := clipper.State(fs);
      var e := clipper.ClipAndProject(fs, shapeFiles[i], epsgCode, clocks[i]);
      BatchFirst(clipper.lib, clipper.clipExtent, clipper.outputPath, clipper.outputFilePostfix,
                 before, shapeFiles[i..], clocks[i..], Project(epsgCode), e, clipper.State(fs));
      if e.Some? {
        return e;
      }
      i := i + 1;
    }
    return None;
  }

  /** The characters `str.strip()` removes here: ASCII whitespace. */
  predicate IsWhitespace(c: char)
  {
    c == ' ' || (9 <= c as int <= 13) || (28 <= c as int <= 31)
  }

  /** `s` with leading whitespace removed. */
  function TrimStart(s: string): (r: string)
    ensures r == [] <==> forall i :: 0 <= i < |s| ==> IsWhitespace(s[i])
    decreases |s|
  {
    if s != [] && IsWhitespace(s[0]) then TrimStart(s[1..]) else s
  }

  /** The GUI's choice per file: a missing or blank EPSG code runs `clip`,
      anything else runs `clip_and_project` with the code as typed. */
  function Dispatch(epsgCode: Option<string>): (m: Mode)
    ensures m == ClipOnly <==>
              epsgCode.None? || forall i :: 0 <= i < |epsgCode.value| ==> IsWhitespace(epsgCode.value[i])
    ensures m.Project? ==> m.epsgCode == epsgCode.value
  {
    if epsgCode.None? || epsgCode.value == [] || TrimStart(epsgCode.value) == [] then ClipOnly
    else Project(epsgCode.value)
  }
}
