# Shapefile clipper — a Dafny model

This project models the core of a tool that clips a batch of ESRI shapefiles against one clip
extent. For each file it optionally reprojects the clipped result to a target EPSG code, writes
it next to the input or into an output directory, and keeps a log of every step.

The model covers:

- **The clip engine** (`ShapeFileClipper` in shape_file_clipper.py), module `Clipper`.
  - Its state: a master clip extent, a flyweight cache of that extent reprojected into other
    coordinate reference systems (keyed by `str(crs)`, filled on a miss, never emptied), and an
    append-only log.
  - Each public call (`clip`, `clip_and_project`) is a pure step function over
    `EngineState(cache, log, files)`: `ClipStep`, `SaveStep`, `FileStep`.
  - The class methods are proved to perform exactly those steps. The batch loop is proved to
    perform `Batch`.
  - The lemmas state the cache invariant (each entry is the master reprojected into its key's
    CRS, and each key is reprojected once), the per-file decision, the output-path policy, and
    how the log grows.
- **The earlier, cache-less engine** of data_prep.py, module `DataPrep`.
  - It clips against the master extent as read.
  - Its two skip messages tell "no overlap" apart from "nothing left".
  - Its `clip_and_project` logs the full output path.
  - Helpers that data_prep.py duplicates from geo_util.py and shape_file_clipper.py are modelled
    once and shared: `check_geometries` (data_prep.py:25-31), `project_data_frame`
    (data_prep.py:46-49), the timer (data_prep.py:52-65), the log entry (data_prep.py:68-81) and
    the output path (data_prep.py:92-97).
- **The geometry helpers** of geo_util.py, module `GeoUtil`.
  - The validity partition, which adds an `is_valid` column in place and keeps the row order.
  - Polygon repair by `buffer(0)`, done in place.
  - The row-0 geometry-type test that decides whether repair runs.
  - Reprojection by EPSG code.
- **The observer list** of observer.py, module `Observer`: a duplicate-free list with
  add-if-absent, remove-first-occurrence and in-order notification.

Supporting modules:

- `Geo`: geometries, CRSs, feature collections and the file system. The geometry and projection
  libraries are uninterpreted functions in a `GeoLib` value.
- `Paths`: the POSIX `os.path` functions the output path is built from.
- `ClipLog`: the timer and the log entry with its `__repr__`.
- `Seqs`: order-preserving selection.
- `Wrappers`: `Option`, `Result`, `Outcome`.

The overlap pre-check of shape_file_clipper.py tests the valid rows against the master extent in
the master's own CRS, even when the file is in another CRS; only the clip proper uses the
reprojected extent. The model keeps this exactly as written.

## Model

| member | source | states |
|---|---|---|
| Paths.BasenameIsLastComponent | shape_file_clipper.py:77 | `basename` is the last component: a suffix of the path that holds no separator and is the whole path or starts right after a separator |
| Paths.DirnameIsPrefix | shape_file_clipper.py:80 | `dirname` is a prefix of the path, a normal directory (no trailing separator unless it is the root), empty exactly when the path has no separator, and separated from the base name by separators only |
| Paths.SplitExtParts | shape_file_clipper.py:77 | `splitext`: stem + extension is the name again; the extension is empty, or a dot followed by neither a separator nor another dot; an extension is split off exactly when the last dot lies after the last separator with a non-dot character between them |
| Paths.SplitExtOfStemAndExt | shape_file_clipper.py:77 | a plain name made of a stem with some non-dot character and a one-dot extension splits into exactly that stem and that extension ("roads.shp" into "roads" and ".shp") |
| Paths.ClippedFileNameInsertsPostfix | shape_file_clipper.py:77-78 | the output name of a plain input name "stem.ext" is stem + postfix + ".ext" |
| Paths.ClippedFileNameShape | shape_file_clipper.py:76-78 | the new file name is the base name lengthened by the postfix, is the base name itself when the postfix is empty, and is a plain file name when the postfix holds no separator |
| Paths.JoinSplits | shape_file_clipper.py:80-81 | `dirname` and `basename` take apart what `join` of a directory and a plain file name built |
| Paths.OutputPathLocation | shape_file_clipper.py:76-81 | the output file lands in `dirname(input)` when the output path is None and in the output path otherwise, under the clipped file name |
| Paths.EmptyOutputPathIsNotNone | shape_file_clipper.py:79-81 | only None means "beside the input": an empty output path gives the bare file name |
| Geo.Key | shape_file_clipper.py:88 | the cache key `str(crs)` names exactly one CRS |
| Geo.Reproject | shape_file_clipper.py:92 | `to_crs` gives a frame in the target CRS with as many rows as before |
| Geo.TransformRowsPointwise | geo_util.py:42 | row i of a reprojected frame is row i with its geometry transformed and its attributes kept |
| Geo.AnyIntersectsSome | shape_file_clipper.py:115 | `any(valid.intersects(g))` holds exactly when some row's geometry intersects `g` |
| Geo.NonEmptyRowsMembers | shape_file_clipper.py:98 | `rows[~rows.is_empty]` keeps exactly the rows whose geometry is not empty |
| Geo.NonEmptyRowsKeepsOrder | shape_file_clipper.py:98 | dropping empty geometries keeps the row order |
| Geo.ClipToDropsEmpty | shape_file_clipper.py:96-98 | the clip result holds exactly the non-empty rows `clip_shp` returns |
| Geo.FileSystem.ReadFile | shape_file_clipper.py:103 | `read_file` yields the stored collection, and fails exactly when there is none |
| Geo.FileSystem.WriteFile | shape_file_clipper.py:125 | `to_file` overwrites the one path it writes |
| Seqs.FilterMembers | geo_util.py:14-15 | a boolean-mask selection keeps exactly the rows the mask accepts |
| Seqs.FilterAppend | geo_util.py:14-15 | selection keeps the source order: selecting from a concatenation concatenates the selections |
| Seqs.FilterPartition | geo_util.py:14-15 | two exclusive, covering masks split the rows: every row lands in exactly one selection |
| GeoUtil.AnnotatedPointwise | geo_util.py:12 | the `is_valid` column of row i is the validity of row i's geometry, and nothing else in the row changes |
| GeoUtil.AnnotatedFlagged | geo_util.py:12 | every annotated row carries its own geometry's validity flag |
| GeoUtil.CheckGeometries | geo_util.py:6-17 | the frame gains the `is_valid` column in place, and the two results are the rows marked valid and the rows marked invalid, in the frame's CRS |
| GeoUtil.CheckGeometriesPartitions | geo_util.py:12-15 | the valid and invalid outputs together hold every input row exactly once |
| GeoUtil.CheckGeometriesSorts | geo_util.py:12-15 | row i goes to the valid output exactly when its geometry is valid, and to the invalid output exactly when it is not |
| GeoUtil.CheckGeometriesKeepsOrder | geo_util.py:14-15 | both outputs keep the source order |
| GeoUtil.AnnotatedAppend | geo_util.py:12 | annotation works row by row |
| GeoUtil.BufferedPointwise | geo_util.py:25 | row i of the repaired rows is row i with its geometry replaced by its `buffer(0)` image |
| GeoUtil.FixPolygons | geo_util.py:20-26 | replaces every geometry by its `buffer(0)` image in place, keeping the row count, the other columns and the CRS, and returns the same frame object |
| GeoUtil.IsPolygonFeatureSet | geo_util.py:29-34 | None exactly for an empty frame (the KeyError); true exactly when row 0 is a Polygon, or a MultiPolygon when the flag is set |
| GeoUtil.PolygonTestReadsRowZero | geo_util.py:32-34 | the test depends on nothing but the geometry type at row 0 |
| GeoUtil.MultipolygonFlag | geo_util.py:29-34 | a Polygon passes with either flag value; a MultiPolygon passes exactly when the flag is set |
| GeoUtil.ProjectDataFrame | geo_util.py:37-43 | succeeds exactly when the EPSG code is known; the result is in that CRS and has as many rows |
| GeoUtil.PreparedParts | shape_file_clipper.py:107-112 | after optional repair and the check, both parts keep the file's CRS, the valid part holds only valid geometries, the invalid part only invalid ones, and no row is lost |
| ClipLog.ExecutionTimer.constructor | shape_file_clipper.py:30-32 | a new timer starts at the current reading |
| ClipLog.ExecutionTimer.GetRunningTime | shape_file_clipper.py:34-36 | running time is the current reading minus the start |
| ClipLog.ExecutionTimer.Reset | shape_file_clipper.py:38-40 | a reset restarts the timer at the current reading |
| ClipLog.ReprSections | shape_file_clipper.py:58-64 | the printed entry starts with its message and ends with its execution time; the ignored-values section follows the message exactly when some rows were ignored |
| Clipper.ExtentForSound | shape_file_clipper.py:85-93 | the extent used is the master when the CRSs match, and otherwise equals a fresh reprojection of the master. A match or a hit leaves the cache as it was. A miss adds exactly one entry, under `str(crs)`, and one reprojection. The cache invariant holds and nothing is removed or overwritten |
| Clipper.ClipWithCacheSound | shape_file_clipper.py:83-98 | clipping through the cache gives what clipping against a fresh reprojection gives; the result is in the input's CRS and holds no empty geometry |
| Clipper.ReprojectionsMatchEntries | shape_file_clipper.py:89-93 | over the engine's lifetime there are as many reprojections as cached CRS keys: at most one per key |
| Clipper.Decide | shape_file_clipper.py:114-121 | the invalid rows are always returned. Nothing clipped comes with the "Ignored." message, and that message means nothing was clipped. A clipped result is non-empty, in the valid rows' CRS, and comes with "successfully clipped.". Without overlap the cache is untouched |
| Clipper.DecideClips | shape_file_clipper.py:114-121 | with the cache invariant, the decision keeps exactly the clip of the valid rows against the extent in their CRS when some valid row overlaps the master extent and that clip is non-empty, and nothing otherwise |
| Clipper.DecideDropsEmpty | shape_file_clipper.py:116-121 | a clipped result holds no empty geometry |
| Clipper.SkipWithoutOverlap | shape_file_clipper.py:115-119 | when no valid row intersects the unprojected master extent, the clip does not run: one "No features in … Ignored." entry carrying the invalid rows is logged, and the cache and the files are unchanged |
| Clipper.ClipFileCache | shape_file_clipper.py:100-121 | `__clip` keeps the cache invariant, loses no entry, and adds at most the key of the file's CRS; the cache is untouched when that CRS is the master's or already cached |
| Clipper.ClipFileDecision | shape_file_clipper.py:100-121 | `__clip` fails exactly for a missing or empty file, with the matching error. An unclipped result has the "Ignored." message. A clipped one has "successfully clipped.", is non-empty, is in the file's CRS and holds no empty geometry |
| Clipper.ClipFile | shape_file_clipper.py:100-121 | a failing `__clip` leaves the cache unchanged |
| Clipper.ClipFileClips | shape_file_clipper.py:100-121 | for a readable non-empty file `__clip` succeeds, reports the invalid rows of the prepared file, and keeps exactly the clip of its valid rows against the extent in the file's CRS when some valid row overlaps the master extent and that clip is non-empty; nothing otherwise |
| Clipper.ClipStepEffect | shape_file_clipper.py:133-136 | the clip half leaves the files alone, appends exactly one entry on success, changes nothing on failure, and keeps the cache invariant |
| Clipper.SaveStepEffect | shape_file_clipper.py:138-161 | the save half appends one entry exactly when something was clipped and saved. It writes the derived output path and nothing else: the clipped rows under `clip` with "⟨full path⟩ saved.", the rows in the target CRS under `clip_and_project` with "⟨base name⟩ projected and saved.". An unknown EPSG code changes nothing |
| Clipper.FileStepEffect | shape_file_clipper.py:128-161 | one call only appends to the log: one entry when nothing was clipped, two when a file was saved, none when the file could not be read. When only one entry is added, no file is written. The cache keeps its invariant and gains at most the file's CRS key |
| Clipper.FileStepSaves | shape_file_clipper.py:138-161 | a call that logs two entries wrote a non-empty file at the derived output path: in the input's CRS without empty geometries under `clip`, in the target CRS under `clip_and_project` |
| Clipper.FileStepSavesOverlap | shape_file_clipper.py:128-161 | a readable non-empty file whose valid rows overlap the master extent and whose clip is non-empty is clipped, saved and logged twice: the clip entry with the invalid rows, then "⟨full path⟩ saved." or "⟨base name⟩ projected and saved."; the output path then holds the clip, or the clip reprojected to a known EPSG code, and no other file changes |
| Clipper.BatchFirst | shape_file_clipper.py:170-171 | after the first file, the batch stops on an error and otherwise continues with the rest |
| Clipper.BatchSequential | shape_file_clipper.py:168-171 | the files go in order through one shared engine: a batch over p1 + p2 is p2 run from the state p1 left, and an error in p1 ends the batch |
| Clipper.BatchEffect | shape_file_clipper.py:168-171 | over a batch of n files the log only grows at its end, by between n and 2n entries when no file failed; the shared cache keeps its invariant and loses nothing |
| Clipper.ShapeFileClipper.constructor | shape_file_clipper.py:69-74 | a new engine has an empty cache and an empty log |
| Clipper.ShapeFileClipper.ClipData | shape_file_clipper.py:83-98 | `__clip_data` returns and caches what `ClipWithCache` prescribes |
| Clipper.ShapeFileClipper.ClipShapeFile | shape_file_clipper.py:100-121 | `__clip` returns what `ClipFile` prescribes and leaves the cache as `ClipFile` prescribes |
| Clipper.ShapeFileClipper.SaveShapeFile | shape_file_clipper.py:123-126 | writes to the derived output path, changes only that file, and returns the path |
| Clipper.ShapeFileClipper.ClipAndLog | shape_file_clipper.py:131-136 | the timed clip half performs `ClipStep` |
| Clipper.ShapeFileClipper.SaveAndLog | shape_file_clipper.py:138-143 | the timed save half performs `SaveStep` |
| Clipper.ShapeFileClipper.Clip | shape_file_clipper.py:128-143 | `clip` performs `FileStep` in ClipOnly mode and keeps the cache invariant |
| Clipper.ShapeFileClipper.ClipAndProject | shape_file_clipper.py:145-161 | `clip_and_project` performs `FileStep` in Project mode and keeps the cache invariant |
| Clipper.ClipEach | shape_file_clipper.py:170-171 | the batch loop performs `Batch` over the files in order |
| Clipper.ClipAndProjectBatch | shape_file_clipper.py:168-172 | an unreadable clip extent fails before anything happens; otherwise the files and the log end as `Batch` from an empty engine prescribes |
| Clipper.TrimStart | shape_file_clipper_app.py:91 | stripping leaves nothing exactly when every character is whitespace |
| Clipper.Dispatch | shape_file_clipper_app.py:90-94 | a missing or blank EPSG code runs `clip`; anything else runs `clip_and_project` with the code as typed |
| DataPrep.AsWrittenNeverRepairs | data_prep.py:41-43 | as written, the polygon test is false for every non-empty frame |
| DataPrep.PolygonFrameNotRepaired | data_prep.py:41-43 | a frame whose row 0 is a Polygon: the test as written rejects it, the intended test accepts it |
| DataPrep.IntendedRepairDecision | data_prep.py:41-43 | the corrected test repairs exactly when row 0 is a Polygon |
| DataPrep.CorrectedTestAgreesOffPolygons | data_prep.py:41-43 | the corrected and the as-written polygon tests differ only on frames whose row 0 is a Polygon |
| DataPrep.FixPolygonsInPlace | data_prep.py:34-38 | replaces the geometry column in place by its `buffer(0)` image, keeps the CRS, and returns nothing |
| DataPrep.DecideOutcomes | data_prep.py:118-126 | no overlap gives "… does not overlap with clipping extent. Ignored.". Overlap with nothing left gives "No features of … within clipping extent.". Overlap with something left gives the clip against the master extent itself with "successfully clipped."; such a clip is non-empty, in the valid rows' CRS and without empty geometries. The invalid rows are always reported |
| DataPrep.ClipStepEffect | data_prep.py:104-140 | the clip half fails exactly for a missing or empty file and then changes nothing; on success it appends exactly one entry and leaves the files alone |
| DataPrep.SaveStepEffect | data_prep.py:142-164 | the save half appends one entry exactly when something was clipped and saved, writes only the output path, and logs the full path under both calls |
| DataPrep.FileStepEffect | data_prep.py:133-164 | one call only appends to the log: one entry when nothing was clipped, two when a file was saved. An unreadable or empty file changes nothing. A one-entry call writes no file |
| DataPrep.FileStepSavesOverlap | data_prep.py:133-164 | a readable non-empty file whose valid rows overlap the master extent and whose clip is non-empty is clipped, saved and logged twice, the save entry carrying the full output path; the output path then holds the clip, or the clip reprojected to a known EPSG code, and no other file changes |
| DataPrep.BatchFirst | data_prep.py:173-174 | after the first file, the batch stops on an error and otherwise continues with the rest |
| DataPrep.BatchLog | data_prep.py:171-175 | over n files the log only grows at its end, by between n and 2n entries when no file failed |
| DataPrep.ShapeFileClipper.constructor | data_prep.py:86-90 | a new engine has an empty log |
| DataPrep.ShapeFileClipper.ClipData | data_prep.py:99-102 | clips against the master extent itself, forcing the input's CRS onto the result; the rows kept are exactly the rows `clip_shp` returns whose geometry is not empty |
| DataPrep.ShapeFileClipper.ClipShapeFile | data_prep.py:104-126 | `__clip` returns what `ClipFile` prescribes |
| DataPrep.ShapeFileClipper.SaveShapeFile | data_prep.py:128-131 | writes to the derived output path, changes only that file, and returns the path |
| DataPrep.ShapeFileClipper.ClipAndLog | data_prep.py:135-140 | the timed clip half performs `ClipStep` |
| DataPrep.ShapeFileClipper.SaveAndLog | data_prep.py:142-147 | the timed save half performs `SaveStep` |
| DataPrep.ShapeFileClipper.Clip | data_prep.py:133-147 | `clip` performs `FileStep` in ClipOnly mode |
| DataPrep.ShapeFileClipper.ClipAndProject | data_prep.py:149-164 | `clip_and_project` performs `FileStep` in Project mode |
| DataPrep.ClipEach | data_prep.py:173-174 | the batch loop performs `Batch` over the files in order |
| DataPrep.ClipAndProjectBatch | data_prep.py:171-175 | an unreadable clip extent fails before anything happens; otherwise the files and the log end as `Batch` from an empty log prescribes |
| Observer.WithObserverSpec | observer.py:17-19 | after adding, `o` is registered. It was appended at the end if absent, and the list is unchanged if present. The list stays duplicate-free, and adding twice is adding once |
| Observer.RemoveFirstAt | observer.py:21-22 | removal takes out the element at the first index of `o` and keeps the order of the rest |
| Observer.RemoveFirstSpec | observer.py:21-22 | removal shortens the list by one and takes out exactly one copy of `o` |
| Observer.RemoveFirstKeepsDistinct | observer.py:21-22 | in a duplicate-free list, removal takes `o` out entirely and keeps the list duplicate-free |
| Observer.AddThenRemove | observer.py:17-22 | removing an observer just added to a list that did not hold it gives the list back |
| Observer.Observable.constructor | observer.py:14-15 | a new observable has no observers |
| Observer.Observable.AddObserver | observer.py:17-19 | the list becomes `WithObserver(old, o)` and stays duplicate-free |
| Observer.Observable.DeleteObserver | observer.py:21-22 | fails, changing nothing, exactly when `o` is not registered; otherwise removes its first occurrence, after which `o` is absent |
| Observer.Observable.NotifyObservers | observer.py:24-26 | each observer is called once, in list order, and the list does not change |

## Left out

- Geometry and projection: `is_valid`, `is_empty`, `buffer(0.0)`, `intersects`, `unary_union`,
  `to_crs`, `clip_shp` and `CRS.from_epsg(...).to_wkt()` are uninterpreted fields of `GeoLib`.
  Floating-point geometry is not modelled. A CRS is its definition string, and two CRSs are
  equal when their strings are.
- File I/O: `read_file` and `to_file` are a map from path to feature collection. Write failures,
  the shapefile driver and the encoding are not modelled. An unreadable file is a missing key.
- Timing: `time.time()` readings are passed in as a `Clock` for each call. `log_running_time`,
  `init_logging` and every `logging.info` call only write to the log output and are left out.
- `print_log` and data_prep.py's final `print_log()`: the batch method returns the log instead of
  printing it. `ClipLog.Repr` models how one entry prints, with the printing of a frame and of a
  float as parameters.
- `run_test` and the test constants: a test driver that clears a directory and runs one batch.
- The GUI (shape_file_clipper_app.py) beyond the per-file dispatch rule, which is `Dispatch`.
- Clipper.TrimStart: whitespace is ASCII whitespace plus the separators 0x1c-0x1f. The other
  Unicode whitespace that `str.strip` also removes is not modelled.
- Clipper.Batch and DataPrep.Batch: a failing file ends the batch, because neither
  `clip_and_project` loop catches anything; the failure is not logged and later files are not
  processed.
- GeoLib: every library operation is total. The exceptions the libraries can raise are not
  modelled: `to_crs` of a frame without a CRS (a shapefile without a .prj), a failing
  `buffer(0.0)`, and earthpy's `clip_shp` refusing a frame that does not overlap the extent it is
  given.
- Clipper.ClipFile: because `clip_shp` is total here, a file that passes the overlap pre-check
  against the unprojected master extent but does not overlap the reprojected extent is logged as
  "Ignored."; the library may raise at shape_file_clipper.py:96 instead. A file without a CRS is
  likewise reprojected successfully here, where `to_crs` raises at line 92.
- DataPrep.ClipFile: repair is decided by the corrected polygon test (row 0 a Polygon), not by the
  test as written at data_prep.py:41-43, which never repairs. The two differ only on files whose
  row 0 is a Polygon (`DataPrep.CorrectedTestAgreesOffPolygons`); for those the model buffers the
  geometries before the validity check, where the code as written checks them unrepaired. The same
  holds for the methods and the batch built on it.
- Paths: the POSIX `os.path` rules only (separator `/`). On Windows `ntpath` applies, where `\`
  is the separator, `/` is accepted as well and drive letters are split off; that is not modelled.
- `loc[0, "geometry"]` is read as the first row. The frames tested are fresh from `read_file`
  and so carry the default row labels 0, 1, …; an empty frame raises KeyError, which is the
  `NoRowZero` error.
- Observer.Observable.NotifyObservers: `update` is modelled as the call being recorded. An
  observer whose `update` changes the list during notification is not modelled; the list is
  unchanged during the loop. The abstract `Observer` class has no behaviour to model.

## Findings

| source | as written | input that shows it | evidently intended | confidence | as-written member | corrected member |
|---|---|---|---|---|---|---|
| data_prep.py:41-43 | `is_polygon_feature_set` compares the geometry object at row 0 with the string "Polygon"; a geometry never equals a string, so the test is false and `fix_polygons` never runs | a shapefile whose row 0 is a Polygon, e.g. one Polygon feature in EPSG:2961: repair is skipped | compare the geometry's type, as geo_util.py:34 does, so that polygon layers are repaired before the validity check; the model's `DataPrep.ClipFile` uses the corrected test | high, not executed | DataPrep.PolygonFrameNotRepaired | DataPrep.IntendedRepairDecision |
