# Spatial aggregation of monthly climate rasters

A Dafny model of `Spatial_aggregation.py`, the batch script that turns a
folder of monthly climate rasters (precipitation, mean, minimum and
maximum temperature) into two things:

- one aggregate raster per variable, the cell-by-cell mean of all that
  variable's rasters with no-data cells left out;
- a table of per-file means with one row per month and one column per
  variable.

The model covers six modules:

- `Wrappers` holds the `Option` and `Result` types used for missing
  values and errors.
- `Text` holds the Python string built-ins the script relies on:
  `str.lower`, `str.split`, the `in` substring test, `str.endswith`,
  clamped negative slicing, `str.replace`, `os.path.join` and string
  ordering.
- `Raster` holds raster files as values and the no-data-aware mean
  shared by `calculate_raster_mean` and the per-cell reduction. A NaN
  result is `None`.
- `Classifier` holds `parse_filename`. This is the loop over the
  underscore-separated parts of the lower-cased name, where the last
  marked part decides the variable and the month is `filename[-6:-4]`.
- `Aggregate` holds `aggregate_rasters_by_type`. It reads the group,
  stacks the bands, and takes the masked mean per cell. It fails where
  `np.stack` raises, and writes metadata with `dtype` float32 and one
  band.
- `Pipeline` holds the `__main__` block:
  - the directory scan that fills `results[month][type]` and the
    per-type groups, in listing order;
  - the aggregate file names;
  - the aggregation loop in the groups' insertion order;
  - the table sorted by month.

The directory listing is a sequence of names in the order `os.listdir`
returns them. The disk is a map from path to the raster that opening it
gives. Outputs are returned as values rather than written.

Two behaviours of the code worth stating plainly:

- A cell that is no-data in every file of a group is written as NaN
  (`None`): `np.nanmean` of an all-NaN column is NaN
  (Spatial_aggregation.py:55).
- A group whose rasters have different shapes makes `np.stack` raise
  (Spatial_aggregation.py:54), and nothing in the aggregation loop
  (Spatial_aggregation.py:91-94) catches it, so the run stops there
  (`Aborted`) and the table is never produced.

## Model

| member | source | states |
|---|---|---|
| Text.Split | Spatial_aggregation.py:16 | `split("_")` returns at least one piece and no piece contains the separator |
| Text.JoinSplit | Spatial_aggregation.py:16 | joining the pieces of a split with the separator gives back the name |
| Text.SplitJoin | Spatial_aggregation.py:16 | splitting a join of separator-free pieces gives back the pieces |
| Text.Contains | Spatial_aggregation.py:21-27 | the `in` test holds exactly when the marker occurs at some index of the part |
| Text.LessIrreflexive | Spatial_aggregation.py:97 | string order used by `sort_index` is irreflexive |
| Text.LessTransitive | Spatial_aggregation.py:97 | string order is transitive |
| Text.LessTotal | Spatial_aggregation.py:97 | any two different month labels are ordered one way or the other |
| Text.LeastExists | Spatial_aggregation.py:97 | every non-empty finite set of month labels has a least element |
| Classifier.ParseFilename | Spatial_aggregation.py:15-33 | the loop returns the type of the last part that matches a marker (none if no part matches) and always a month, `filename[-6:-4]` |
| Classifier.PartTypeFirstMarker | Spatial_aggregation.py:21-28 | a part is classified as type t exactly when it contains t's marker and none of the markers tested before it |
| Classifier.PartTypeNone | Spatial_aggregation.py:21-28 | a part leaves the type alone exactly when it contains no marker |
| Classifier.UnmarkedWithoutLetters | Spatial_aggregation.py:21-28 | a part without the letters p, a, m cannot contain any marker |
| Classifier.LastMarkedTypeSpec | Spatial_aggregation.py:20-28 | the type is missing exactly when no part is marked; otherwise it is the type of a marked part followed by no marked part |
| Classifier.UnmarkedNameHasNoType | Spatial_aggregation.py:16-28 | a name none of whose parts contains a marker gets no type |
| Classifier.LaterPartWins | Spatial_aggregation.py:20-28 | a marked part overrides whatever type the earlier parts set |
| Classifier.MonthOfShape | Spatial_aggregation.py:32 | the month has at most two characters: those just before the last four for names of length six or more, the first character for length five, empty below |
| Classifier.MonthOfTif | Spatial_aggregation.py:32 | for `stem + ".tif"` the month is the last two characters of the stem (the whole stem if shorter) |
| Raster.Valid | Spatial_aggregation.py:39 | `array[array != nodata]` keeps exactly the non-sentinel samples, each as often as it occurs |
| Raster.ValidAppend | Spatial_aggregation.py:39 | masking distributes over concatenation |
| Raster.MeanIgnoresSentinel | Spatial_aggregation.py:39 | inserting a sentinel sample anywhere leaves the mean unchanged |
| Raster.MeanMissingIffAllSentinel | Spatial_aggregation.py:39 | the mean is NaN exactly when every sample is the sentinel, never zero for lack of samples |
| Raster.MeanBounds | Spatial_aggregation.py:39 | a present mean lies within any bounds of the valid samples |
| Raster.MeanOfConstant | Spatial_aggregation.py:39 | valid samples all equal to c give mean c |
| Raster.MeanSingle | Spatial_aggregation.py:39 | one sample gives itself, or NaN when it is the sentinel |
| Raster.FlattenMembership | Spatial_aggregation.py:38-39 | the flattened band holds exactly the grid's cells |
| Raster.RasterMeanMissing | Spatial_aggregation.py:36-40 | `calculate_raster_mean` is NaN exactly when every cell of band 1 is the file's sentinel |
| Aggregate.CellMeans | Spatial_aggregation.py:55 | the per-cell mean grid has the group's height and width |
| Aggregate.AggregateRasters | Spatial_aggregation.py:42-61 | the read loop, stack and masked mean give exactly the group aggregate of the files read in order, with the first file's metadata |
| Aggregate.AggregateShape | Spatial_aggregation.py:54-61 | aggregation fails exactly for an empty group or unequal shapes; otherwise the output has the first file's shape and metadata with dtype float32 and count 1, and a cell is NaN exactly when every file holds the first file's sentinel there |
| Aggregate.AggregateCellBounds | Spatial_aggregation.py:55 | each present output cell lies within any bounds of the valid inputs at that cell |
| Aggregate.AggregateSingle | Spatial_aggregation.py:55 | a group of one file gives that file's cells, sentinel cells as NaN |
| Aggregate.AggregateIgnoresBlank | Spatial_aggregation.py:55 | adding an all-sentinel raster to a group changes no output cell |
| Pipeline.Record | Spatial_aggregation.py:81-83 | recording creates the month row if missing and sets one cell, leaving every other row and cell as it was |
| Pipeline.ResultsOfUpTo | Spatial_aggregation.py:81-83 | after recording, rows are non-empty, (month, type) is present exactly when some accepted file has it, and it holds the mean of the last such file |
| Pipeline.Scan | Spatial_aggregation.py:71-88 | the scan loop fills results and groups as above, with groups in first-seen type order, each holding its type's paths in listing order |
| Pipeline.GroupsOfStep | Spatial_aggregation.py:86-88 | one accepted file appends its path to the group of its type, creating it (and its place in the order) if missing; a skipped file changes nothing |
| Pipeline.GroupsOfPaths | Spatial_aggregation.py:86-88 | a group exists exactly for a type with a file and holds that type's paths in listing order |
| Pipeline.GroupsOfKeys | Spatial_aggregation.py:86-88 | the group keys are exactly the types of the group order |
| Pipeline.AcceptedPathInItsGroup | Spatial_aggregation.py:72-88 | every accepted file's path is in the group of its own type |
| Pipeline.GroupNonEmptyIff | Spatial_aggregation.py:86-88 | a type's group is non-empty exactly when some accepted file has that type |
| Pipeline.GroupSizesSum | Spatial_aggregation.py:71-88 | the four groups together hold exactly as many paths as there are accepted files |
| Pipeline.PathsOfTypeAppend | Spatial_aggregation.py:71-88 | groups distribute over concatenated listings |
| Pipeline.UnmarkedFileExcluded | Spatial_aggregation.py:72-76 | a file with no marker in any part yields no result and removing it changes no group |
| Pipeline.TypicalNameKey | Spatial_aggregation.py:72-76 | `prec_07.tif` is recorded as Precipitation under month "07" |
| Pipeline.TypeOrderDistinct | Spatial_aggregation.py:86-87 | each type appears at most once in the group order |
| Pipeline.TypeOrderMembers | Spatial_aggregation.py:86-87 | the group order holds exactly the types that received a file |
| Pipeline.TypeOrderFirstSeen | Spatial_aggregation.py:86-87 | a type precedes another in the group order only if a file of it precedes every file of the other |
| Pipeline.PrecipitationFileName | Spatial_aggregation.py:92 | Precipitation is written to `precipitation_aggregated.tif` |
| Pipeline.MeanTemperatureFileName | Spatial_aggregation.py:92 | Mean Temperature is written to `mean_temperature_aggregated.tif` |
| Pipeline.MinTemperatureFileName | Spatial_aggregation.py:92 | Min Temperature is written to `min_temperature_aggregated.tif` |
| Pipeline.MaxTemperatureFileName | Spatial_aggregation.py:92 | Max Temperature is written to `max_temperature_aggregated.tif` |
| Pipeline.AggregateFileNamesDistinct | Spatial_aggregation.py:92 | different types get different aggregate names, so no aggregate overwrites another |
| Pipeline.SortedMonths | Spatial_aggregation.py:97 | the months in strictly ascending string order, each exactly once |
| Pipeline.Summarize | Spatial_aggregation.py:97-99 | one row per month of the results, strictly ascending by month, each row holding that month's cells |
| Pipeline.PathsOfTypeReadable | Spatial_aggregation.py:73-78 | every grouped path is one of the readable files the scan opened |
| Pipeline.GroupAggregateNeverEmpty | Spatial_aggregation.py:86-94 | a group in the order is non-empty, so its aggregation can only fail on shapes |
| Pipeline.WriteGroups | Spatial_aggregation.py:91-94 | the groups are aggregated in insertion order, each written under its type's name, stopping at the first group that fails, which fails on mismatched shapes |
| Pipeline.Run | Spatial_aggregation.py:66-97 | the whole script: aggregates written in first-seen type order, and either all of them plus the table sorted by month, or the prefix before the failing group |

## Left out

- `extract_raster.py` is not part of this model. It is a clipping step run separately on the inputs.
- Reading and writing rasters (rasterio), the CSV (pandas), `os.makedirs` and the printed messages are left out. Reads come from the `disk` map, and writes are returned as `Written` values and a table.
- `os.listdir` becomes the `listing` parameter. Any order it returns is covered.
- Floating point, float32 rounding and IEEE NaN are not modelled. Values are reals and NaN is `None`.
- A file whose `nodata` is `None` is not modelled. Every file has a real sentinel.
- A file that fails to open or has no band 1 is not modelled. Every accepted file is on disk and well-formed, with at least one row and one column.
- `str.lower` is modelled for ASCII letters only. Other characters are kept as they are.
- Pipeline.Summarize: the column order pandas gives the table is not modelled. A row is a map from type to cell, and a missing key is an empty cell.
- Pipeline.Run: files already in the output folder are not modelled. A write is recorded as a path and contents, and overwriting is not tracked.
- Aggregation masks every file of a group with the first file's sentinel, as the code does. A later file with a different sentinel keeps its own sentinel values as data.
