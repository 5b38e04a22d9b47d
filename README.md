# AEMET radar precipitation pipeline, modelled in Dafny

The aemet-radar scripts turn the public precipitation radar product of
AEMET (the Spanish meteorological agency) into gridded daily totals for the
Gelida (GLD) radar. The pipeline has three stages, and all of them work on
one `data` directory:

1. `download_radar.py` reads the `RNN` tar archive. It keeps the members
   that are Gelida six-hour CAPPI GeoTIFFs. Each kept member is saved as
   `GLD_RNN6H_<stamp>.tif`. The name is cut at every `_`. The first
   part that is all digits and at least twelve characters long gives the
   stamp: its first twelve characters, written `YYYYMMDD_HHMM`. When no
   part qualifies, the stamp is the current UTC time in that format. A
   part in which the digits are followed by the extension, as in
   `..._202602131200.tif`, is not all digits. Such a name therefore gets
   the clock's stamp. Members named this way within one minute share
   one output name, and the last one saved overwrites the others
   (`DownloadRadar.GluedStampUsesClock`, `DownloadRadar.DownloadLastWins`).
2. `tiff_to_nc.py` converts each saved GeoTIFF that has no `.nc` yet. It
   decodes the colour legend in the file's `ESCALA` tag into a palette of
   RGB colours with millimetre values. Each pixel gets the value of the
   palette colour nearest to it. Pixels in the yellow band become
   NaN. The result is written as a `precipitation_mm` grid on a
   latitude/longitude grid of pixel centres.
3. `accumulate_24h.py` groups the six-hour `.nc` files by the day in their
   names. For every day with at least four files and no total yet, it
   writes `GLD_RNN24H_<YYYYMMDD>.nc`. Each cell of the total is the sum of
   the valid six-hour values, and NaN where every input is NaN.

The model describes the `data` directory as a value (`DataDir.Store`):
the `.tif` files and the `.nc` files, each a map keyed by name. Each
script's main loop is a method that takes a store and returns the new one.
That method is proved equal to a recursive function over the listing
(`DownloadRadar.DownloadPass`, `TiffToNc.TiffPass`,
`Accumulate24h.DailyPass`), and the lemmas about that function state
what the script promises:

- which files a run writes;
- which files it never touches;
- that a second run changes nothing.

NaN is `None` in an `Option<real>`, and millimetre values are exact reals.
The module `Text` gives the Python string operations the scripts use
(`split`, `in`, `endswith`, `isdigit`, `with_suffix`) a precise meaning.
The module `Pipeline` connects the stages through their file names. A
member saved under the timestamp `YYYYMMDDHHMM` turns into a `.nc` file
that the accumulation's glob matches, and it is filed under the day
`YYYYMMDD`.

Files: `text.dfy`, `data_dir.dfy`, `download_radar.dfy`, `tiff_to_nc.dfy`,
`accumulate_24h.dfy`, `pipeline.dfy`.

## Model

| member | source | states |
|---|---|---|
| `DataDir.Exists` | tiff_to_nc.py:23 | a file exists in the data directory when its name is among the `.tif` or the `.nc` files |
| `TiffToNc.IsYellow` | tiff_to_nc.py:14-16 | a pixel is yellow when red is at least 200, green at least 180 and blue at most 50 |
| `TiffToNc.YellowBandEdges` | tiff_to_nc.py:14-16 | the yellow test is inclusive at r = 200, g = 180 and b = 50, and each of its three bounds alone rejects a pixel just outside it |
| `TiffToNc.TruncInt` | tiff_to_nc.py:42 | `int(x)` truncates toward zero: it is the floor for non-negative x and the ceiling for negative x |
| `TiffToNc.RgbTuple` | tiff_to_nc.py:42 | the colour tuple keeps the first three RGBA components (fewer when the entry is shorter), each truncated |
| `TiffToNc.EntryColour` | tiff_to_nc.py:41-43 | the palette colour of an entry is its `RgbTuple`, component for component |
| `TiffToNc.EntryValue` | tiff_to_nc.py:45-51 | an open-ended range (empty upper bound) is worth its lower bound; otherwise the value is the midpoint, equidistant from both bounds and between them |
| `TiffToNc.PaletteOf` | tiff_to_nc.py:38-56 | a successfully built palette has one colour and one value per legend entry |
| `TiffToNc.BuildPalette` | tiff_to_nc.py:38-56 | the legend loop gives the palette of `PaletteOf`; it succeeds exactly when the legend is non-empty and every entry has at least three colour components, and entry i gives colour i and value i |
| `TiffToNc.Dist2` | tiff_to_nc.py:56-59 | the squared Euclidean distance between two RGB colours, the quantity the tree query minimises |
| `TiffToNc.Dist2Zero` | tiff_to_nc.py:56-59 | the squared colour distance is non-negative and zero exactly for equal colours |
| `TiffToNc.NearestIndex` | tiff_to_nc.py:56-59 | the tree query returns a palette index whose colour is at minimal distance from the pixel |
| `TiffToNc.ExactColourMatch` | tiff_to_nc.py:56-59 | a pixel equal to some palette colour is matched to an entry of exactly that colour |
| `TiffToNc.ClassifyFlat` | tiff_to_nc.py:59-60 | the classification has one value per flattened pixel |
| `TiffToNc.Masked` | tiff_to_nc.py:62-63 | masking keeps the length of the data |
| `TiffToNc.MaskYellow` | tiff_to_nc.py:62-63 | the in-place masking sets exactly the yellow pixels' cells to NaN and leaves every other cell as it was |
| `TiffToNc.Flatten` | tiff_to_nc.py:58 | `reshape(-1, 3)`: the raster's rows of pixels one after another |
| `TiffToNc.FlattenLength` | tiff_to_nc.py:58 | flattening a rows x cols raster gives rows * cols pixels |
| `TiffToNc.FlattenIndex` | tiff_to_nc.py:58 | pixel (r, c) lands at position r * cols + c of `reshape(-1, 3)` |
| `TiffToNc.Reshape` | tiff_to_nc.py:65 | reshaping rows * cols values gives a rows x cols grid |
| `TiffToNc.ReshapeIndex` | tiff_to_nc.py:65 | cell (r, c) of the reshaped grid is value r * cols + c |
| `TiffToNc.ReshapeFlatten` | tiff_to_nc.py:58-65 | reshaping a flattened grid back to its shape gives the grid itself |
| `TiffToNc.CentreX` | tiff_to_nc.py:68 | the x coordinate of a pixel's centre under the affine transform, `a(col + 1/2) + b(row + 1/2) + c` |
| `TiffToNc.CentreY` | tiff_to_nc.py:73 | the y coordinate of a pixel's centre under the affine transform, `d(col + 1/2) + e(row + 1/2) + f` |
| `TiffToNc.LonAxis` | tiff_to_nc.py:67-70 | one longitude per column: the x centre of that column's pixel in row 0 |
| `TiffToNc.LatAxis` | tiff_to_nc.py:72-75 | one latitude per row: the y centre of that row's pixel in column 0 |
| `TiffToNc.CentredAxisSpacing` | tiff_to_nc.py:67-75 | an axis of pixel centres is evenly spaced by the transform's step, and strictly increasing or decreasing with the sign of that step |
| `TiffToNc.LonAxisCentred` | tiff_to_nc.py:67-70 | longitude i is the x-centre of pixel (0, i): origin `b/2 + c` plus `(i + 1/2)` steps of `a` |
| `TiffToNc.LatAxisCentred` | tiff_to_nc.py:72-75 | latitude i is the y-centre of pixel (i, 0): origin `d/2 + f` plus `(i + 1/2)` steps of `e` |
| `TiffToNc.PaletteOfRaster` | tiff_to_nc.py:35-56 | a raster whose legend decodes gives a palette with one value per colour |
| `TiffToNc.InstantOf` | tiff_to_nc.py:28-75 | the conversion of one raster: the palette, the nearest-colour value of each pixel, NaN for yellow pixels, the reshape to the raster's shape and the pixel-centre axes; the decode error when the palette cannot be built |
| `TiffToNc.InstantShape` | tiff_to_nc.py:65-80 | a raster converts exactly when its palette decodes; the grid has the raster's rows and columns, with one latitude per row and one longitude per column |
| `TiffToNc.InstantCell` | tiff_to_nc.py:56-65 | cell (r, c) is NaN for a yellow pixel and otherwise the value of the nearest palette colour of pixel (r, c) |
| `TiffToNc.YellowIsMissing` | tiff_to_nc.py:62-63 | every yellow pixel is NaN in the output |
| `TiffToNc.NonYellowIsNearest` | tiff_to_nc.py:56-60 | every other pixel carries the value of a palette entry at minimal colour distance, never NaN |
| `TiffToNc.ExactColourKeepsValue` | tiff_to_nc.py:56-60 | a non-yellow pixel drawn in a legend colour gets the value of an entry of that colour |
| `TiffToNc.BuildInstant` | tiff_to_nc.py:28-80 | the per-file block, with its array and in-place mask, gives the instant of `InstantOf` |
| `TiffToNc.NcName` | tiff_to_nc.py:21 | the output name ends in `.nc` |
| `TiffToNc.TiffPass` | tiff_to_nc.py:18-24 | the run over the sorted listing: skip a tiff whose `.nc` exists, stop at the first undecodable raster, otherwise add the `.nc` holding its instant |
| `TiffToNc.ConvertTiffs` | tiff_to_nc.py:18-82 | the conversion loop, with its skip of existing outputs and its stop on an undecodable file, gives the store and the outcome of `TiffPass` |
| `TiffToNc.TiffPassFrame` | tiff_to_nc.py:20-24 | a run never changes a `.tif` or an existing `.nc`; each `.nc` it adds is named after a listed tiff and holds that tiff's decoded instant |
| `TiffToNc.TiffPassCovers` | tiff_to_nc.py:20-82 | after a run that gets through its listing, every listed tiff has its `.nc` |
| `TiffToNc.TiffPassNoop` | tiff_to_nc.py:23-24 | when every listed tiff already has its `.nc`, a run changes nothing |
| `TiffToNc.TiffPassIdempotent` | tiff_to_nc.py:18-24 | running the conversion again after a complete run changes nothing |
| `TiffToNc.TiffPassRerun` | tiff_to_nc.py:18-24 | running the conversion a second time over the same listing gives the same store and the same outcome as the first run, also when the first run stopped at an undecodable raster |
| `Accumulate24h.IsInputName` | accumulate_24h.py:7 | the names the glob `GLD_RNN6H_*.nc` matches |
| `Accumulate24h.InputNameFields` | accumulate_24h.py:7-15 | a name matched by the glob has at least three `_` fields, the first two being `GLD` and `RNN6H`, so field 2 exists |
| `Accumulate24h.DayKey` | accumulate_24h.py:15-16 | the day of a six-hour file is field 2 of its name split on `_` |
| `Accumulate24h.DayKeyIsField` | accumulate_24h.py:15 | the day key is a whole field, with no `_` in it |
| `Accumulate24h.DailyName` | accumulate_24h.py:23 | the output of a day is `GLD_RNN24H_<day>.nc` |
| `Accumulate24h.DailyNameInjective` | accumulate_24h.py:23 | distinct days have distinct output names |
| `Accumulate24h.DailyNameNotInput` | accumulate_24h.py:7 | a 24-hour output never matches the six-hour glob, so it is never an input |
| `Accumulate24h.FilesOfDay` | accumulate_24h.py:12-17 | every file in a day's group is a listed file with that day key |
| `Accumulate24h.DaysOf` | accumulate_24h.py:12-19 | the dict's keys: the days in the order they first appear in the listing |
| `Accumulate24h.FilesOfDayMembers` | accumulate_24h.py:12-17 | a file is in a day's group exactly when it is listed and has that day key |
| `Accumulate24h.FilesOfDayAppend` | accumulate_24h.py:14-17 | grouping a longer listing appends the new files to their day's group in listing order |
| `Accumulate24h.DaysOfMembers` | accumulate_24h.py:12-19 | the days are exactly those with a non-empty group, each listed once |
| `Accumulate24h.PrefixDays` | accumulate_24h.py:14-17 | reading one more file adds its day as the next key exactly when that day is new |
| `Accumulate24h.PrefixFiles` | accumulate_24h.py:14-17 | reading one more file appends it to its own day's group and changes no other group |
| `Accumulate24h.GroupStep` | accumulate_24h.py:15-17 | one `setdefault(day, []).append(f)` keeps the keys and groups equal to those of the listing read so far |
| `Accumulate24h.GroupByDay` | accumulate_24h.py:12-17 | the `setdefault(...).append` loop builds a map with one key per day, in first-seen order, and for each day its files in listing order |
| `Accumulate24h.ValidCount` | accumulate_24h.py:30 | `notnull().sum(dim="time")` at a cell: the number of non-NaN values |
| `Accumulate24h.SumValid` | accumulate_24h.py:31 | `sum(dim="time", skipna=True)` at a cell: the sum of the non-NaN values, 0 when there are none |
| `Accumulate24h.ReduceCell` | accumulate_24h.py:30-32 | the masked total at a cell: NaN when the count is 0, otherwise the skip-NaN sum |
| `Accumulate24h.ValidCountZero` | accumulate_24h.py:30 | the count of non-NaN values is zero exactly when every value is NaN |
| `Accumulate24h.ReduceCellMissing` | accumulate_24h.py:30-32 | a total is NaN exactly when all its inputs are NaN; otherwise it is the sum of the valid inputs |
| `Accumulate24h.CountAndSumAppend` | accumulate_24h.py:30-31 | the count and the NaN-skipping sum add up over concatenation |
| `Accumulate24h.MissingContributesNothing` | accumulate_24h.py:31 | a NaN input does not change the total |
| `Accumulate24h.ReduceCellExamples` | accumulate_24h.py:30-32 | 2, NaN, 3, NaN totals 5; four NaNs total NaN |
| `Accumulate24h.ReduceCellSplit` | accumulate_24h.py:30-32 | the total of two stacks combines their totals (NaN only if both are NaN) |
| `Accumulate24h.SumOfMissing` | accumulate_24h.py:31 | with no valid value, the NaN-skipping sum is 0 (which the mask then turns into NaN) |
| `Accumulate24h.CountAndSumRemove` | accumulate_24h.py:30-31 | removing one input takes away exactly its contribution to the count and to the sum |
| `Accumulate24h.MultisetRemove` | accumulate_24h.py:27 | removing matching elements from two permutations of each other leaves permutations |
| `Accumulate24h.ReduceCellPermutation` | accumulate_24h.py:27-32 | the total does not depend on the order of the files, so the `sorted(flist)` makes no difference |
| `Accumulate24h.CellAt` | accumulate_24h.py:28 | the value of cell (r, c), NaN outside the grid: a smaller grid contributes NaN there. This stands in for the NaN fill of `xr.concat`'s outer join, with cells lined up by position (see `Accumulate24h.ReduceGrids` under "## Left out") |
| `Accumulate24h.Column` | accumulate_24h.py:28 | the stack at a cell has one value per file |
| `Accumulate24h.ReduceGrids` | accumulate_24h.py:27-32 | the total of a day's stack, cell by cell over the first grid's shape |
| `Accumulate24h.ReduceGridsCells` | accumulate_24h.py:27-32 | on same-shaped grids the total has their shape; each cell is NaN exactly when every input cell is NaN there, and otherwise the sum of the valid inputs |
| `Accumulate24h.DayStack` | accumulate_24h.py:27 | the opened datasets are one grid per file of the day |
| `Accumulate24h.DayTotal` | accumulate_24h.py:27-34 | the written dataset of a day: the reduced grid, on the latitude and longitude of the day's first file |
| `Accumulate24h.DayTotalCells` | accumulate_24h.py:27-34 | on files that share their axes, the total keeps those axes, has one cell per latitude and longitude, is NaN exactly where every file is NaN, and is otherwise the sum of the valid values there |
| `Accumulate24h.MinFilesPerDay` | accumulate_24h.py:20 | a day needs at least four six-hour files (`len(flist) < 4` skips it) |
| `Accumulate24h.DailyStep` | accumulate_24h.py:19-35 | one day's iteration keeps every listed six-hour input present and unchanged in kind |
| `Accumulate24h.DailyPass` | accumulate_24h.py:19-35 | the per-day loop over the days in key order, each step skipping short days and days that have their output |
| `Accumulate24h.Accumulate` | accumulate_24h.py:7-37 | the script stops with "No files" exactly when the listing is empty; otherwise it gives the store of `DailyPass` over the days in first-seen order |
| `Accumulate24h.DayStackStable` | accumulate_24h.py:27 | the stack of a day depends only on that day's files |
| `Accumulate24h.DailyStepFrame` | accumulate_24h.py:19-35 | one day's iteration changes no `.tif` and no existing `.nc`; the only file it can add is that day's total, and only for a day with at least four files |
| `Accumulate24h.DailyPassFrame` | accumulate_24h.py:19-35 | a run never changes a `.tif` or an existing `.nc`; each file it adds is the total of a day with at least four files, made from that day's grids |
| `Accumulate24h.DailyPassComplete` | accumulate_24h.py:19-35 | after a run every day with at least four files has its total |
| `Accumulate24h.DailyGating` | accumulate_24h.py:20-21 | a day with fewer than four files never gets a total from a run |
| `Accumulate24h.DailyPassNoop` | accumulate_24h.py:24-25 | when every eligible day already has its total, a run changes nothing |
| `Accumulate24h.DailyPassIdempotent` | accumulate_24h.py:19-35 | a run adds no six-hour input, and running it again changes nothing |
| `DownloadRadar.IsWanted` | download_radar.py:24 | the filter: the name contains `GLD` and `RNN.6HR_CAPPI` and ends with `.tif` |
| `DownloadRadar.WantedShape` | download_radar.py:24 | every name of the form `…GLD…RNN.6HR_CAPPI….tif` passes the filter, and the same name with a further four-character extension does not |
| `DownloadRadar.FilterExamples` | download_radar.py:24 | the example member name `RAD_GLD_RNN.6HR_CAPPI_202602131200.tif` passes the filter, and the same name with `.xml` appended does not |
| `DownloadRadar.IsStampPart` | download_radar.py:36 | a `_` part can carry the timestamp when it is all digits and at least twelve long |
| `DownloadRadar.FirstStamp` | download_radar.py:35-38 | a found timestamp is twelve digits |
| `DownloadRadar.FindTimestamp` | download_radar.py:34-38 | the search finds nothing exactly when no `_` part is all digits and at least twelve long; otherwise it gives the first twelve characters of the first such part |
| `DownloadRadar.FormatStamp` | download_radar.py:40-43 | without a timestamp the field is the clock reading; with one it is the date digits, `_`, the time digits, and removing the `_` gives the timestamp back |
| `DownloadRadar.StampOf` | download_radar.py:34-43 | the timestamp field a member name yields: the formatted first timestamp, or the clock reading |
| `DownloadRadar.NoStampPart` | download_radar.py:34-40 | when no part qualifies, the search ends without a timestamp |
| `DownloadRadar.GluedStampUsesClock` | download_radar.py:35-41 | a name whose last `_` part is digits directly followed by a non-digit extension, and whose other parts do not qualify, gets the clock reading as its stamp |
| `DownloadRadar.ExampleNameUsesClock` | download_radar.py:33-41 | the name `RAD_GLD_RNN.6HR_CAPPI_202602131200.tif` gets the clock reading as its stamp, not `20260213_1200` |
| `DownloadRadar.OutputName` | download_radar.py:45 | every saved name starts with `GLD_RNN6H_` and ends with `.tif` |
| `DownloadRadar.IsSaved` | download_radar.py:24-30 | a member is saved when its name passes the filter and `extractfile` gives a file |
| `DownloadRadar.DownloadPass` | download_radar.py:20-49 | the store after saving the members in archive order, each saved member written under its output name, later ones overwriting earlier ones |
| `DownloadRadar.SaveMembers` | download_radar.py:20-49 | the member loop, with its filter and its skip of non-file members, gives the store of `DownloadPass` |
| `DownloadRadar.Saved` | download_radar.py:24-30 | a member is saved exactly when it passes the filter and is a file |
| `DownloadRadar.OnlySavedMembersMatter` | download_radar.py:24-30 | the result depends only on the saved members, in archive order |
| `DownloadRadar.DownloadFrame` | download_radar.py:45-49 | a download touches no `.nc`, keeps every existing file name, and every file it writes is named after a saved member and holds that member's raster |
| `DownloadRadar.DownloadCovers` | download_radar.py:24-49 | every member that passes the filter and is a file has its output file after a download |
| `DownloadRadar.DownloadLastWins` | download_radar.py:45-49 | a saved member's file holds its raster when no later saved member has the same output name, so each file holds the last such member's content |
| `Pipeline.StampOfHasShape` | download_radar.py:40-43 | a timestamp found in a member name gives a field of the shape `YYYYMMDD_HHMM` |
| `Pipeline.StemIsDotFree` | download_radar.py:45 | the stem of such an output name has no dot, so its only suffix is `.tif` |
| `Pipeline.NcOfStamp` | tiff_to_nc.py:21 | the conversion of `GLD_RNN6H_<stamp>.tif` is `GLD_RNN6H_<stamp>.nc` |
| `Pipeline.SavedTiffReachesDay` | accumulate_24h.py:7-15 | the `.nc` of a saved file matches the six-hour glob, and its day key is the date part of its timestamp |
| `Pipeline.MemberLandsOnItsDay` | download_radar.py:34-45 | a member whose name carries the timestamp t is totalled under the day given by the first eight digits of t |
| `Pipeline.ClockNamedMemberLandsOnClockDay` | download_radar.py:40-41 | a member named after a clock reading of the `YYYYMMDD_HHMM` shape is totalled under the clock's day |
| `Text.StartsWith` | accumulate_24h.py:7 | `s` begins with `p`: the literal `GLD_RNN6H_` prefix of the six-hour glob, and of the output name at download_radar.py:45 |
| `Text.EndsWith` | download_radar.py:24 | `name.endswith(p)`: `name` ends with the characters of `p`; also the `.nc` end of the glob at accumulate_24h.py:7 |
| `Text.Contains` | download_radar.py:24 | `sub in s`: `sub` is a prefix of `s` or of one of its suffixes |
| `Text.IsDigits` | download_radar.py:36 | `part.isdigit()` for ASCII digits: the part is non-empty and every character is `0` to `9` |
| `Text.RFind` | tiff_to_nc.py:21 | the last index holding the character, or -1: the last-dot search of `PurePath.suffix` that `with_suffix` uses |
| `Text.ContainsIff` | download_radar.py:24 | `sub in s` holds exactly when `sub` occurs at some index of `s` |
| `Text.ContainsMiddle` | download_radar.py:24 | `sub in a + sub + b` holds for all strings `a` and `b` |
| `Text.Split` | download_radar.py:35 | `split` gives at least one part, and no part contains the separator |
| `Text.JoinSplit` | download_radar.py:35 | joining the parts of a split with the separator gives back the string |
| `Text.SplitJoin` | accumulate_24h.py:15 | splitting a join of separator-free parts gives back the parts |
| `Text.SplitAfterHead` | accumulate_24h.py:15 | a separator after a separator-free head makes that head the first field |
| `Text.WithSuffix` | tiff_to_nc.py:21 | `with_suffix` gives a name ending in the new suffix |
| `Text.WithSuffixReplaces` | tiff_to_nc.py:21 | on a dot-free stem with one suffix, `with_suffix` replaces exactly that suffix |

## Left out

- HTTP download, tar decompression, `extractfile` reading and file writes are not modelled. The archive is given as a list of members whose content is the raster the file holds, or nothing for a member that is not a file. A failed request (`raise_for_status`) is not modelled.
- Reading GeoTIFF bands and tags with rasterio, and writing netCDF with xarray, are not modelled. A raster is given as its pixel rows, its legend and its affine transform. A `.nc` file is the grid it holds.
- `ast.literal_eval` of the `ESCALA` tag and `float()` of the bounds are not modelled. The legend is taken as already parsed (`LegendItem`). A missing or unparseable tag is the decode error `NoLegend`, so the run stops there, as the exception would stop it.
- TiffToNc.BuildPalette: an entry with fewer than three RGBA components is the error `ShortColour`, which stops the run. The source raises at different places: a legend whose entries have different lengths fails at `np.array` (tiff_to_nc.py:53). A legend whose entries are all equally short gets through `cKDTree` (line 56) and fails at `tree.query` (line 59). The model does not tell these places apart.
- TiffToNc.NearestIndex: cKDTree's choice between equally near colours is unspecified. The model takes the lowest index, and the contracts only promise minimal distance.
- Fractional pixel values and IEEE floating point (rounding, infinities, NaN ordering) are not modelled. Values are exact reals, and NaN is `None`.
- Accumulate24h.ReduceGrids: `xr.concat` lines the grids up by their latitude and longitude values, with an outer join. The model lines them up by position instead. It uses the first grid's shape and counts cells outside a smaller grid as NaN. So the model agrees with xarray only when every file of the day has the same axes. `DayTotalCells` is stated for exactly that case. Files on different axes, which xarray merges onto the union of their coordinates, are not modelled.
- Accumulate24h.DayTotal: the daily file takes the axes of the day's first file. With shared axes, as `DayTotalCells` requires, these are xarray's coordinates. On differing axes xarray's union coordinates are not modelled.
- Accumulate24h.DayKey: `pd.to_datetime(...).date()` followed by `strftime('%Y%m%d')` is taken as the identity on the field. Other date spellings and the exception on a field that is not a date are not modelled.
- `sorted(flist)` in the accumulation is taken as the identity, because the listing is already sorted and the groups keep its order. `ReduceCellPermutation` shows that the order does not affect the totals anyway.
- The glob and `sorted` of the listings are inputs: each run is given its listing as a sequence, with the listed files present in the store.
- TiffToNc.InstantOf: the pixel bands are required to be rectangular, which a GeoTIFF guarantees.
- `isdigit` is modelled for ASCII digits only. Python also accepts other Unicode digits.
- `datetime.utcnow()` is a string parameter `now`, read once per run rather than once per member. Its `strftime` format is the `YYYYMMDD_HHMM` shape of `Pipeline.IsStampField`.
- DownloadRadar.FilterExamples: only one member name and the same name with `.xml` appended are proved. `DownloadRadar.WantedShape` states the general sufficient condition, and the filter itself is the predicate `IsWanted`.
- The region constants `lon_min`/`lon_max`/`lat_min`/`lat_max` in `tiff_to_nc.py` are never used by the code, so no clipping is modelled.
- Weekly totals, provenance records and deletion of old files are not present in these scripts.
- The progress messages the scripts print are not modelled.
