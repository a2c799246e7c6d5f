# Rain, sun and temperature overlays of the UK 1 km grid

This project models the offline pipeline of the rainmapping repository in
Dafny. That pipeline turns monthly 1 km British National Grid climate rasters
into sparse month grids and coloured overlay images for a web map. It covers:

- The grid arithmetic: `coord_to_index` and `index_to_coord`, and the
  Woolhampton reference cell.
- The extraction, year by year and month by month, of each dense month raster
  into a sparse `{easting: {northing: value}}` map, with Woolhampton tracking
  and the choice of temperature scale.
- The classifiers. These are three forms of the clamp-then-bin temperature
  index, the three-level rain/sunshine classes, and two forms of the tertile
  thresholds. They also include decile binning and `#rrggbb` decoding.
- The image generators:
  - three PNG generators that place each pixel by interpolation and reproject
    it to a grid cell (corrected, first, and the older Web Mercator one);
  - two generators that colour the dense grid cell by cell (overlay and
    leaflet);
  - the decile temperature images with their monthly averages;
  - the two landmark test images.

Each generator module mirrors one source file:

| source file | module |
|---|---|
| extract_data.py | `ExtractData` (grid arithmetic in `BngGrid`) |
| generate_pngs_fixed.py | `PngsFixed` |
| generate_pngs.py | `Pngs` |
| generate_pngs_old_broken.py | `PngsOldBroken` |
| process_temperature.py | `ProcessTemperature` |
| generate_overlay_images.py | `OverlayImages` |
| generate_leaflet_images.py | `LeafletImages` |
| generate_test_image_fixed.py | `TestImageFixed` |
| generate_test_image.py | `TestImage` |

The shared modules are:

- `Numeric`: Python's `int()`, `round()`, `min`, `max` and `max(0, min(..))` on floats.
- `Colours`: the colour tables and hexadecimal decoding.
- `Classify`: the classifiers.
- `PixelGeometry`: interpolation and the 1 km key.
- `Raster`: the per-pixel fill loops, `np.flipud` and the disc stamp.
- `SparseValues`: flattening a sparse grid into its value list.
- `Landmarks`: the landmark list and the stamping loop, which both test images share.

Conventions:

- Python floats are Dafny `real`, and NaN cells are `None`.
- `int()` truncates toward zero, and `round()` rounds half to even.
- JSON string keys `str(int(x))` are the integers themselves.
- Reprojections are function parameters. A transform that raises is `None`, and the `except: pass` then leaves the pixel alone.
- Output images are `array2<Rgba>` values, filled by nested loops. Each loop is specified by a per-pixel function.
- A script that raises is modelled explicitly:
  - an empty value list at the legacy threshold lookup;
  - a zero-width span in a test image;
  - an undecodable colour string.

The same `coord_to_index`/`index_to_coord` pair appears in
generate_leaflet_images.py:58-68. `BngGrid` models both copies.

Every generator compares a value with its tertile thresholds using strict
`<`, so a value equal to a threshold goes to the higher class
(`Classify.Level`, `Classify.LevelMonotone`). The PNG generators pick their
thresholds as sorted elements by rank (`sorted[n // 3]`, or
`sorted[int(n * 0.33)]`), not as interpolated percentiles.

## Model

| member | source | states |
|---|---|---|
| BngGrid.CoordToIndex | extract_data.py:44-48 | `(row, col)` of the cell holding a point; both indices are non-negative east of `X_MIN` and south of `Y_MAX` |
| BngGrid.IndexToCoord | extract_data.py:50-54 | the cell centre is `(-199000 + 1000·col, 1249000 - 1000·row)`, a whole number of metres, so `int()` of it loses nothing |
| BngGrid.IndexRoundTrip | extract_data.py:44-54 | `coord_to_index(index_to_coord(row, col)) == (row, col)` for all non-negative indices |
| BngGrid.CentresInjective | extract_data.py:129-131 | distinct cells get distinct `(x_key, y_key)` pairs |
| BngGrid.CellCentreNearPoint | extract_data.py:44-54 | for `x ≥ X_MIN` and `y ≤ Y_MAX`, the centre of the chosen cell is within 500 m of the point on each axis |
| BngGrid.IndexMonotone | extract_data.py:44-48 | the column index is non-decreasing in `x`, and the row index is non-increasing in `y` |
| BngGrid.WoolhamptonCell | extract_data.py:57-61 | `(457000, 166000)` is row 1083, column 656, whose centre is exactly that point |
| ExtractData.Store | extract_data.py:133-137 | storing under `[x][y]` sets that entry, keeps every other entry, and adds none |
| ExtractData.StoreCell | extract_data.py:128-138 | one visit of a cell extends the partial map to that cell: a non-NaN cell is stored under its centre key and counted, a NaN cell changes nothing, and the count stays the number of entries |
| ExtractData.StoreRow | extract_data.py:128-138 | after the cells of one raster row, the partial map and the count cover every cell up to the end of that row |
| ExtractData.BuildMonthMap | extract_data.py:121-140 | the sparse map holds a cell's centre key exactly when the cell is not NaN, with its value; every key is a cell centre; no column dictionary is empty; `non_nan_count` equals both the number of non-NaN cells and the number of entries |
| ExtractData.WoolhamptonSamples | extract_data.py:115-119 | the tracked values are Woolhampton cell values, at most one per month |
| ExtractData.ReadYears | extract_data.py:70-111 | the grids a run reads are, in order, the first twelve slices of each opened file; a file that is not found or has no recognised variable adds nothing; every grid read is the slice of its file named by its (year, month) slot, with the month between 1 and 12 |
| ExtractData.ReadYearsCrash | extract_data.py:106-111 | the run stops on `IndexError` exactly when some opened file has fewer than twelve slices |
| ExtractData.CrashStays | extract_data.py:106-111 | once a short file has stopped the run, the later years are never read |
| ExtractData.ReadYearsComplete | extract_data.py:70-111 | a run that does not stop writes all twelve months of every opened file |
| ExtractData.ReadYearsInOrder | extract_data.py:70-143 | the month files are written in year order, and in month order within a year |
| ExtractData.ProcessYear | extract_data.py:106-145 | the month loop over one file converts its slices 0 to 11 in order, extending the maps, counts and Woolhampton values; it raises exactly when the file has fewer than twelve slices, after converting every slice it has |
| ExtractData.ProcessVariable | extract_data.py:64-149 | the run stops exactly when `ReadYears` does; the files written are `ReadYears`' slots, one sparse map and count for each grid read, each as `BuildMonthMap` states; with tracking, the non-NaN Woolhampton values in the order read; without it, nothing |
| ExtractData.ChooseTemperatureScale | extract_data.py:179-226 | the scale is (-10, 32) whether or not there are samples; the observed range is absent exactly when there are none, and is otherwise the least and greatest sample |
| Numeric.Trunc | generate_pngs_fixed.py:88 | `int()` on a float truncates toward zero: the result is within one of `x`, on the side of zero |
| Numeric.TruncMonotone | generate_test_image.py:66-67 | `int()` never decreases as its argument grows |
| Numeric.RoundHalfEven | generate_pngs_fixed.py:127-128 | `round()` is within one half of `x`, and a tie goes to the even integer |
| Numeric.Clamp01 | generate_pngs_fixed.py:87 | `max(0, min(1, x))` lies in `[0, 1]`, keeps `x` there, and is 0 below and 1 above |
| Numeric.MinOf | extract_data.py:180 | `min` of a non-empty list is one of its elements and at most every element |
| Numeric.MaxOf | extract_data.py:181 | `max` of a non-empty list is one of its elements and at least every element |
| Numeric.ClampIndex | generate_test_image_fixed.py:62-63 | `max(0, min(n - 1, v))` lies in `[0, n-1]` and equals `v` when `v` already does |
| Colours.BivariateTablesTotal | generate_leaflet_images.py:42-46 | every pair of levels in 0..2 is a key of the tuple-keyed table and of the nested table, and both give the same string |
| Colours.HexToRgb | generate_overlay_images.py:54-57 | `hex_to_rgb` yields components in 0..255, or fails like `int(s, 16)` |
| Colours.DecodeAtOne | generate_leaflet_images.py:107-109 | decoding at `[1:3]`, `[3:5]` and `[5:7]` yields components in 0..255, or fails |
| Colours.HexRoundTrip | generate_overlay_images.py:54-57 | both decoders invert the `#rrggbb` encoding of any valid colour |
| Colours.DecodeEncoded | generate_overlay_images.py:54-57 | any `#rrggbb` spelling of a valid colour, in either letter case, decodes to that colour under both decoders |
| Colours.DecodeAtOneEncoded | generate_leaflet_images.py:107-109 | the slices `[1:3]`, `[3:5]` and `[5:7]` of a `#rrggbb` spelling decode to its three components |
| Colours.ParseHex | generate_overlay_images.py:57 | `int(s, 16)` fails on the empty string, and any value it gives is below `16^len(s)` (success and the value are stated by `ParseHexMeaning`) |
| Colours.ParseHexMeaning | generate_overlay_images.py:57 | `int(s, 16)` succeeds exactly on a non-empty string of hexadecimal digits; one or two digits are read positionally, most significant first |
| Colours.TempEncoded | generate_overlay_images.py:25-28 | the `i`th hexadecimal temperature string spells the `i`th integer triple |
| Colours.BivariateEncoded | generate_overlay_images.py:31-35 | each level pair is a key of both bivariate tables, and its hexadecimal string spells its integer triple |
| Colours.DecodersAgree | generate_leaflet_images.py:107-109 | on a seven-character `#rrggbb` string, the inline decoding and `hex_to_rgb` agree |
| Colours.TempTablesAgree | generate_overlay_images.py:25-28 | each hexadecimal temperature colour decodes to the integer triple at the same index |
| Colours.BivariateTablesAgree | generate_overlay_images.py:31-35 | each hexadecimal bivariate colour decodes to the integer triple of the same level pair |
| Colours.LStripHash | generate_overlay_images.py:56 | `lstrip('#')` removes a prefix made only of `#` characters, and what remains does not start with `#` |
| Classify.ClampedPosition | generate_pngs_fixed.py:87-88 | the clamped position lies in `[0, 1]`; it is 0 exactly at or below -10 and 1 exactly at or above 32 |
| Classify.ClampedPositionMonotone | generate_pngs_fixed.py:87-88 | the clamped position is non-decreasing in the temperature |
| Classify.TempIndexCapped | generate_pngs_fixed.py:89 | the index lies in `[0, 9]`; it is 0 at or below -10, and 9 if and only if the temperature is at least 32 |
| Classify.TempIndexUncapped | generate_leaflet_images.py:132-134 | without the `min` guard the index still lies in `[0, 9]`, is 9 only from 32 up, and equals the guarded index |
| Classify.TempIndexByLength | generate_overlay_images.py:76-78 | the index lies in `[0, 9]`; it is 0 at or below -10 and 9 at or above 32 |
| Classify.TempIndexByLengthBins | generate_overlay_images.py:76-78 | bin `k` holds exactly the temperatures in `[-10 + 4.2k, -10 + 4.2(k+1))`; the outer bins are open-ended |
| Classify.TempIndicesMonotone | generate_pngs_fixed.py:85-90 | all three index forms are non-decreasing in the temperature |
| Classify.ColorForTemp | generate_pngs_fixed.py:85-90 | `get_color_for_temp` returns a `TEMP_COLORS` entry: the first at or below -10, the last at or above 32 |
| Classify.Level | generate_pngs_fixed.py:94-95 | the level lies in {0, 1, 2}; it is 0 exactly below the first threshold and 2 exactly at or above both |
| Classify.LevelMonotone | generate_pngs_fixed.py:94-95 | the level is non-decreasing in the value, and a value equal to a threshold goes to the class above it |
| Classify.ColorForRainSun | generate_pngs_fixed.py:92-96 | `get_color_for_rain_sun` returns the table entry of the level pair, which is always a key |
| Classify.Sort | generate_pngs_fixed.py:157-158 | `sort()` gives an ascending permutation of the list |
| Classify.SortedUnique | generate_pngs_fixed.py:157-158 | two ascending lists with the same elements are equal, so the result of `sort()` depends only on the elements |
| Classify.TertilesOrderIndependent | generate_pngs_fixed.py:155-158 | two lists with the same elements, in any order, give the same sorted list and the same thresholds under both threshold rules |
| Classify.TertilesByRank | generate_pngs_fixed.py:160-166 | an empty list gives (0, 0); otherwise both thresholds are data values with `t33 ≤ t66`; at most `n // 3` values lie below `t33`, and at most `(2n) // 3` below `t66` |
| Classify.LegacyIndicesInRange | generate_pngs.py:141-144 | for `n ≥ 1`, `0 ≤ int(n·0.33) ≤ int(n·0.66) < n` |
| Classify.TertilesLegacy | generate_pngs.py:138-144 | the lookup fails exactly on an empty list; otherwise both thresholds are data values with `t33 ≤ t66` |
| Classify.TertileRanks | generate_pngs_fixed.py:157-166 | on a non-empty list each threshold is pinned by its rank `k`: at most `k` values lie below it and more than `k` at or below it. The ranks are `n // 3` and `(2n) // 3`, or `int(n·0.33)` and `int(n·0.66)` for the legacy rule |
| Classify.RankOfSorted | generate_pngs.py:138-144 | entry `k` of the sorted list has at most `k` values below it and more than `k` at or below it |
| PixelGeometry.InterpolationEnds | generate_pngs_fixed.py:119-120 | index 0 maps to the start bound and index `steps` to the end bound |
| PixelGeometry.InterpolationStrict | generate_pngs_fixed.py:119-120 | with ordered bounds, latitude strictly falls with the row, longitude strictly rises with the column, and an index below `steps` stays short of the far bound |
| PixelGeometry.KmKey | generate_pngs_fixed.py:127-128 | the key is a multiple of 1000 within 500 of the coordinate |
| Raster.CellKey | generate_pngs_fixed.py:182-183 | both keys of a reprojected point are multiples of 1000 within 500 of its coordinates |
| Raster.TempPixel | generate_pngs_fixed.py:122-136 | a pixel is coloured, with alpha 255 and the colour of its cell's temperature, exactly when the transform succeeds and its key is present; otherwise it stays `(0,0,0,0)` |
| Raster.RainSunPixel | generate_pngs_fixed.py:177-193 | a pixel is coloured exactly when the transform succeeds and its key is present in both grids, and then with alpha 255 |
| Raster.RainSunPixelColours | generate_pngs_fixed.py:186-191 | a coloured rain/sunshine pixel shows one of the nine bivariate colours |
| Raster.FillTemp | generate_pngs_fixed.py:108-136 | after the row/column loops, every pixel is its own `TempPixel` and no other pixel is written |
| Raster.FillTempRow | generate_pngs_fixed.py:112-136 | one pass of the column loop sets every pixel of its row to its `TempPixel` and leaves the other rows unchanged |
| Raster.FillRainSun | generate_pngs_fixed.py:169-193 | after the row/column loops, every pixel is its own `RainSunPixel` |
| Raster.FillRainSunRow | generate_pngs_fixed.py:173-193 | one pass of the column loop sets every pixel of its row to its `RainSunPixel` and leaves the other rows unchanged |
| Raster.DensePixel | generate_overlay_images.py:74-80 | a dense cell is coloured exactly when it is not NaN |
| Raster.FillDense | generate_overlay_images.py:70-80 | every cell of the zeroed array is its own `DensePixel` |
| Raster.DensePairPixel | generate_overlay_images.py:121-126 | a cell is coloured exactly when both values are present, with the bivariate colour of their levels |
| Raster.FillDensePair | generate_overlay_images.py:117-126 | every cell of the zeroed array is its own `DensePairPixel` |
| Raster.FlipRows | process_temperature.py:136 | `np.flipud` keeps the shape, and row `r` of the result is row `h-1-r` of the input |
| Raster.FlipTwice | generate_pngs_old_broken.py:238-239 | flipping twice gives back the original array |
| Raster.DiscWithinLoops | generate_test_image_fixed.py:78-80 | every pixel with `dr²+dc² ≤ 2500` has an offset that the two `range(-50, 51)` loops visit |
| Raster.StampRow | generate_test_image_fixed.py:79-84 | one pass of the `dc` loop sets the in-image disc pixels of row `row + dr` to `color + [255]` and leaves every other pixel unchanged |
| Raster.StampDisc | generate_test_image_fixed.py:77-84 | exactly the in-image pixels within radius 50 become `color + [255]`, and every other pixel is unchanged |
| SparseValues.FlattenColumn | generate_pngs_fixed.py:155 | the inner comprehension lists every entry of one column dictionary once |
| SparseValues.FlattenValues | generate_pngs_fixed.py:155-156 | the comprehension lists every stored value exactly once, each from a distinct cell |
| PngsFixed.EdgesOnBounds | generate_pngs_fixed.py:119-120 | row 0 is `LAT_MAX` and row H-1 is `LAT_MIN`; column 0 is `LNG_MIN` and column W-1 is `LNG_MAX`; latitude strictly falls with the row and longitude strictly rises with the column |
| PngsFixed.GenerateTempImage | generate_pngs_fixed.py:98-141 | a missing or empty month is skipped; otherwise a 3000×2000 image in which each pixel is the `TempPixel` of its point, interpolated between the WGS84 images of the grid corners `(0, 0)` and `(700000, 1250000)` and reprojected |
| PngsFixed.GenerateRainSunImage | generate_pngs_fixed.py:143-198 | skipped unless both months are present and non-empty; the thresholds are the by-rank tertiles of each grid's values; each pixel is the `RainSunPixel` of its point between the corners' WGS84 images |
| Pngs.EdgesShortOfBounds | generate_pngs.py:95-96 | row 0 is `LAT_MAX` and column 0 is `LNG_MIN`, but the last row stays strictly north of `LAT_MIN` and the last column strictly west of `LNG_MAX` |
| Pngs.GenerateTempImage | generate_pngs.py:78-117 | a missing or empty month is skipped; otherwise each pixel is the `TempPixel` of its point over the fixed bounds |
| Pngs.GenerateRainSunImage | generate_pngs.py:119-174 | skipped exactly when a month is missing or empty; otherwise it crashes exactly when a grid holds no cell; when written, the thresholds are the legacy tertiles of a listing of each grid's values, and each pixel is its `RainSunPixel` |
| Pngs.LegacyThresholds | generate_pngs.py:131-144 | the value list of one grid is built and indexed; the lookup fails exactly when no column dictionary holds a cell, and otherwise gives the legacy tertiles of a listing of its values |
| Pngs.EmptyFlattening | generate_pngs.py:131-136 | the value list is empty exactly when no column dictionary holds a cell |
| Pngs.ExtractedGridsDoNotCrash | generate_pngs.py:126-144 | a non-empty grid with no empty column dictionary, as the extraction writes, yields values and thresholds |
| Pngs.EmptyColumnCrashes | generate_pngs.py:126-144 | a grid whose only column dictionary is empty passes the skip guard, but its threshold lookup fails |
| PngsOldBroken.ColumnKeys | generate_pngs_old_broken.py:63-64 | the inner loop collects exactly the keys of a column dictionary |
| PngsOldBroken.ScanExtent | generate_pngs_old_broken.py:59-72 | `eastings` holds every outer key once and `northings` every inner key; the extent is their minima and maxima, and the scan fails when either list is empty |
| PngsOldBroken.SetUpExtent | generate_pngs_old_broken.py:59-93 | the scan of the sample month raises exactly when it holds no cell; otherwise the image extent is the Mercator image of the fixed corners, whatever extent the scan found |
| PngsOldBroken.MercRowsDescend | generate_pngs_old_broken.py:156-157 | row 0 is `merc_y_max`, `merc_y` strictly falls with the row, and the last row never reaches `merc_y_min` |
| PngsOldBroken.GenerateTempImage | generate_pngs_old_broken.py:139-180 | the temperature image is saved unflipped: each pixel is the `TempPixel` of its point in the Mercator image of the fixed corners |
| PngsOldBroken.GenerateRainSunImage | generate_pngs_old_broken.py:182-244 | skipped exactly when a month is missing or empty; otherwise it crashes exactly when a grid holds no cell; when written, the thresholds are the legacy tertiles, and saved row `r` holds the `RainSunPixel` computed for row `H-1-r` of the fixed corners' Mercator extent |
| PngsOldBroken.RainSunUnflipped | generate_pngs_old_broken.py:182-236 | with the same skip, crash and threshold behaviour, but without the flip: saved row `r` holds the pixel computed for row `r`, as in the temperature image |
| PngsOldBroken.RainSunUpsideDown | generate_pngs_old_broken.py:238-239 | in an array laid out as the saved rain/sun image, row 0 holds the pixels computed at the last row, whose northing is below every other row's; the temperature image's row 0 is computed at the northern edge |
| ProcessTemperature.ToUnit | process_temperature.py:133 | `to_rgb` of a palette colour has components in `[0, 1]` |
| ProcessTemperature.BytesRoundTrip | process_temperature.py:202 | `(rgb * 255).astype('uint8')` gives the palette colour back, and white becomes 255s |
| ProcessTemperature.DecileIndex | process_temperature.py:127-128 | after the overwrites, the index is one more than the last bound the value exceeds, or 0, and the value exceeds no later bound |
| ProcessTemperature.DecileIndexCounts | process_temperature.py:124-128 | with ascending bounds, the index is the number of bounds strictly below the value |
| ProcessTemperature.EqualStaysLower | process_temperature.py:128 | a value equal to bound `k` gets an index of at most `k` (strict `>`) |
| ProcessTemperature.CellColour | process_temperature.py:131-133 | a NaN cell is white, and a valid cell is one of the ten palette colours |
| ProcessTemperature.MarkAbove | process_temperature.py:128 | one masked assignment sets exactly the valid cells above the bound to `i + 1` and leaves the rest unchanged |
| ProcessTemperature.DecileIndices | process_temperature.py:124-128 | after the loop over the bounds, every cell holds its decile index, or 0 if it is NaN |
| ProcessTemperature.PaintIndex | process_temperature.py:131-133 | one colour pass paints exactly the valid cells with index `i` and leaves the rest unchanged |
| ProcessTemperature.PaintRow | process_temperature.py:131-133 | one colour pass over one row paints exactly that row's valid cells with index `i` and leaves every other cell unchanged |
| ProcessTemperature.PaintAll | process_temperature.py:130-133 | after the ten passes over a white array, every cell has its `CellColour` |
| ProcessTemperature.CreateTempRgbArray | process_temperature.py:102-138 | with no valid value the result is all white; otherwise output row `r` is the colouring of input row `h-1-r`, with the shape kept |
| ProcessTemperature.NoValidCells | process_temperature.py:111-115 | a grid with no valid value has only NaN cells |
| ProcessTemperature.StoredEmptyIffNotSupplied | process_temperature.py:161-210 | a month's list is empty exactly when no year's file opened and had a slice for that month |
| ProcessTemperature.CompleteFilesStoreEveryMonth | process_temperature.py:161-219 | when every file that opens has all twelve slices, a month's list is empty exactly when no year's file was found and opened |
| ProcessTemperature.CollectMonthly | process_temperature.py:144-219 | each of the twelve lists holds that month's array from every year whose file opened and has that slice, in year order; a missing or unreadable file adds nothing, and a short file adds only its first months |
| ProcessTemperature.MonthsToAverage | process_temperature.py:229-236 | exactly the months with a non-empty list are averaged, in ascending order |
| OverlayImages.TempColour | generate_overlay_images.py:76-79 | the decoded colour is the palette entry of the equal-width bin |
| OverlayImages.PairColour | generate_overlay_images.py:122-125 | the decoded colour is the bivariate colour of the level pair |
| OverlayImages.ProcessTemp | generate_overlay_images.py:59-80 | skipped with no file; otherwise each non-NaN cell gets its bin colour with alpha 255, and other cells stay zero |
| OverlayImages.ProcessRainSun | generate_overlay_images.py:92-126 | skipped unless both files exist; otherwise a cell is coloured exactly when both values are present |
| LeafletImages.TempColormap | generate_leaflet_images.py:131-135 | the unguarded index picks a palette string, which decodes to the PNG generators' colour for the temperature |
| LeafletImages.DefaultHeight | generate_leaflet_images.py:88-91 | a given height is kept; otherwise `int(width·rows/cols)` fails exactly when there are no columns, and for `width ≥ 0` is the floor of `width·rows/cols` |
| LeafletImages.HeightBound | generate_leaflet_images.py:91 | for `width ≥ 0`, `h·cols ≤ width·rows < (h+1)·cols` |
| LeafletImages.CreateImageFromData | generate_leaflet_images.py:83-114 | a figure exactly when the height can be computed (it is given, or the grid has columns) and every non-NaN cell's colour string decodes; its height is `DefaultHeight`; non-NaN cells get their decoded colour with alpha 255 and the rest stay zero |
| LeafletImages.FillCellRow | generate_leaflet_images.py:103-110 | one pass of the `j` loop succeeds exactly when every colour string of the row decodes, and then sets each cell of the row to its decoded colour, leaving other rows unchanged |
| LeafletImages.ProcessTemperature | generate_leaflet_images.py:116-143 | skipped with no file; it raises exactly on a grid with no columns (the default height divides by the column count); otherwise the figure height is the floor of `1200·rows/cols`, and each non-NaN cell has the palette colour of its temperature |
| LeafletImages.NestedPairColour | generate_leaflet_images.py:196-199 | `BIVARIATE_COLORS[rain_level][sun_level]` is defined for every level pair and decodes to the bivariate colour |
| LeafletImages.ProcessRainSun | generate_leaflet_images.py:145-212 | skipped unless both files exist; it raises exactly on a grid with no columns (`int(12 * rows/cols)`); otherwise the figure height is the floor of `12·rows/cols`, and a cell is coloured exactly when both values are present |
| Landmarks.PaintedIsLastCover | generate_test_image_fixed.py:48-84 | where discs overlap, a pixel shows the colour of the last landmark in list order whose disc covers it |
| Landmarks.PaintedUncovered | generate_test_image.py:45-81 | a pixel that no disc covers stays `(0,0,0,0)` |
| Landmarks.CentreOfLastShowsItsColour | generate_test_image_fixed.py:77-84 | the centre pixel is always written: the last placed landmark shows its colour there |
| Landmarks.DrawLandmarks | generate_test_image_fixed.py:45-84 | the loop over the landmarks fails exactly when a placement divides by zero; otherwise every pixel is the result of stamping the placed landmarks in order onto a transparent image |
| Landmarks.StepIndexBack | generate_test_image_fixed.py:59-74 | an offset within the span gives an index in `[0, k]`, and converting back gives a coordinate at most one step short of the offset |
| Landmarks.StepIndexMonotone | generate_test_image.py:66-67 | a larger offset never gives a smaller index |
| TestImageFixed.Place | generate_test_image_fixed.py:53-63 | skipped exactly outside the lat/lng bounds; a zero-width span inside them raises; otherwise the pixel lies in the image |
| TestImageFixed.RawWithinImage | generate_test_image_fixed.py:58-63 | for an in-bounds landmark, the row lies in `[0, H-1]` and the column in `[0, W-1]` before the clamp, so the clamp changes nothing |
| TestImageFixed.BackConversion | generate_test_image_fixed.py:70-74 | `verify_lat ≥ lat` by less than one row step `span/(H-1)`, and `verify_lng ≤ lng` by less than one column step |
| TestImageFixed.RowBack | generate_test_image_fixed.py:59-71 | `verify_lat` of the computed row is at or north of the latitude, by less than one row step |
| TestImageFixed.ColumnBack | generate_test_image_fixed.py:60-72 | `verify_lng` of the computed column is at or west of the longitude, by less than one column step |
| TestImageFixed.GenerateTestImage | generate_test_image_fixed.py:19-84 | the bounds are the corners' WGS84 images; the image is the four landmarks stamped in order |
| TestImage.Place | generate_test_image.py:53-70 | skipped exactly when the grid point is missing or outside `0..700000 × 0..1250000`; inside it, a zero-width Mercator span raises exactly when it occurs; otherwise the clamped pixel lies in the image |
| TestImage.RowsFollowNorthing | generate_test_image.py:64-69 | row 0 is `merc_y_max`; the row is non-increasing in `merc_y`, before and after the clamp; `merc_y_min` lands on row `H`, which the clamp moves to `H-1` |
| TestImage.ColumnsFollowEasting | generate_test_image.py:67-70 | column 0 is `merc_x_min`, and the clamped column is non-decreasing in `merc_x` |
| TestImage.GenerateTestImage | generate_test_image.py:22-81 | the image is the four landmarks, placed through the two transforms and stamped in order onto a transparent image |

## Left out

- Reprojection: pyproj `Transformer.transform` (British National Grid, WGS84 and Web Mercator) is foreign code. Every transform is a function parameter, so no property of the projection itself is modelled.
- Input and output:
  - NetCDF loading and gzip/JSON reading and writing;
  - directory creation and size accounting;
  - PNG saving through PIL and matplotlib, including figure sizing, `imshow` and the colour-bar key;
  - printing.
- The file search per year of the overlay and leaflet generators is an `Option` input: `None` when no file matches.
- The extraction step sees each year's file as not found, holding no recognised variable, or opened with the time slices of its data variable. Which variable is chosen (`tasmax`, `rainfall`, `sun` or the first three-dimensional one) is not modelled. A run that stops on a short file never reaches the later calls or the metadata; the model only reports that it stopped.
- The temperature collection loop sees each year's file as not found, unreadable, or opened with the monthly slices it can read. The number of failed images is only printed and is not modelled.
- Floating-point numerics:
  - `np.percentile` (the nine decile bounds and the dense generators' thresholds);
  - `np.mean` (the monthly averages);
  - `round(value, 1)` of stored values.

  The bounds and thresholds are inputs. The model stores the unrounded value.
- Floating-point rounding in general: reals are exact, so interpolation, `int()` and `c / 255 * 255` carry no rounding error. `ProcessTemperature.BytesRoundTrip` relies on this.
- Dictionary iteration order: the flattening visits keys in an unspecified order. Only a sorted copy is ever used (`Classify.TertilesOrderIndependent`).
- `ExtractData.ProcessVariable` requires every slice to be a raster of one common shape, containing the Woolhampton cell when tracking. The source accepts files of different shapes, and a raster too small for the Woolhampton cell raises `IndexError`; the model does not treat either case.
- `ExtractData.ChooseTemperatureScale` does not model the fallback observed range (0, 25), which only feeds a printed message. The metadata records `None` then.
- `ExtractData.ChooseTemperatureScale` takes the observed range as the least and greatest sample and does not model its `round(·, 1)`.
- `Colours.HexToRgb` and `Colours.DecodeAtOne` accept only plain hexadecimal digits. Python's `int(s, 16)` also accepts surrounding whitespace, a sign, a `0x` prefix and underscores. The source strings are all plain `#rrggbb`.
- `LeafletImages.DefaultHeight`: beyond the crash on a grid with no columns, the height only sizes the matplotlib figure and does not affect the colours.
- `LeafletImages.ProcessRainSun` takes its thresholds as inputs, so whatever `np.percentile` does on a month with no valid value is not modelled.
- `OverlayImages.ProcessRainSun` takes its thresholds as inputs too (generate_overlay_images.py:110-114), so whatever `np.percentile` does on a month with no valid value is not modelled.
- The dense generators' rain and sun grids are assumed to have the same shape. The source indexes both with the rain grid's shape.
- Leaflet and overlay bounds (`get_lat_lng_bounds`, the corner reprojections): the overlay bounds only feed printing; the leaflet bounds are written into `metadata.json`, whose writing is left out with the other JSON output.
- The diagnostic and drawing scripts (pixel-location checks, orientation and row inspection, coordinate and maths checks, labelled and example images) are not part of this model. They only print, or draw synthetic pictures.
- The interactive web viewer is not part of this model.

## Findings

| source | as written | input that shows it | evidently intended | confidence | as-written member | corrected member |
|---|---|---|---|---|---|---|
| generate_pngs_old_broken.py:238-239 | the rain/sun array is `np.flipud`-ed after a fill whose row 0 is already the northern edge (`merc_y_max`, line 156-157 and 217) | any month with data: saved row 0 holds the row computed at the southern edge, while the temperature image saved by the same script keeps north in row 0 | save the rain/sun array unflipped, as the temperature array is (line 175) | not executed | PngsOldBroken.GenerateRainSunImage, PngsOldBroken.RainSunUpsideDown | PngsOldBroken.RainSunUnflipped |
