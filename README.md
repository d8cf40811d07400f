# Parcel and sticker extraction from aerial rasters, modelled in Dafny

This project models the core of four Python scripts that turn a georeferenced aerial image of
hand-drawn parcel boundaries and numbered stickers into GeoJSON. Each script gets its own Dafny
module:

- **BoundaryExtractor** models the boundary extractor. It pads the image two ways so that two grids of
  P×P patches, offset by P/2, cover it. It segments every patch into a {0, 255} mask,
  reassembles and crops both mosaics, dilates them with a 5×5 kernel and ORs them. It can
  also write a world file.
- **Vectorizer** models the vectoriser. It keeps the inner contours of the mask's skeleton and
  maps their pixels through the GDAL geotransform. It repairs and reprojects the polygons,
  drops those under the geodesic-area threshold and removes holes (splitting multipolygons).
  It then emits one GeoJSON feature per parcel, with swapped axes and `parcelID`s 1..N.
- **StickerOcr** models the sticker reader. It keeps the sticker contours of at least 35% of the
  largest contour's area. It reads each sticker with five OCR attempts, at widths 200, 150,
  250, 100 and 300, with an upside-down retry. It chooses a number and a "good" or
  "needs check" flag, then places a GeoJSON point at the sticker's projected centroid.
- **RelationAudit** models the relation audit. It counts the stickers inside each parcel,
  compares the numbers with the ODK records and produces the lines of the log report.

Shared modules:
- `Wrappers` holds Option and Result; Result models the Python exceptions the scripts raise.
- `Seqs` holds comprehension filters, counts and distinctness.
- `Text` holds the Python string operations used: `rsplit(".", 1)`, `s[:-k]`, `strip`, `isdigit` and `str`.
- `Geo` holds the geotransform.
- `Raster` holds grids, padding, windows, `patchify`/`unpatchify`, dilation and bitwise OR.

Library calls the scripts make become parameters:
- OpenCV contour finding, mean-shift filtering and grayscale conversion;
- the Canny/distance-transform/watershed chain;
- shapely's `buffer(0)` repair and `contains`;
- pyproj reprojection and geodesic area;
- Tesseract.

Loops that build lists become methods with loop invariants. Each is proved equal to a
specification function, and the properties are proved as lemmas about those functions. In-place
updates of numpy arrays use Dafny arrays: the `masks` array of patch masks, `a[cond] = v` and
the `parcelID` numbering loop.

## Model

| member | source | states |
|---|---|---|
| Text.OfFormat | scripts/vectorizer_grass_2023_02_2douglas.py:86-93 | `of_format` (and its twin `file_is_of_format`) raises IndexError exactly when the name has no '.'; otherwise it is true exactly when the format has no '.' and the name ends with '.' + format |
| Text.ExtensionIsSuffix | scripts/boundary_extractor_mean_2023_02.py:63-70 | the text after the last '.' equals a dot-free format exactly when the name ends with '.' + format |
| Text.TifExtension | scripts/vectorizer_grass_2023_02_2douglas.py:187-192 | a name with a '.' is "of format tif" exactly when it ends with ".tif" |
| Text.RSplitOnce | scripts/boundary_extractor_mean_2023_02.py:65 | `rsplit(".", 1)` gives one part (the whole name) when there is no '.', else two parts joined by the last '.' with no '.' in the second |
| Text.DropLast | scripts/vectorizer_grass_2023_02_2douglas.py:181 | `s[:-k]` is a prefix of `s`, `k` characters shorter, or empty |
| Text.Strip | scripts/OCR_colab_2023_02.py:46 | `strip()` is the slice left after cutting all leading and trailing whitespace; its ends are not whitespace |
| Text.StripIdempotent | scripts/OCR_colab_2023_02.py:46 | stripping a stripped reading changes nothing |
| Text.NatToString | scripts/analyse_relations_2023_02.py:52 | `str(n)` is a digit string without leading zeros that denotes `n` |
| Vectorizer.OutPathDerivation | scripts/vectorizer_grass_2023_02_2douglas.py:181 | with the raw path `geojson_path[:-5] + "_raw.geojson"`, the final path `raw_path[:-12] + ".geojson"` (line 142) is `geojson_path[:-5] + ".geojson"`: never the input path, and `b + ".geojson"` for an input `b + ".json"` |
| Vectorizer.Georeference | scripts/vectorizer_grass_2023_02_2douglas.py:77-83 | one map point per contour vertex, in order, each the GDAL affine image of the vertex (x = column, y = row) |
| Vectorizer.MatchesAny | scripts/vectorizer_grass_2023_02_2douglas.py:113-115 | the search loop returns true exactly when some external contour equals the item |
| Vectorizer.IsRelevantContour | scripts/vectorizer_grass_2023_02_2douglas.py:108-116 | a contour is relevant exactly when it has at least 3 points and is not an external contour |
| Vectorizer.ContoursFromMask | scripts/vectorizer_grass_2023_02_2douglas.py:69-74 | the loop keeps, in order, exactly the relevant RETR_CCOMP contours |
| Vectorizer.ContoursAreOrderedSelection | scripts/vectorizer_grass_2023_02_2douglas.py:69-74 | the kept contours are an order-preserving subsequence and every relevant contour's position is kept (the outer frame never survives) |
| Vectorizer.RedundantLengthCheck | scripts/vectorizer_grass_2023_02_2douglas.py:232-233 | the second `len(cnt) >= 3` test never drops a selected contour |
| Vectorizer.ProjectContours | scripts/vectorizer_grass_2023_02_2douglas.py:231-243 | one repaired, reprojected polygon per contour of at least 3 points, in order |
| Vectorizer.FilterByGeodesicArea | scripts/vectorizer_grass_2023_02_2douglas.py:96-104 | a polygon is kept exactly when its absolute geodesic area reaches the threshold |
| Vectorizer.AreaFilterIsOrderedSelection | scripts/vectorizer_grass_2023_02_2douglas.py:101-102 | the area filter is an order-preserving selection of exactly the large-enough polygons |
| Vectorizer.AreaFilterMonotone | scripts/vectorizer_grass_2023_02_2douglas.py:101-102 | raising the threshold gives a subsequence of the lower threshold's result, never more parcels |
| Vectorizer.RemoveHoles | scripts/vectorizer_grass_2023_02_2douglas.py:250-265 | the hole-removal loop yields the hole-free parts of each geometry in order; no result has a hole |
| Vectorizer.HoleFreeAppend | scripts/vectorizer_grass_2023_02_2douglas.py:251-265 | hole removal works geometry by geometry: it distributes over concatenation |
| Vectorizer.HoleFreeHasNoHoles | scripts/vectorizer_grass_2023_02_2douglas.py:256-263 | every polygon out of hole removal has no interior ring |
| Vectorizer.HoleFreeCases | scripts/vectorizer_grass_2023_02_2douglas.py:252-265 | a polygon gives its exterior ring alone; a multipolygon gives one exterior ring per part when it can be listed and nothing otherwise; any other geometry is skipped |
| Vectorizer.PermuteCoordinates | scripts/vectorizer_grass_2023_02_2douglas.py:124-126 | the coordinate swap keeps the vertex count |
| Vectorizer.PermuteInvolution | scripts/vectorizer_grass_2023_02_2douglas.py:124-126 | each vertex has its two coordinates exchanged, and swapping twice restores the ring |
| Vectorizer.NumberParcels | scripts/vectorizer_grass_2023_02_2douglas.py:276-277 | the numbering loop sets every feature's `parcelID` to its index + 1 and changes nothing else |
| Vectorizer.DenseIdsAreOneToN | scripts/vectorizer_grass_2023_02_2douglas.py:276-277 | the IDs are pairwise distinct and are exactly {1, ..., N} |
| Vectorizer.EmitFeatures | scripts/vectorizer_grass_2023_02_2douglas.py:271-277 | one feature per parcel, in order: the swapped exterior ring, `parcelID` k + 1, `parcelType` "n/a" |
| Vectorizer.GeneratePolygons | scripts/vectorizer_grass_2023_02_2douglas.py:178-277 | IndexError exactly when an input name has no '.'; otherwise the numbered features of the parcels the pipeline computes, both output paths, and each "not a tif" warning exactly when that name does not end in ".tif" |
| Raster.Pad | scripts/boundary_extractor_mean_2023_02.py:187 | `copyMakeBorder` with a constant: the image shifted by (top, left) inside a border of the fill value |
| Raster.Window | scripts/boundary_extractor_mean_2023_02.py:229 | the numpy crop `g[r0 : r0 + h, c0 : c0 + w]` |
| Raster.PatchAt | scripts/boundary_extractor_mean_2023_02.py:224 | patch (i, j) is the p×p window at (i·p, j·p) |
| Raster.Patchify | scripts/boundary_extractor_mean_2023_02.py:212 | `patchify` with step p gives nr × nc tiles of p × p |
| Raster.Reassemble | scripts/boundary_extractor_mean_2023_02.py:228 | `unpatchify` gives an (nr·p) × (nc·p) grid |
| Raster.ReassemblePatchify | scripts/boundary_extractor_mean_2023_02.py:212-228 | reassembling the patches of a grid gives the grid back |
| Raster.ReassembleAt | scripts/boundary_extractor_mean_2023_02.py:228 | pixel (r, c) of the reassembled grid is pixel (r % p, c % p) of tile (r / p, c / p) |
| Raster.PatchAtPixel | scripts/boundary_extractor_mean_2023_02.py:224 | pixel (a, b) of patch (i, j) is pixel (i·p + a, j·p + b) of the image |
| Raster.ReassembleBytes | scripts/boundary_extractor_mean_2023_02.py:228 | byte tiles reassemble into a byte grid |
| Raster.ReassembleBinary | scripts/boundary_extractor_mean_2023_02.py:228 | {0, 255} tiles reassemble into a {0, 255} grid |
| Raster.WindowKeepsValues | scripts/boundary_extractor_mean_2023_02.py:229 | a crop of a byte (binary) grid is a byte (binary) grid |
| Raster.Dilate | scripts/boundary_extractor_mean_2023_02.py:255-257 | the dilated grid has the extent of the input |
| Raster.DilateIsNeighbourhoodMax | scripts/boundary_extractor_mean_2023_02.py:255-257 | a dilated pixel is the maximum of its in-bounds 5×5 neighbourhood: no neighbour exceeds it and one equals it |
| Raster.DilateBinary | scripts/boundary_extractor_mean_2023_02.py:255-257 | on a binary mask a dilated pixel is 255 exactly when some pixel within two rows and columns is 255 |
| Raster.DilateKeepsValues | scripts/boundary_extractor_mean_2023_02.py:255-257 | dilation keeps binary masks binary and bytes in byte range |
| Raster.BitOr | scripts/boundary_extractor_mean_2023_02.py:260 | the OR of two bytes is a byte, at least as large as each operand |
| Raster.BitOrAlgebra | scripts/boundary_extractor_mean_2023_02.py:260 | byte OR is commutative and idempotent, with 0 as unit, and 255 OR 0 is 255 |
| Raster.Merge | scripts/boundary_extractor_mean_2023_02.py:260 | `bitwise_or` of two images keeps their extent and byte range |
| Raster.MergeBinary | scripts/boundary_extractor_mean_2023_02.py:260 | on binary masks the merged pixel is 255 exactly where either mask is 255, and the result is binary |
| Raster.MergeAlgebra | scripts/boundary_extractor_mean_2023_02.py:260 | the merge is commutative and idempotent |
| BoundaryExtractor.TileCount | scripts/boundary_extractor_mean_2023_02.py:190 | the whole patches cover the padded image and reach at most one patch beyond the image (`before + n < Tiles·p <= before + n + p`) |
| BoundaryExtractor.PadAndCrop | scripts/boundary_extractor_mean_2023_02.py:187-196 | white padding cropped to whole patches: a multiple of p in both directions, covering the image plus its offset; the image pixels sit at (top + r, top + c), white elsewhere |
| BoundaryExtractor.PadAndCropAlignment | scripts/boundary_extractor_mean_2023_02.py:252 | cropping the padded image at (top, top) to the image extent gives the image back |
| BoundaryExtractor.ReadAndResize | scripts/boundary_extractor_mean_2023_02.py:172-198 | a negative patch size fails in `copyMakeBorder` and 0 divides by zero; otherwise the two padded crops (offsets 0 and p/2) and the image extent |
| BoundaryExtractor.Where | scripts/boundary_extractor_mean_2023_02.py:104 | the numpy comparison is true exactly at the pixels meeting the condition |
| BoundaryExtractor.WatershedMask | scripts/boundary_extractor_mean_2023_02.py:102-105 | the watershed mask is binary and 255 exactly where the gray level is at most the threshold |
| BoundaryExtractor.LabelMask | scripts/boundary_extractor_mean_2023_02.py:111-112 | the returned mask is 255 exactly where the label is positive, other labels unchanged |
| BoundaryExtractor.LabelMaskBinary | scripts/boundary_extractor_mean_2023_02.py:111-112 | the returned mask is binary exactly when no label is negative |
| BoundaryExtractor.BoundaryMask | scripts/boundary_extractor_mean_2023_02.py:76-126 | the patch mask is p×p and 255 exactly where the watershed label (given the thresholded mask) is positive |
| BoundaryExtractor.CopyOf | scripts/boundary_extractor_mean_2023_02.py:102 | `copy()` is a fresh array with the same contents |
| BoundaryExtractor.AssignWhere | scripts/boundary_extractor_mean_2023_02.py:104-105 | `a[cond] = v` sets exactly the pixels meeting the condition and keeps the rest |
| BoundaryExtractor.FindBoundaries | scripts/boundary_extractor_mean_2023_02.py:102-112 | the in-place threshold and binarise steps compute the patch's boundary mask |
| BoundaryExtractor.ToBytes | scripts/boundary_extractor_mean_2023_02.py:214-218 | storing into the uint8 `masks` array wraps modulo 256 and leaves byte masks unchanged |
| BoundaryExtractor.PatchMask | scripts/boundary_extractor_mean_2023_02.py:224-226 | what is stored for patch (i, j) is a p×p byte mask |
| BoundaryExtractor.RowMajorVisitsEachOnce | scripts/boundary_extractor_mean_2023_02.py:222-223 | the nested loops visit every patch of the grid exactly once and nothing else |
| BoundaryExtractor.SegmentPatches | scripts/boundary_extractor_mean_2023_02.py:222-226 | after the loops `masks[i, j]` holds the mask of patch (i, j) for every patch, visited in row-major order |
| BoundaryExtractor.SegmentRow | scripts/boundary_extractor_mean_2023_02.py:223-226 | the inner loop fills row i of `masks` and leaves the other rows unchanged |
| BoundaryExtractor.MaskTiles | scripts/boundary_extractor_mean_2023_02.py:214-226 | the patch masks form an nr × nc tiling of p×p byte masks |
| BoundaryExtractor.Mosaic | scripts/boundary_extractor_mean_2023_02.py:212-228 | one patch pass reassembles exactly the masks of all patches |
| BoundaryExtractor.GridBoundaries | scripts/boundary_extractor_mean_2023_02.py:228-229 | the cropped mosaic has the image's extent and byte values |
| BoundaryExtractor.GridBoundariesAt | scripts/boundary_extractor_mean_2023_02.py:228-229 | pixel (r, c) of the cropped mosaic is pixel ((top + r) % p, (top + c) % p) of the mask of patch ((top + r) / p, (top + c) / p) |
| BoundaryExtractor.PatchPixelAt | scripts/boundary_extractor_mean_2023_02.py:212 | that patch pixel is pixel (top + r, top + c) of the padded image |
| BoundaryExtractor.PatchMaskBinary | scripts/boundary_extractor_mean_2023_02.py:226 | with non-negative watershed labels every stored patch mask is binary |
| BoundaryExtractor.GridBoundariesBinary | scripts/boundary_extractor_mean_2023_02.py:228-229 | with non-negative labels every cropped mosaic is binary |
| BoundaryExtractor.GridMask | scripts/boundary_extractor_mean_2023_02.py:234-252 | each pass's cropped mosaic has the image extent and byte values |
| BoundaryExtractor.GridMaskAlignment | scripts/boundary_extractor_mean_2023_02.py:251-252 | each mosaic is aligned with the image: its pixel (r, c) comes from the patch that holds image pixel (r, c), at the same place |
| BoundaryExtractor.Boundaries | scripts/boundary_extractor_mean_2023_02.py:254-260 | the boundary raster has the image's extent and byte values |
| BoundaryExtractor.BoundariesBinary | scripts/boundary_extractor_mean_2023_02.py:254-260 | with non-negative labels the raster is binary, and a pixel is 255 exactly when either dilated mosaic is 255 there |
| BoundaryExtractor.CroppedMosaic | scripts/boundary_extractor_mean_2023_02.py:234-252 | one pass over the padded crop, reassembled and cropped back, is that grid's mask of the image |
| BoundaryExtractor.WorldFileName | scripts/boundary_extractor_mean_2023_02.py:157 | the world file name ends in ".tfw": the part before the last '.' plus ".tfw"; a name without '.' would give the name plus ".tfw", but `cv2.imwrite` at line 264 has already refused such a name |
| BoundaryExtractor.WorldFileParameters | scripts/boundary_extractor_mean_2023_02.py:158-163 | the six lines written are gt1, gt4, gt2, gt5, gt0, gt3; un-permuting them gives the geotransform back, while read as a world file (origin at the centre of the upper-left pixel) they place the origin half a pixel off, at gt0 − ½(gt1 + gt2), gt3 − ½(gt4 + gt5) |
| BoundaryExtractor.WorldFileParametersOffByHalfPixel | scripts/boundary_extractor_mean_2023_02.py:146-163 | the written world file puts the centre of pixel (col, row) where GDAL puts its corner, and agrees with GDAL's centre only when the half-pixel offsets cancel |
| BoundaryExtractor.WorldFileCounterexample | scripts/boundary_extractor_mean_2023_02.py:158-163 | for a north-up raster at (100, 200) with 1-unit pixels the written file centres the first pixel at (100, 200), where GDAL has (100.5, 199.5) |
| BoundaryExtractor.CenteredWorldFileParameters | scripts/boundary_extractor_mean_2023_02.py:150-151 | the world file with the pixel-centre origin maps every pixel centre where GDAL puts it and reads back to the geotransform |
| BoundaryExtractor.TfwOutputs | scripts/boundary_extractor_mean_2023_02.py:267-275 | with `tfw` set, an input name without '.' raises IndexError; otherwise a world file next to the boundaries exactly when `tfw`, and the "not a tif" warning exactly when `tfw` and the input does not end in ".tif" |
| BoundaryExtractor.ExtractBoundaries | scripts/boundary_extractor_mean_2023_02.py:201-275 | fails exactly for a non-positive patch size (BorderError or ZeroDivisionError) or the IndexError above; otherwise the boundary raster is the OR of the two dilated, cropped mosaics, plus the world file and warning |
| StickerOcr.Classify | scripts/OCR_colab_2023_02.py:45-60 | an attempt is good exactly when the stripped upright or rotated reading starts with a digit and ends with '*'; the number is that reading without the '*'; a failure records "NULL" for an empty rotated reading, else the rotated text |
| StickerOcr.RotatedOnlyWhenNeeded | scripts/OCR_colab_2023_02.py:48-50 | a usable upright reading decides the attempt alone |
| StickerOcr.Readings | scripts/OCR_colab_2023_02.py:33-60 | five attempts, one per width; every good number starts with a digit |
| StickerOcr.ReadingsPartition | scripts/OCR_colab_2023_02.py:36-60 | every attempt lands in exactly one of `goodres` and `failed` |
| StickerOcr.CollectReadings | scripts/OCR_colab_2023_02.py:33-60 | the width loop builds exactly the good numbers and failed texts of the five attempts, five entries in all |
| StickerOcr.ModeIndex | scripts/OCR_colab_2023_02.py:64 | the first position whose value is most frequent |
| StickerOcr.Mode | scripts/OCR_colab_2023_02.py:64 | `mode` returns a value of the list that is at least as frequent as any other and, among equally frequent values, occurs first |
| StickerOcr.SelectionRules | scripts/OCR_colab_2023_02.py:62-80 | "good" exactly when there is a good number and its mode is accepted; the result is then the mode; otherwise "needs check", with the first good number after a tie; with no good number, the mode of the all-digit failed texts (the first of them after a tie on an old Python) when there is one, and "NULL" otherwise |
| StickerOcr.DetectNum | scripts/OCR_colab_2023_02.py:33-82 | `detect_num` returns the selection from the five attempts |
| StickerOcr.DetectOutcomes | scripts/OCR_colab_2023_02.py:62-82 | "NULL" exactly when every attempt failed and no failed text is all digits; "good" only when some attempt was usable |
| StickerOcr.GoodNumbersEmpty | scripts/OCR_colab_2023_02.py:62-69 | `goodres` is empty exactly when every attempt failed |
| StickerOcr.Largest | scripts/OCR_colab_2023_02.py:104 | `max(key=contourArea)` is a contour of the list with the largest area, and the first such: no earlier contour has an area as large |
| StickerOcr.StickerContours | scripts/OCR_colab_2023_02.py:103-112 | ValueError exactly for no contours; otherwise `newcontours` keeps exactly the contours with area at least 0.35 × the largest area |
| StickerOcr.StickerContoursSelection | scripts/OCR_colab_2023_02.py:104-112 | the kept contours are an order-preserving selection of exactly the large enough ones, and the largest is kept when its area is not negative |
| StickerOcr.CentroidAsWrittenAgreesIff | scripts/OCR_colab_2023_02.py:223-224 | the written centroid formula is GDAL's at a pixel exactly when cx·gt4 = cy·gt2 |
| StickerOcr.CentroidAsWrittenAgreesEverywhereIff | scripts/OCR_colab_2023_02.py:223-224 | the written formula agrees with GDAL at every pixel exactly for north-up rasters |
| StickerOcr.CentroidCounterexample | scripts/OCR_colab_2023_02.py:223-224 | for gt = (0, 1, 0, 0, 1, -1) pixel (1, 0) is written at (2, 0), where GDAL puts it at (1, 1) |
| StickerOcr.Centroid | scripts/OCR_colab_2023_02.py:212-224 | the projected centroid is the GDAL map of the pixel, as the vectoriser computes it, and equals the written formula on north-up rasters |
| StickerOcr.ReadStickers | scripts/OCR_colab_2023_02.py:122-203 | for each kept contour, in order, its centroid and the number and check `detect_num` reads from it |
| StickerOcr.StickerFeatures | scripts/OCR_colab_2023_02.py:221-240 | one point per centroid, at the reprojected centroid with its coordinates swapped, carrying the check and number of the same sticker |
| StickerOcr.DetectStickers | scripts/OCR_colab_2023_02.py:103-240 | ValueError exactly for no contours; otherwise one feature per kept contour, in order, at its centroid, with its detection |
| Seqs.UnlistedIsFilter | scripts/OCR_colab_2023_02.py:112 | dropping the listed positions is the filter, when exactly the failing positions are listed |
| Seqs.DistinctIffNoShrink | scripts/analyse_relations_2023_02.py:57 | `len(s) == len(set(s))` holds exactly when no value repeats |
| RelationAudit.ContainedCount | scripts/analyse_relations_2023_02.py:30-33 | a parcel contains at most all the stickers |
| RelationAudit.Flagged | scripts/analyse_relations_2023_02.py:35-39 | the flagged parcels are parcels without exactly one sticker, in increasing order |
| RelationAudit.FlaggedComplete | scripts/analyse_relations_2023_02.py:35-39 | every parcel without exactly one sticker is flagged |
| RelationAudit.TallyPartition | scripts/analyse_relations_2023_02.py:35-39 | every parcel is either joined or flagged: `polys_to_join + len(polys_check_ids) == len(polys)` |
| RelationAudit.NoneFlaggedIff | scripts/analyse_relations_2023_02.py:29-39 | no parcel is flagged exactly when every parcel contains exactly one sticker |
| RelationAudit.NoneNeedsCheckIff | scripts/analyse_relations_2023_02.py:24-26 | `points_to_check` is 0 exactly when no sticker's detection is "needs check" |
| RelationAudit.TallyStickers | scripts/analyse_relations_2023_02.py:24-27 | the sticker loop counts the "needs check" detections and collects the sticker numbers in order |
| RelationAudit.CountContained | scripts/analyse_relations_2023_02.py:30-33 | the inner loop counts the stickers parcel i contains |
| RelationAudit.TallyParcels | scripts/analyse_relations_2023_02.py:29-39 | the parcel loop counts the parcels with exactly one sticker and lists the id and count of every other parcel, in order |
| RelationAudit.CompareWithOdk | scripts/analyse_relations_2023_02.py:43-49 | the comparison raises UnboundLocalError exactly when there are ODK records but no stickers; otherwise both missing counters stay 0 |
| RelationAudit.AppendCheckLines | scripts/analyse_relations_2023_02.py:61-68 | appends the check lines: "nothing to check", or the two counts and one line per flagged parcel |
| RelationAudit.AnalyzeRelations | scripts/analyse_relations_2023_02.py:9-77 | UnboundLocalError exactly when there are ODK records but no stickers; otherwise the log is the report |
| RelationAudit.ReportOfLayout | scripts/analyse_relations_2023_02.py:51-77 | the log is five summary lines, the duplicate line, the check lines, the amount line and the "ID-s match" line |
| RelationAudit.ReportFrame | scripts/analyse_relations_2023_02.py:51-77 | the report opens with the file name and the parcel, sticker, ODK and one-sticker counts, and always closes with "ID-s match odk data" |
| RelationAudit.DuplicateWarningIff | scripts/analyse_relations_2023_02.py:57-60 | line 6 warns of duplicates exactly when two stickers carry the same number |
| RelationAudit.NothingToCheckOf | scripts/analyse_relations_2023_02.py:61-62 | line 7 says nothing needs checking exactly when no parcel is flagged and no sticker needs a check |
| RelationAudit.NothingToCheckIff | scripts/analyse_relations_2023_02.py:61-62 | line 7 says nothing needs checking exactly when every parcel contains exactly one sticker and no detection is "needs check" |
| RelationAudit.CheckLinesLayout | scripts/analyse_relations_2023_02.py:63-68 | when something needs checking, the check lines are the two counts and one line per flagged parcel |
| RelationAudit.FlaggedParcelLines | scripts/analyse_relations_2023_02.py:63-68 | then lines 7 and 8 give the counts and line 9 + k names the k-th flagged parcel's id and sticker count, in parcel order |
| RelationAudit.AmountLineIff | scripts/analyse_relations_2023_02.py:71-74 | the next-to-last line reports equal amounts exactly when there are as many ODK records as stickers |

## Left out

- Image decoding and encoding (`imread`, `imwrite`, the RGBA-to-RGB conversion) is out. The boundary extractor starts from the decoded image.
- GDAL's `gdal.Info` is out. The geotransform is an input, and a raster without one is not modelled.
- Printing, file writing, the GeoJSON `dump` and the log file's name and timestamp are out.
- The `time` calls are out.
- Deleting the raw file is out.
- Mean-shift filtering, grayscale conversion, Canny, the distance transform, peak labelling and watershed are out.
  - They are the parameters `gray` and `watershed`.
  - Only their extents are assumed (`Segmenter`).
  - The binary-mask lemmas also assume non-negative labels (`NonNegativeLabels`), as watershed labels are.
- Skeletonisation and `findContours` are out. The vectoriser receives the two contour lists.
- shapely's `buffer(0)`, pyproj's reprojection and geodesic area are out. They are the parameters `repair`, `toWgs84` and `area`.
- The GRASS post-processing (`postprocess`: import, two generalisations, cleaning, export) is out. It is an external tool session. Only its output path is modelled.
- Vectorizer.RemoveHoles: whether `list(multipolygon)` succeeds depends on the shapely version. It is the parameter `listable`, the same for every multipolygon of a run.
- Floating-point rounding is out. Coordinates and areas are `real`.
  - The OCR script's `int(...)` truncation of the rectangle centre is part of `centroidOf`.
  - The `int(...)` truncation in `read_and_resize` is exact integer division.
- BoundaryExtractor.ExtractBoundaries: `patch_shape` is taken as (P, P, 3), as the script assumes. Other shapes are not modelled.
- BoundaryExtractor.ExtractBoundaries: the world file uses the corrected pixel-centre origin (see Findings). The as-written lines are BoundaryExtractor.WorldFileParameters.
- BoundaryExtractor.TfwOutputs: writes the corrected pixel-centre world file, BoundaryExtractor.CenteredWorldFileParameters, where the script writes gt1, gt4, gt2, gt5, gt0, gt3 (see Findings). The as-written lines are BoundaryExtractor.WorldFileParameters.
- Text.IsDigitChar: `isnumeric()` and `isdigit()` are limited to the ASCII digits. Tesseract is restricted to the characters 0-9 and '*' here.
- StickerOcr.Classify: `read(width, rotated)` stands for the resize, padding, 180° rotation and Tesseract call of one attempt.
- StickerOcr.ReadStickers: the `approxPolyDP`/`minAreaRect`/`getRectSubPix` cropping pipeline is out.
  - The centroid comes from the parameter `centroidOf`.
  - The OCR input comes from `readOf`.
  - The ValueError of `max(contours2)` for a crop without contours is not modelled.
- StickerOcr.StickerFeatures: uses the corrected GDAL centroid (see Findings). The as-written formula is StickerOcr.CentroidAsWritten.
- StickerOcr.DetectStickers: places each sticker at the corrected GDAL centroid, StickerOcr.Centroid, not at the script's formula (see Findings). The two agree on north-up rasters (StickerOcr.CentroidAsWrittenAgreesEverywhereIff).
- StickerOcr.SelectResult: `statistics.mode` is Python-version dependent. The parameter `legacyMode` selects the pre-3.8 behaviour, which raises when there is no unique mode.
- RelationAudit.AnalyzeRelations: reading the two GeoJSON files and the ODK records is out.
  - A sticker is its `Detection` and `Sticker_number`.
  - A parcel is its `parcelID`.
  - The ODK records are their `SpatialID` list, so a record without that key is not modelled.
  - `contains` is shapely's containment test.
- RelationAudit.AnalyzeRelations: the log is a sequence of typed lines. `Wording` gives each line's exact text; the `'\n'.join` and the file write are out.
- Vectorizer.ProjectContours: a polygon that degenerates under `buffer(0)` is not dropped. The only length test is `len(cnt) >= 3` on the pixel contour, before the repair (lines 232-233).
- BoundaryExtractor.WorldFileParameters: the lines are written in the script's order, with gt4 on the second line and gt2 on the third (lines 158-163). No other world-file layout is modelled.

## Findings

| source | as written | input that shows it | evidently intended | confidence | as-written member | corrected member |
|---|---|---|---|---|---|---|
| scripts/OCR_colab_2023_02.py:223-224 | the projected x adds the column times gt4 and the projected y adds the row times gt2, so each coordinate depends on one pixel index only | gt = (0, 1, 0, 0, 1, -1), pixel (1, 0): written (2, 0), GDAL (1, 1) | GDAL's affine map, x = gt0 + col·gt1 + row·gt2 and y = gt3 + col·gt4 + row·gt5, as the vectoriser's `georeference` uses; the two agree on north-up rasters only | high for rotated rasters, not executed | StickerOcr.CentroidCounterexample | StickerOcr.Centroid |
| scripts/boundary_extractor_mean_2023_02.py:158-163 | lines 5 and 6 of the world file are gt0 and gt3, the outer corner of the upper-left pixel | north-up gt = (100, 1, 0, 200, 0, -1): the world file centres pixel (0, 0) at (100, 200), GDAL at (100.5, 199.5) | the centre of the upper-left pixel, as the function's own comment at lines 150-151 describes the world-file format | medium (half a pixel), not executed | BoundaryExtractor.WorldFileCounterexample | BoundaryExtractor.CenteredWorldFileParameters |
