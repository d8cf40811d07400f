/** The mask-to-parcel vectoriser: from the contours of a boundary mask's skeleton to
    numbered, hole-free parcel polygons in GeoJSON axis order.

    The image-processing and geodesy calls are parameters: the two `findContours` results
    (`ccomp`, `external`), shapely's `Polygon(...).buffer(0, join_style=2)` (`repair`), the
    pyproj reprojection applied to every vertex (`toWgs84`), and pyproj's geodesic area (`area`). */
module Vectorizer {
  import opened Wrappers
  import opened Seqs
  import opened Text
  import opened Geo

  /** A contour vertex as OpenCV reports it: x is the column, y the row. */
  datatype PixelPoint = PixelPoint(col: int, row: int)

  type Contour = seq<PixelPoint>

  /** A shapely polygon: an exterior ring and interior rings (holes). */
  datatype Polygon = Polygon(exterior: seq<Point>, holes: seq<seq<Point>>)

  /** The geometry a repaired polygon can come back as; `geomType` names any other kind. */
  datatype Geometry =
    | PolygonGeom(polygon: Polygon)
    | MultiPolygonGeom(parts: seq<Polygon>)
    | OtherGeom(geomType: string)

  /** A `parcelID` property: the placeholder text "n/a" or a number. */
  datatype PropertyValue = Text(text: string) | Number(n: int)

  /** A GeoJSON feature of the raw parcel collection: one ring plus its two properties. */
  datatype Feature = Feature(ring: seq<Point>, parcelId: PropertyValue, parcelType: string)

  // ---------------------------------------------------------------------------------------
  // Output paths

  /** The raw output path: `geojson_path[:-5] + "_raw.geojson"`. */
  function RawPath(geojsonPath: string): string
  {
    DropLast(geojsonPath, 5) + "_raw.geojson"
  }

  /** The final output path: `raw_path[:-12] + ".geojson"`. */
  function OutPath(rawPath: string): string
  {
    DropLast(rawPath, 12) + ".geojson"
  }

  /** Since "_raw.geojson" has 12 characters, the final path is `geojson_path[:-5] + ".geojson"`.
      It is therefore always 3 or more characters longer than `geojson_path` and never equal to it.
      For a path `b + ".json"` the two outputs are `b + "_raw.geojson"` and `b + ".geojson"`. */
  lemma {:induction false} OutPathDerivation(geojsonPath: string)
    ensures OutPath(RawPath(geojsonPath)) == DropLast(geojsonPath, 5) + ".geojson"
    ensures |OutPath(RawPath(geojsonPath))| >= |geojsonPath| + 3
    ensures forall b :: geojsonPath == b + ".json" ==>
              RawPath(geojsonPath) == b + "_raw.geojson" && OutPath(RawPath(geojsonPath)) == b + ".geojson"
  {
    var stem := DropLast(geojsonPath, 5);
    var raw := RawPath(geojsonPath);
    assert raw[..|raw| - 12] == stem;
    forall b | geojsonPath == b + ".json"
      ensures RawPath(geojsonPath) == b + "_raw.geojson"
    {
      assert geojsonPath[..|geojsonPath| - 5] == b;
    }
  }

  // ---------------------------------------------------------------------------------------
  // Georeferencing

  /** The contour mapped vertex by vertex through the geotransform. */
  function GeoMap(contour: Contour, gt: GeoTransform): (r: seq<Point>)
  {
    seq(|contour|, k requires 0 <= k < |contour| =>
      PixelToMap(gt, contour[k].col as real, contour[k].row as real))
  }

  /** `georeference`: one map point per contour vertex, in order, each the GDAL affine image
      (gt0 + px*gt1 + py*gt2, gt3 + px*gt4 + py*gt5) of that vertex. */
  method Georeference(contour: Contour, gt: GeoTransform) returns (georef: seq<Point>)
    ensures georef == GeoMap(contour, gt)
  {
    georef := [];
    for i := 0 to |contour|
      invariant georef == GeoMap(contour[..i], gt)
    {
      var point := contour[i];
      var xGeo := gt.originX + point.col as real * gt.pixelWidth + point.row as real * gt.rowRotation;
      var yGeo := gt.originY + point.col as real * gt.columnRotation + point.row as real * gt.pixelHeight;
      assert Point(xGeo, yGeo) == PixelToMap(gt, point.col as real, point.row as real);
      assert GeoMap(contour[..i + 1], gt) == GeoMap(contour[..i], gt) + [Point(xGeo, yGeo)];
      georef := georef + [Point(xGeo, yGeo)];
    }
    assert contour[..|contour|] == contour;
  }

  // ---------------------------------------------------------------------------------------
  // Contour selection

  /** The search loop of `is_relevant_contour`: some external contour equals `item`
      element-wise (`np.array_equal`). */
  function MatchesAny(item: Contour, externals: seq<Contour>): (r: bool)
    ensures r <==> exists k :: 0 <= k < |externals| && externals[k] == item
    decreases |externals|
  {
    if externals == [] then false
    else if externals[0] == item then true
    else
      var rest := MatchesAny(item, externals[1..]);
      assert forall k :: 1 <= k < |externals| ==> externals[k] == externals[1..][k - 1];
      rest
  }

  /** `is_relevant_contour`: false for fewer than 3 points, false for a contour equal to an
      external one, true otherwise. */
  function IsRelevantContour(item: Contour, externals: seq<Contour>): (r: bool)
    ensures |item| < 3 ==> !r
    ensures item in externals ==> !r
    ensures |item| >= 3 && item !in externals ==> r
  {
    if |item| < 3 then false
    else !MatchesAny(item, externals)
  }

  /** The relevant RETR_CCOMP contours, in their order. */
  function RelevantContours(ccomp: seq<Contour>, externals: seq<Contour>): seq<Contour>
  {
    Filter(ccomp, c => IsRelevantContour(c, externals))
  }

  /** `contours_from_mask` (filter part): appends, in order, each RETR_CCOMP contour that is
      relevant, i.e. has at least 3 points and equals no RETR_EXTERNAL contour. */
  method ContoursFromMask(ccomp: seq<Contour>, externals: seq<Contour>) returns (innerPolygons: seq<Contour>)
    ensures innerPolygons == RelevantContours(ccomp, externals)
    ensures forall c :: c in innerPolygons <==> c in ccomp && |c| >= 3 && c !in externals
  {
    innerPolygons := [];
    for i := 0 to |ccomp|
      invariant innerPolygons == RelevantContours(ccomp[..i], externals)
    {
      assert ccomp[..i + 1][..i] == ccomp[..i];
      if IsRelevantContour(ccomp[i], externals) {
        innerPolygons := innerPolygons + [ccomp[i]];
      }
    }
    assert ccomp[..|ccomp|] == ccomp;
    FilterMembers(ccomp, c => IsRelevantContour(c, externals));
  }

  /** The contours kept are exactly the relevant ones, as an order-preserving subsequence of
      the RETR_CCOMP list: the result is picked out of `ccomp` by increasing indices. */
  lemma ContoursAreOrderedSelection(ccomp: seq<Contour>, externals: seq<Contour>)
    ensures EmbeddedBy(RelevantContours(ccomp, externals), ccomp,
                       KeptIndices(ccomp, c => IsRelevantContour(c, externals)))
    ensures forall k :: 0 <= k < |ccomp| && |ccomp[k]| >= 3 && ccomp[k] !in externals ==>
              k in KeptIndices(ccomp, c => IsRelevantContour(c, externals))
  {
    FilterIsOrderedSelection(ccomp, c => IsRelevantContour(c, externals));
    KeptIndicesComplete(ccomp, c => IsRelevantContour(c, externals));
  }

  /** The second `len(cnt) >= 3` test of `generate_polygons` never drops a selected contour. */
  lemma RedundantLengthCheck(ccomp: seq<Contour>, externals: seq<Contour>)
    ensures Filter(RelevantContours(ccomp, externals), (c: Contour) => |c| >= 3) == RelevantContours(ccomp, externals)
  {
    var sel := RelevantContours(ccomp, externals);
    FilterMembers(ccomp, c => IsRelevantContour(c, externals));
    forall k | 0 <= k < |sel| ensures |sel[k]| >= 3 {
      assert sel[k] in sel;
    }
    FilterAll(sel, (c: Contour) => |c| >= 3);
  }

  // ---------------------------------------------------------------------------------------
  // Projection, area filter, hole removal

  /** shapely's `transform(project, geometry)`: every vertex of every ring mapped by `f`. */
  function MapRing(ring: seq<Point>, f: Point -> Point): (r: seq<Point>)
  {
    seq(|ring|, k requires 0 <= k < |ring| => f(ring[k]))
  }

  function MapPolygon(p: Polygon, f: Point -> Point): Polygon
  {
    Polygon(MapRing(p.exterior, f),
            seq(|p.holes|, k requires 0 <= k < |p.holes| => MapRing(p.holes[k], f)))
  }

  function MapGeometry(g: Geometry, f: Point -> Point): Geometry
  {
    match g
    case PolygonGeom(p) => PolygonGeom(MapPolygon(p, f))
    case MultiPolygonGeom(parts) =>
      MultiPolygonGeom(seq(|parts|, k requires 0 <= k < |parts| => MapPolygon(parts[k], f)))
    case OtherGeom(t) => OtherGeom(t)
  }

  /** The geographic polygon built from one contour: georeference, build and repair the
      polygon, reproject every vertex. */
  function ContourToWgs84(cnt: Contour, gt: GeoTransform, repair: seq<Point> -> Geometry,
                          toWgs84: Point -> Point): Geometry
  {
    MapGeometry(repair(GeoMap(cnt, gt)), toWgs84)
  }

  /** The `skel_polygons` list: one geographic polygon per contour of at least 3 points. */
  function SkeletonPolygons(contours: seq<Contour>, gt: GeoTransform, repair: seq<Point> -> Geometry,
                            toWgs84: Point -> Point): seq<Geometry>
    decreases |contours|
  {
    if contours == [] then []
    else
      var last := contours[|contours| - 1];
      SkeletonPolygons(contours[..|contours| - 1], gt, repair, toWgs84)
        + (if |last| >= 3 then [ContourToWgs84(last, gt, repair, toWgs84)] else [])
  }

  /** The loop of `generate_polygons` that builds `skel_polygons`. */
  method ProjectContours(contours: seq<Contour>, gt: GeoTransform, repair: seq<Point> -> Geometry,
                         toWgs84: Point -> Point) returns (skelPolygons: seq<Geometry>)
    ensures skelPolygons == SkeletonPolygons(contours, gt, repair, toWgs84)
    ensures |skelPolygons| <= |contours|
  {
    skelPolygons := [];
    for i := 0 to |contours|
      invariant skelPolygons == SkeletonPolygons(contours[..i], gt, repair, toWgs84)
      invariant |skelPolygons| <= i
    {
      assert contours[..i + 1][..i] == contours[..i];
      var cnt := contours[i];
      if |cnt| >= 3 {
        var polyUtm := Georeference(cnt, gt);
        var newPolygon := MapGeometry(repair(polyUtm), toWgs84);
        skelPolygons := skelPolygons + [newPolygon];
      }
    }
    assert contours[..|contours|] == contours;
  }

  function Abs(x: real): real
  {
    if x < 0.0 then -x else x
  }

  /** The predicate of the area filter's comprehension. */
  function LargeEnough(threshold: real, area: Geometry -> real): Geometry -> bool
  {
    g => Abs(area(g)) >= threshold
  }

  /** `filter_by_geodesic_area`: the polygons whose absolute geodesic area reaches the threshold. */
  function FilterByGeodesicArea(threshold: real, polygons: seq<Geometry>, area: Geometry -> real): (r: seq<Geometry>)
    ensures |r| <= |polygons|
    ensures forall g :: g in r <==> g in polygons && Abs(area(g)) >= threshold
  {
    FilterMembers(polygons, LargeEnough(threshold, area));
    Filter(polygons, LargeEnough(threshold, area))
  }

  /** The area filter keeps, in the original order, exactly the polygons of large enough area. */
  lemma AreaFilterIsOrderedSelection(threshold: real, polygons: seq<Geometry>, area: Geometry -> real)
    ensures EmbeddedBy(FilterByGeodesicArea(threshold, polygons, area), polygons,
                       KeptIndices(polygons, LargeEnough(threshold, area)))
    ensures forall k :: 0 <= k < |polygons| && Abs(area(polygons[k])) >= threshold ==>
              k in KeptIndices(polygons, LargeEnough(threshold, area))
  {
    FilterIsOrderedSelection(polygons, LargeEnough(threshold, area));
    KeptIndicesComplete(polygons, LargeEnough(threshold, area));
  }

  /** Raising the threshold never yields more polygons: the result at the higher threshold is
      the result at the lower one, filtered again. */
  lemma AreaFilterMonotone(low: real, high: real, polygons: seq<Geometry>, area: Geometry -> real)
    requires low <= high
    ensures FilterByGeodesicArea(high, polygons, area)
            == FilterByGeodesicArea(high, FilterByGeodesicArea(low, polygons, area), area)
    ensures |FilterByGeodesicArea(high, polygons, area)| <= |FilterByGeodesicArea(low, polygons, area)|
  {
    FilterStronger(polygons, LargeEnough(low, area), LargeEnough(high, area));
  }

  /** What hole removal makes of one geometry: a polygon gives its exterior ring alone; a
      multipolygon gives one hole-free polygon per part when `list(poly)` succeeds
      (`listable`) and nothing when it raises; any other type gives nothing. */
  function HoleFreeParts(g: Geometry, listable: bool): seq<Polygon>
  {
    match g
    case PolygonGeom(p) => [Polygon(p.exterior, [])]
    case MultiPolygonGeom(parts) =>
      if listable then seq(|parts|, k requires 0 <= k < |parts| => Polygon(parts[k].exterior, []))
      else []
    case OtherGeom(_) => []
  }

  /** The `parcels` list built by the hole-removal loop. */
  function HoleFree(polys: seq<Geometry>, listable: bool): seq<Polygon>
  {
    FlatMap(polys, g => HoleFreeParts(g, listable))
  }

  /** The hole-removal loop of `generate_polygons`. */
  method RemoveHoles(parcelsHole: seq<Geometry>, listable: bool) returns (parcels: seq<Polygon>)
    ensures parcels == HoleFree(parcelsHole, listable)
    ensures forall p :: p in parcels ==> p.holes == []
  {
    parcels := [];
    for i := 0 to |parcelsHole|
      invariant parcels == HoleFree(parcelsHole[..i], listable)
    {
      assert parcelsHole[..i + 1] == parcelsHole[..i] + [parcelsHole[i]];
      FlatMapSnoc(parcelsHole[..i], parcelsHole[i], g => HoleFreeParts(g, listable));
      var poly := parcelsHole[i];
      match poly {
        case MultiPolygonGeom(polygons) =>
          if listable {
            ghost var before := parcels;
            for j := 0 to |polygons|
              invariant parcels == before + HoleFreeParts(poly, listable)[..j]
            {
              var newPolygon := Polygon(polygons[j].exterior, []);
              parcels := parcels + [newPolygon];
            }
          }
        case PolygonGeom(p) =>
          var newPolygon := Polygon(p.exterior, []);
          parcels := parcels + [newPolygon];
        case OtherGeom(_) =>
      }
    }
    assert parcelsHole[..|parcelsHole|] == parcelsHole;
    HoleFreeHasNoHoles(parcelsHole, listable);
  }

  /** Hole removal follows the input order: it distributes over concatenation. */
  lemma HoleFreeAppend(a: seq<Geometry>, b: seq<Geometry>, listable: bool)
    ensures HoleFree(a + b, listable) == HoleFree(a, listable) + HoleFree(b, listable)
  {
    FlatMapAppend(a, b, g => HoleFreeParts(g, listable));
  }

  /** No polygon that comes out of hole removal has a hole. */
  lemma {:induction false} HoleFreeHasNoHoles(polys: seq<Geometry>, listable: bool)
    ensures forall p :: p in HoleFree(polys, listable) ==> p.holes == []
    decreases |polys|
  {
    if polys != [] {
      HoleFreeHasNoHoles(polys[..|polys| - 1], listable);
    }
  }

  /** The three cases of hole removal, one geometry at a time. */
  lemma HoleFreeCases(g: Geometry, listable: bool)
    ensures g.PolygonGeom? ==> HoleFree([g], listable) == [Polygon(g.polygon.exterior, [])]
    ensures g.MultiPolygonGeom? && listable ==>
              |HoleFree([g], listable)| == |g.parts| &&
              forall k :: 0 <= k < |g.parts| ==> HoleFree([g], listable)[k] == Polygon(g.parts[k].exterior, [])
    ensures g.MultiPolygonGeom? && !listable ==> HoleFree([g], listable) == []
    ensures g.OtherGeom? ==> HoleFree([g], listable) == []
  {
    assert [g] == [] + [g];
    FlatMapSnoc([], g, g => HoleFreeParts(g, listable));
  }

  // ---------------------------------------------------------------------------------------
  // GeoJSON features

  /** `permute_coordinates`: every (a, b) becomes (b, a); pyproj gives EPSG:4326 as
      (latitude, longitude) and GeoJSON wants (longitude, latitude). */
  function PermuteCoordinates(ring: seq<Point>): (r: seq<Point>)
    ensures |r| == |ring|
  {
    seq(|ring|, k requires 0 <= k < |ring| => Swap(ring[k]))
  }

  /** Swapping twice restores every coordinate pair. */
  lemma PermuteInvolution(ring: seq<Point>)
    ensures PermuteCoordinates(PermuteCoordinates(ring)) == ring
    ensures forall k :: 0 <= k < |ring| ==> PermuteCoordinates(ring)[k].x == ring[k].y && PermuteCoordinates(ring)[k].y == ring[k].x
  {
  }

  /** The feature list comprehension: one feature per parcel with placeholder properties. */
  function RawFeatures(parcels: seq<Polygon>): (r: seq<Feature>)
  {
    seq(|parcels|, k requires 0 <= k < |parcels| =>
      Feature(PermuteCoordinates(parcels[k].exterior), Text("n/a"), "n/a"))
  }

  /** Every `parcelID` is its 1-based position. */
  ghost predicate DenselyNumbered(features: seq<Feature>)
  {
    forall k :: 0 <= k < |features| ==> features[k].parcelId == Number(k + 1)
  }

  /** The numbering loop: overwrites each feature's `parcelID` with index + 1, in place. */
  method NumberParcels(features: array<Feature>)
    modifies features
    ensures forall k :: 0 <= k < features.Length ==>
              features[k] == old(features[k]).(parcelId := Number(k + 1))
    ensures DenselyNumbered(features[..])
  {
    for index := 0 to features.Length
      invariant forall k :: 0 <= k < index ==> features[k] == old(features[k]).(parcelId := Number(k + 1))
      invariant forall k :: index <= k < features.Length ==> features[k] == old(features[k])
    {
      features[index] := features[index].(parcelId := Number(index + 1));
    }
  }

  /** Dense numbering gives IDs that are unique and are exactly 1..N. */
  lemma DenseIdsAreOneToN(features: seq<Feature>)
    requires DenselyNumbered(features)
    ensures forall i, j :: 0 <= i < j < |features| ==> features[i].parcelId != features[j].parcelId
    ensures (set k | 0 <= k < |features| :: features[k].parcelId) == (set n | 1 <= n <= |features| :: Number(n))
  {
    forall i, j | 0 <= i < j < |features| ensures features[i].parcelId != features[j].parcelId {
      assert features[i].parcelId == Number(i + 1) && features[j].parcelId == Number(j + 1);
    }
    var ids := set k | 0 <= k < |features| :: features[k].parcelId;
    var expected := set n | 1 <= n <= |features| :: Number(n);
    forall v | v in expected ensures v in ids {
      var n :| 1 <= n <= |features| && v == Number(n);
      assert features[n - 1].parcelId == v;
    }
    forall v | v in ids ensures v in expected {
      var k :| 0 <= k < |features| && features[k].parcelId == v;
      assert v == Number(k + 1);
    }
  }

  /** The GeoJSON features of `generate_polygons`: the comprehension, then the numbering loop. */
  method EmitFeatures(parcels: seq<Polygon>) returns (features: seq<Feature>)
    ensures |features| == |parcels|
    ensures forall k :: 0 <= k < |parcels| ==>
              features[k] == Feature(PermuteCoordinates(parcels[k].exterior), Number(k + 1), "n/a")
  {
    var raw := RawFeatures(parcels);
    var arr := new Feature[|raw|](k requires 0 <= k < |raw| => raw[k]);
    NumberParcels(arr);
    features := arr[..];
  }

  // ---------------------------------------------------------------------------------------
  // The whole of generate_polygons

  /** The parcels `generate_polygons` computes from the two contour lists. */
  function Parcels(ccomp: seq<Contour>, externals: seq<Contour>, gt: GeoTransform,
                   repair: seq<Point> -> Geometry, toWgs84: Point -> Point,
                   area: Geometry -> real, areaThresh: real, listable: bool): seq<Polygon>
  {
    var contours := RelevantContours(ccomp, externals);
    var skel := SkeletonPolygons(contours, gt, repair, toWgs84);
    HoleFree(FilterByGeodesicArea(areaThresh, skel, area), listable)
  }

  datatype VectorizerOutput = VectorizerOutput(
    features: seq<Feature>,
    rawPath: string,
    outPath: string,
    geotiffWarning: bool,      // the "not a tif file" warning for the geotiff
    boundariesWarning: bool)   // the "not a tif file" warning for the boundaries raster

  /** `generate_polygons` up to the GeoJSON dump: the raw feature collection, numbered, and the
      two output paths. It raises an IndexError when either input name has no '.'. */
  method GeneratePolygons(geotiffPath: string, boundariesPath: string, geojsonPath: string,
                          ccomp: seq<Contour>, externals: seq<Contour>, gt: GeoTransform,
                          repair: seq<Point> -> Geometry, toWgs84: Point -> Point,
                          area: Geometry -> real, areaThresh: real, listable: bool)
    returns (r: Result<VectorizerOutput>)
    ensures r.Failure? <==> '.' !in geotiffPath || '.' !in boundariesPath
    ensures r.Failure? ==> r.error == IndexError
    ensures r.Success? ==>
      var out := r.value;
      var parcels := Parcels(ccomp, externals, gt, repair, toWgs84, area, areaThresh, listable);
      && |out.features| == |parcels|
      && (forall k :: 0 <= k < |parcels| ==>
            && out.features[k].ring == PermuteCoordinates(parcels[k].exterior)
            && out.features[k].parcelId == Number(k + 1)
            && out.features[k].parcelType == "n/a")
      && out.outPath == DropLast(geojsonPath, 5) + ".geojson"
      && out.rawPath == DropLast(geojsonPath, 5) + "_raw.geojson"
      && (out.geotiffWarning <==> !EndsWith(geotiffPath, ".tif"))
      && (out.boundariesWarning <==> !EndsWith(boundariesPath, ".tif"))
  {
    var rawPath := RawPath(geojsonPath);
    var tifCheck := OfFormat("tif", geotiffPath);
    if tifCheck.Failure? {
      return Failure(tifCheck.error);
    }
    var boundariesCheck := OfFormat("tif", boundariesPath);
    if boundariesCheck.Failure? {
      return Failure(boundariesCheck.error);
    }
    TifExtension(geotiffPath);
    TifExtension(boundariesPath);
    var contours := ContoursFromMask(ccomp, externals);
    var skelPolygons := ProjectContours(contours, gt, repair, toWgs84);
    var parcelsHole := FilterByGeodesicArea(areaThresh, skelPolygons, area);
    var parcels := RemoveHoles(parcelsHole, listable);
    var features := EmitFeatures(parcels);
    OutPathDerivation(geojsonPath);
    r := Success(VectorizerOutput(features, rawPath, OutPath(rawPath),
                                  !tifCheck.value, !boundariesCheck.value));
  }
}
