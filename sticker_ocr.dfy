/** The sticker reader: the rule that turns five OCR attempts into one sticker number, the
    relative-area filter on the sticker contours, and the GeoJSON points written for them.

    The image-processing and OCR calls are parameters: `read(width, rotated)` is the text
    Tesseract returns for the sticker crop resized to `width` pixels (and padded), turned by
    180 degrees when `rotated`; `area` is `cv.contourArea`; `centroidOf` is the truncated centre
    of a contour's minimum-area rectangle; `toWgs84` is the pyproj transformer. */
module StickerOcr {
  import opened Wrappers
  import opened Seqs
  import opened Text
  import opened Geo
  import Vectorizer

  // ---------------------------------------------------------------------------------------
  // Classifying one OCR attempt

  /** The widths, in pixels, the crop is resized to for the five attempts, in this order. */
  const Widths: seq<nat> := [200, 150, 250, 100, 300]

  /** A stripped reading is usable when it is non-empty, starts with a digit and ends with the
      '*' that follows every printed sticker number. */
  predicate IsGood(text: string)
  {
    |text| >= 1 && IsDigitChar(text[0]) && text[|text| - 1] == '*'
  }

  /** What one attempt contributes: a number to `goodres`, or a text to `failed`. */
  datatype Reading = Good(number: string) | Failed(text: string)

  /** One attempt, from the raw upright and rotated readings. The rotated reading only matters
      when the upright one is not usable; a good reading is stored without its '*'; a rotated
      reading that is still not usable is stored as "NULL" when empty and as its stripped text
      otherwise. */
  function Classify(upright: string, rotated: string): (r: Reading)
    ensures r.Good? <==> IsGood(Strip(upright)) || IsGood(Strip(rotated))
    ensures r.Good? && IsGood(Strip(upright)) ==> r.number + "*" == Strip(upright)
    ensures r.Good? && !IsGood(Strip(upright)) ==> r.number + "*" == Strip(rotated)
    ensures r.Good? ==> |r.number| >= 1 && IsDigitChar(r.number[0])
    ensures r.Failed? ==> (if Strip(rotated) == [] then r.text == "NULL" else r.text == Strip(rotated))
  {
    var text := Strip(upright);
    if IsGood(text) then
      assert text == text[..|text| - 1] + "*";
      Good(text[..|text| - 1])
    else
      var text2 := Strip(rotated);
      if |text2| < 1 then Failed("NULL")
      else if !IsDigitChar(text2[0]) || text2[|text2| - 1] != '*' then Failed(text2)
      else
        assert text2 == text2[..|text2| - 1] + "*";
        Good(text2[..|text2| - 1])
  }

  /** A usable upright reading decides the attempt alone: the rotated one is never looked at. */
  lemma RotatedOnlyWhenNeeded(upright: string, rotated1: string, rotated2: string)
    requires IsGood(Strip(upright))
    ensures Classify(upright, rotated1) == Classify(upright, rotated2)
  {
  }

  /** The five attempts, in the order of `Widths`. */
  function Readings(read: (nat, bool) -> string): (rs: seq<Reading>)
    ensures |rs| == |Widths|
    ensures forall k :: 0 <= k < |rs| && rs[k].Good? ==> |rs[k].number| >= 1 && IsDigitChar(rs[k].number[0])
  {
    var rs := seq(|Widths|, k requires 0 <= k < |Widths| => Classify(read(Widths[k], false), read(Widths[k], true)));
    assert forall k :: 0 <= k < |rs| ==> rs[k] == Classify(read(Widths[k], false), read(Widths[k], true));
    rs
  }

  /** The numbers of the good readings, in order. */
  function GoodNumbers(rs: seq<Reading>): seq<string>
    decreases |rs|
  {
    if rs == [] then []
    else
      var last := rs[|rs| - 1];
      GoodNumbers(rs[..|rs| - 1]) + (if last.Good? then [last.number] else [])
  }

  /** The texts of the failed readings, in order. */
  function FailedTexts(rs: seq<Reading>): seq<string>
    decreases |rs|
  {
    if rs == [] then []
    else
      var last := rs[|rs| - 1];
      FailedTexts(rs[..|rs| - 1]) + (if last.Failed? then [last.text] else [])
  }

  /** Every attempt lands in exactly one of the two lists, and every good number is a
      non-empty text starting with a digit. */
  lemma {:induction false} ReadingsPartition(rs: seq<Reading>)
    requires forall k :: 0 <= k < |rs| && rs[k].Good? ==> |rs[k].number| >= 1 && IsDigitChar(rs[k].number[0])
    ensures |GoodNumbers(rs)| + |FailedTexts(rs)| == |rs|
    ensures forall x :: x in GoodNumbers(rs) ==> |x| >= 1 && IsDigitChar(x[0])
    decreases |rs|
  {
    if rs != [] {
      var init := rs[..|rs| - 1];
      forall k | 0 <= k < |init| && init[k].Good?
        ensures |init[k].number| >= 1 && IsDigitChar(init[k].number[0])
      {
        assert init[k] == rs[k];
      }
      ReadingsPartition(init);
    }
  }

  /** The width loop of `detect_num`: one OCR attempt per width, the rotated attempt only when
      the upright one is not usable. */
  method CollectReadings(read: (nat, bool) -> string) returns (goodres: seq<string>, failed: seq<string>)
    ensures goodres == GoodNumbers(Readings(read)) && failed == FailedTexts(Readings(read))
    ensures |goodres| + |failed| == |Widths|
    ensures forall x :: x in goodres ==> |x| >= 1 && IsDigitChar(x[0])
  {
    goodres, failed := [], [];
    ghost var rs := Readings(read);
    for i := 0 to |Widths|
      invariant goodres == GoodNumbers(rs[..i]) && failed == FailedTexts(rs[..i])
    {
      assert rs[..i + 1][..i] == rs[..i];
      ghost var reading := rs[i];
      assert rs[..i + 1][i] == reading;
      var widthpx := Widths[i];
      assert reading == Classify(read(widthpx, false), read(widthpx, true));
      var text := Strip(read(widthpx, false));
      if |text| < 1 || !IsDigitChar(text[0]) || text[|text| - 1] != '*' {
        var text2 := Strip(read(widthpx, true));
        if |text2| < 1 {
          assert reading == Failed("NULL");
          failed := failed + ["NULL"];
        } else if !IsDigitChar(text2[0]) || text2[|text2| - 1] != '*' {
          assert reading == Failed(text2);
          failed := failed + [text2];
        } else {
          assert reading == Good(text2[..|text2| - 1]);
          goodres := goodres + [text2[..|text2| - 1]];
        }
      } else {
        assert reading == Good(text[..|text| - 1]);
        goodres := goodres + [text[..|text| - 1]];
      }
    }
    assert rs[..|Widths|] == rs;
    ReadingsPartition(rs);
  }

  // ---------------------------------------------------------------------------------------
  // Choosing the result

  /** Among the first `n` positions, the first one whose value is the most frequent in `s`. */
  function ModeIndex(s: seq<string>, n: nat): (i: nat)
    requires 0 < n <= |s|
    ensures i < n
    ensures forall k :: 0 <= k < n ==> Count(s, s[k]) <= Count(s, s[i])
    ensures forall k :: 0 <= k < i ==> Count(s, s[k]) < Count(s, s[i])
  {
    if n == 1 then 0
    else
      var j := ModeIndex(s, n - 1);
      if Count(s, s[n - 1]) > Count(s, s[j]) then n - 1 else j
  }

  /** `statistics.mode` (Python 3.8 and later): the most frequent value; among equally frequent
      values, the one that occurs first. */
  function Mode(s: seq<string>): (m: string)
    requires |s| > 0
    ensures m in s
    ensures forall x :: x in s ==> Count(s, x) <= Count(s, m)
    ensures forall k :: 0 <= k < |s| && s[k] != m && Count(s, s[k]) == Count(s, m) ==> m in s[..k]
  {
    var i := ModeIndex(s, |s|);
    forall x | x in s ensures Count(s, x) <= Count(s, s[i]) {
      var k :| 0 <= k < |s| && s[k] == x;
    }
    forall k | 0 <= k < |s| && s[k] != s[i] && Count(s, s[k]) == Count(s, s[i]) ensures s[i] in s[..k] {
      assert s[..k][i] == s[i];
    }
    s[i]
  }

  /** No other value is as frequent as the mode: older `statistics.mode` raises otherwise. */
  predicate UniqueMode(s: seq<string>)
    requires |s| > 0
  {
    forall k :: 0 <= k < |s| && Count(s, s[k]) == Count(s, Mode(s)) ==> s[k] == Mode(s)
  }

  /** The pair `detect_num` returns: the sticker number and the check flag. */
  datatype Detection = Detection(result: string, check: string)

  /** The selection at the end of `detect_num`. `legacyMode` is a Python before 3.8, whose
      `mode` raises on a tie; the `except` branches then take the first value. */
  function SelectResult(goodres: seq<string>, failed: seq<string>, legacyMode: bool): Detection
  {
    if |goodres| > 0 then
      if legacyMode && !UniqueMode(goodres) then Detection(goodres[0], "needs check")
      else Detection(Mode(goodres), "good")
    else
      var failednum := Filter(failed, IsDigitString);
      if |failednum| > 0 then
        if legacyMode && !UniqueMode(failednum) then Detection(failednum[0], "needs check")
        else Detection(Mode(failednum), "needs check")
      else Detection("NULL", "needs check")
  }

  /** The selection rules: "good" exactly when some reading was usable and its mode is accepted;
      the result is then the most frequent good number (the first good number after a tie on
      an old Python); with no good reading the result is an all-digit failed text if there is
      one, chosen by the same mode-then-first rule, and "NULL" otherwise. */
  lemma SelectionRules(goodres: seq<string>, failed: seq<string>, legacyMode: bool)
    ensures var d := SelectResult(goodres, failed, legacyMode);
      && (d.check == "good" <==> |goodres| > 0 && (!legacyMode || UniqueMode(goodres)))
      && (d.check != "good" ==> d.check == "needs check")
      && (d.check == "good" ==> d.result == Mode(goodres))
      && (|goodres| > 0 && d.check != "good" ==> d.result == goodres[0])
      && (|goodres| > 0 ==> d.result in goodres)
      && (|goodres| == 0 && (exists k :: 0 <= k < |failed| && IsDigitString(failed[k])) ==>
            d.result in failed && IsDigitString(d.result))
      && (|goodres| == 0 && (forall k :: 0 <= k < |failed| ==> !IsDigitString(failed[k])) ==> d.result == "NULL")
      && (var failednum := Filter(failed, IsDigitString);
          |goodres| == 0 && |failednum| > 0 ==>
            d.result == (if !legacyMode || UniqueMode(failednum) then Mode(failednum) else failednum[0]))
  {
    var failednum := Filter(failed, IsDigitString);
    FilterMembers(failed, IsDigitString);
    if |goodres| == 0 {
      if exists k :: 0 <= k < |failed| && IsDigitString(failed[k]) {
        var k :| 0 <= k < |failed| && IsDigitString(failed[k]);
        assert failed[k] in failednum;
      }
    }
  }

  /** What `detect_num` returns for the readings `read` gives. */
  function Detect(read: (nat, bool) -> string, legacyMode: bool): Detection
  {
    var rs := Readings(read);
    SelectResult(GoodNumbers(rs), FailedTexts(rs), legacyMode)
  }

  /** `detect_num`: the width loop, then the selection. */
  method DetectNum(read: (nat, bool) -> string, legacyMode: bool) returns (d: Detection)
    ensures d == Detect(read, legacyMode)
  {
    var goodres, failed := CollectReadings(read);
    d := SelectResult(goodres, failed, legacyMode);
  }

  /** "NULL" comes out exactly when no attempt is usable and no failed text is all digits; a
      "good" check means some attempt was usable. */
  lemma DetectOutcomes(read: (nat, bool) -> string, legacyMode: bool)
    ensures var rs := Readings(read);
      Detect(read, legacyMode).result == "NULL" <==>
        (forall k :: 0 <= k < |rs| ==> rs[k].Failed?) &&
        (forall k :: 0 <= k < |FailedTexts(rs)| ==> !IsDigitString(FailedTexts(rs)[k]))
    ensures var rs := Readings(read);
      Detect(read, legacyMode).check == "good" ==> exists k :: 0 <= k < |rs| && rs[k].Good?
  {
    var rs := Readings(read);
    var goodres, failed := GoodNumbers(rs), FailedTexts(rs);
    var d := SelectResult(goodres, failed, legacyMode);
    assert Detect(read, legacyMode) == d;
    SelectionRules(goodres, failed, legacyMode);
    ReadingsPartition(rs);
    GoodNumbersEmpty(rs);
    if |goodres| > 0 {
      assert d.result in goodres;
      assert d.result != "NULL" by {
        assert IsDigitChar(d.result[0]);
      }
    } else if exists k :: 0 <= k < |failed| && IsDigitString(failed[k]) {
      assert IsDigitString(d.result);
      assert d.result != "NULL" by {
        assert IsDigitChar(d.result[0]);
      }
    }
  }

  /** No good number exactly when every attempt failed. */
  lemma {:induction false} GoodNumbersEmpty(rs: seq<Reading>)
    ensures GoodNumbers(rs) == [] <==> forall k :: 0 <= k < |rs| ==> rs[k].Failed?
    decreases |rs|
  {
    if rs != [] {
      var init := rs[..|rs| - 1];
      GoodNumbersEmpty(init);
      if GoodNumbers(rs) == [] {
        forall k | 0 <= k < |rs| ensures rs[k].Failed? {
          if k < |init| {
            assert rs[k] == init[k];
          }
        }
      }
    }
  }

  // ---------------------------------------------------------------------------------------
  // The contour-area filter

  /** Python's `max(contours, key=area)`: the first contour of largest area. */
  function Largest<C>(contours: seq<C>, area: C -> real): (c: C)
    requires |contours| > 0
    ensures c in contours
    ensures forall k :: 0 <= k < |contours| ==> area(contours[k]) <= area(c)
    ensures exists i :: 0 <= i < |contours| && contours[i] == c &&
              forall k :: 0 <= k < i ==> area(contours[k]) < area(c)
    decreases |contours|
  {
    if |contours| == 1 then contours[0]
    else
      var best := Largest(contours[..|contours| - 1], area);
      var last := contours[|contours| - 1];
      assert forall k :: 0 <= k < |contours| - 1 ==> contours[k] == contours[..|contours| - 1][k];
      if area(last) > area(best) then last else best
  }

  /** The stickers kept: contours of at least 35% of the largest area. */
  function LargeSticker<C>(threshold: real, area: C -> real): C -> bool
  {
    c => area(c) >= threshold
  }

  /** The area threshold `cv.contourArea(maxcont)*0.35`. */
  function AreaThreshold<C>(contours: seq<C>, area: C -> real): real
    requires |contours| > 0
  {
    area(Largest(contours, area)) * 0.35
  }

  /** `detect_stickers` from the contours to `newcontours`: `max` raises a ValueError on an empty
      list; the loop lists the positions of contours below the threshold and the comprehension
      drops them. */
  method StickerContours<C>(contours: seq<C>, area: C -> real) returns (r: Result<seq<C>>)
    ensures r.Failure? <==> |contours| == 0
    ensures r.Failure? ==> r.error == ValueError
    ensures r.Success? ==> r.value == Filter(contours, LargeSticker(AreaThreshold(contours, area), area))
  {
    if |contours| == 0 {
      return Failure(ValueError);
    }
    var maxcont := Largest(contours, area);
    var conttresh := area(maxcont) * 0.35;
    assert conttresh == AreaThreshold(contours, area);
    var small := (c: C) => area(c) < conttresh;
    var indToDel: seq<nat> := [];
    for k := 0 to |contours|
      invariant indToDel == KeptIndices(contours[..k], small)
    {
      assert contours[..k + 1][..k] == contours[..k];
      if area(contours[k]) < conttresh {
        indToDel := indToDel + [k];
      }
    }
    assert contours[..|contours|] == contours;
    KeptIndicesComplete(contours, small);
    forall i | 0 <= i < |contours| ensures i in indToDel <==> !LargeSticker(conttresh, area)(contours[i]) {
      if i in indToDel {
        var k :| 0 <= k < |indToDel| && indToDel[k] == i;
      }
    }
    UnlistedIsFilter(contours, indToDel, LargeSticker(conttresh, area));
    r := Success(Unlisted(contours, indToDel));
  }

  /** The filter keeps, in their order, exactly the contours of at least 35% of the largest
      area; the largest contour itself is kept whenever its area is not negative. */
  lemma StickerContoursSelection<C>(contours: seq<C>, area: C -> real)
    requires |contours| > 0
    ensures var kept := Filter(contours, LargeSticker(AreaThreshold(contours, area), area));
      && EmbeddedBy(kept, contours, KeptIndices(contours, LargeSticker(AreaThreshold(contours, area), area)))
      && (forall c :: c in kept <==> c in contours && area(c) >= AreaThreshold(contours, area))
      && (area(Largest(contours, area)) >= 0.0 ==> Largest(contours, area) in kept)
  {
    var p := LargeSticker(AreaThreshold(contours, area), area);
    FilterIsOrderedSelection(contours, p);
    FilterMembers(contours, p);
  }

  // ---------------------------------------------------------------------------------------
  // Centroids and features

  /** The projected centroid as `detect_stickers` computes it: x from the column alone with
      gt1 + gt4, y from the row alone with gt2 + gt5. */
  function CentroidAsWritten(gt: GeoTransform, cx: int, cy: int): Point
  {
    Point(gt.originX + (cx as real * gt.pixelWidth + cx as real * gt.columnRotation),
          gt.originY + (cy as real * gt.rowRotation + cy as real * gt.pixelHeight))
  }

  /** The written formula is GDAL's exactly when the two cross terms coincide. */
  lemma CentroidAsWrittenAgreesIff(gt: GeoTransform, cx: int, cy: int)
    ensures CentroidAsWritten(gt, cx, cy) == PixelToMap(gt, cx as real, cy as real) <==>
              cx as real * gt.columnRotation == cy as real * gt.rowRotation
  {
  }

  /** It agrees with GDAL at every pixel exactly for north-up rasters. */
  lemma CentroidAsWrittenAgreesEverywhereIff(gt: GeoTransform)
    ensures (forall cx: int, cy: int :: CentroidAsWritten(gt, cx, cy) == PixelToMap(gt, cx as real, cy as real))
            <==> NorthUp(gt)
  {
    if forall cx: int, cy: int :: CentroidAsWritten(gt, cx, cy) == PixelToMap(gt, cx as real, cy as real) {
      CentroidAsWrittenAgreesIff(gt, 1, 0);
      CentroidAsWrittenAgreesIff(gt, 0, 1);
    }
  }

  /** A rotated geotransform: unit pixels, y growing downwards, and a column rotation of 1. */
  const Rotated := GeoTransform(0.0, 1.0, 0.0, 0.0, 1.0, -1.0)

  /** On it the written formula is wrong: at pixel (1, 0) it gives (2, 0) where GDAL gives (1, 1). */
  lemma CentroidCounterexample()
    ensures CentroidAsWritten(Rotated, 1, 0) == Point(2.0, 0.0)
    ensures PixelToMap(Rotated, 1.0, 0.0) == Point(1.0, 1.0)
  {
  }

  /** The projected centroid as GDAL defines it, the formula the vectoriser's `georeference` uses. */
  function Centroid(gt: GeoTransform, cx: int, cy: int): (p: Point)
    ensures [p] == Vectorizer.GeoMap([Vectorizer.PixelPoint(cx, cy)], gt)
    ensures NorthUp(gt) ==> p == CentroidAsWritten(gt, cx, cy)
  {
    var p := PixelToMap(gt, cx as real, cy as real);
    var g := Vectorizer.GeoMap([Vectorizer.PixelPoint(cx, cy)], gt);
    assert |g| == 1 && g[0] == p;
    CentroidAsWrittenAgreesIff(gt, cx, cy);
    p
  }

  /** A GeoJSON point feature of the sticker collection. */
  datatype StickerFeature = StickerFeature(position: Point, detection: string, stickerNumber: string)

  /** The feature loop of `detect_stickers`: one feature per centroid, at the reprojected centroid
      with its two coordinates swapped, carrying the check and the number of the same sticker. */
  method StickerFeatures(centroids: seq<(int, int)>, results: seq<string>, checks: seq<string>,
                         gt: GeoTransform, toWgs84: Point -> Point) returns (features: seq<StickerFeature>)
    requires |results| == |centroids| && |checks| == |centroids|
    ensures |features| == |centroids|
    ensures forall i :: 0 <= i < |centroids| ==>
              && features[i].position == Swap(toWgs84(Centroid(gt, centroids[i].0, centroids[i].1)))
              && features[i].detection == checks[i]
              && features[i].stickerNumber == results[i]
  {
    features := [];
    for i := 0 to |centroids|
      invariant |features| == i
      invariant forall k :: 0 <= k < i ==>
                  features[k] == StickerFeature(Swap(toWgs84(Centroid(gt, centroids[k].0, centroids[k].1))), checks[k], results[k])
    {
      var cent := Centroid(gt, centroids[i].0, centroids[i].1);
      var reprojected := toWgs84(cent);
      features := features + [StickerFeature(Point(reprojected.y, reprojected.x), checks[i], results[i])];
    }
  }

  /** `detect_stickers` from the contours to the features: filter the contours, read each kept
      sticker, then place the features. */
  method DetectStickers<C>(contours: seq<C>, area: C -> real, centroidOf: C -> (int, int),
                           readOf: C -> ((nat, bool) -> string), legacyMode: bool,
                           gt: GeoTransform, toWgs84: Point -> Point)
    returns (r: Result<seq<StickerFeature>>)
    ensures r.Failure? <==> |contours| == 0
    ensures r.Failure? ==> r.error == ValueError
    ensures r.Success? ==>
      var kept := Filter(contours, LargeSticker(AreaThreshold(contours, area), area));
      && |r.value| == |kept|
      && forall i :: 0 <= i < |kept| ==>
           var d := Detect(readOf(kept[i]), legacyMode);
           r.value[i] == StickerFeature(Swap(toWgs84(Centroid(gt, centroidOf(kept[i]).0, centroidOf(kept[i]).1))),
                                        d.check, d.result)
  {
    var filtered := StickerContours(contours, area);
    if filtered.Failure? {
      return Failure(filtered.error);
    }
    var newcontours := filtered.value;
    var centroids, results, checks := ReadStickers(newcontours, centroidOf, readOf, legacyMode);
    var features := StickerFeatures(centroids, results, checks, gt, toWgs84);
    r := Success(features);
  }

  /** The extraction loop of `detect_stickers`: for each kept contour, in order, its centroid,
      and the number and check `detect_num` reads from it. */
  method ReadStickers<C>(newcontours: seq<C>, centroidOf: C -> (int, int),
                         readOf: C -> ((nat, bool) -> string), legacyMode: bool)
    returns (centroids: seq<(int, int)>, results: seq<string>, checks: seq<string>)
    ensures |centroids| == |newcontours| && |results| == |newcontours| && |checks| == |newcontours|
    ensures forall k :: 0 <= k < |newcontours| ==> centroids[k] == centroidOf(newcontours[k])
    ensures forall k :: 0 <= k < |newcontours| ==>
              Detection(results[k], checks[k]) == Detect(readOf(newcontours[k]), legacyMode)
  {
    centroids, results, checks := [], [], [];
    for i := 0 to |newcontours|
      invariant |centroids| == i && |results| == i && |checks| == i
      invariant forall k :: 0 <= k < i ==>
                  centroids[k] == centroidOf(newcontours[k]) &&
                  Detection(results[k], checks[k]) == Detect(readOf(newcontours[k]), legacyMode)
    {
      var c := newcontours[i];
      centroids := centroids + [centroidOf(c)];
      var d := DetectNum(readOf(c), legacyMode);
      results := results + [d.result];
      checks := checks + [d.check];
    }
  }
}
