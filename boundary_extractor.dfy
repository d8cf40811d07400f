/** The dual-grid boundary extractor: the image is padded two ways so that two grids of
    P-by-P patches, offset by P/2, cover it; every patch is segmented into a {0,255} mask; the
    two mask mosaics are reassembled, cropped back to the image, dilated and OR-ed together.

    The image-processing library calls are parameters: mean-shift filtering plus grayscale
    conversion (`gray`), and Canny, distance transform, peak labelling and watershed together
    (`watershed`, given the patch and the watershed mask). Only what the scripts do around
    them is modelled. */
module BoundaryExtractor {
  import opened Wrappers
  import opened Seqs
  import opened Text
  import opened Geo
  import opened Raster

  /** An OpenCV colour pixel, in OpenCV's blue-green-red order. */
  datatype Bgr = Bgr(blue: int, green: int, red: int)

  /** The constant border colour `(255, 255, 255)`. */
  const White := Bgr(255, 255, 255)

  // ---------------------------------------------------------------------------------------
  // read_and_resize: padding and cropping to whole patches

  /** Number of whole patches along an axis of `n` pixels padded by `before` in front and by a
      full patch `p` behind: `floor((before + n + p) / p)`. */
  function Tiles(n: nat, before: nat, p: nat): nat
    requires p > 0
  {
    (before + n + p) / p
  }

  /** The whole patches cover the padded image and reach at most one patch beyond it. */
  lemma TileCount(n: nat, before: nat, p: nat)
    requires p > 0
    ensures before + n < Tiles(n, before, p) * p <= before + n + p
  {
    var x := before + n + p;
    assert (x / p) * p + x % p == x;
  }

  /** `copyMakeBorder(image, top, p, top, p, BORDER_CONSTANT, (255,255,255))` cropped to whole
      patches: the image sits `top` pixels down and right, every other pixel is white, and the
      crop is strictly larger than the shifted image by at most one patch in each direction. */
  function PadAndCrop(image: Grid<Bgr>, h: nat, w: nat, top: nat, p: nat): (r: Grid<Bgr>)
    requires IsRect(image, h, w) && p > 0
    ensures IsRect(r, Tiles(h, top, p) * p, Tiles(w, top, p) * p)
    ensures top + h < Tiles(h, top, p) * p <= top + h + p
    ensures top + w < Tiles(w, top, p) * p <= top + w + p
    ensures forall i, j :: 0 <= i < |r| && 0 <= j < |r[i]| ==>
              r[i][j] == if top <= i < top + h && top <= j < top + w then image[i - top][j - top] else White
  {
    var padded := Pad(image, h, w, top, p, top, p, White);
    TileCount(h, top, p);
    TileCount(w, top, p);
    Window(padded, 0, 0, Tiles(h, top, p) * p, Tiles(w, top, p) * p)
  }

  /** Cropping the padded image at (top, top) to the image's extent gives the image back: the
      offset of the grid is undone exactly. */
  lemma PadAndCropAlignment(image: Grid<Bgr>, h: nat, w: nat, top: nat, p: nat)
    requires IsRect(image, h, w) && p > 0
    ensures Window(PadAndCrop(image, h, w, top, p), top, top, h, w) == image
  {
    var padded := PadAndCrop(image, h, w, top, p);
    var back := Window(padded, top, top, h, w);
    forall i | 0 <= i < h ensures back[i] == image[i] {
      forall j | 0 <= j < w ensures back[i][j] == image[i][j] {
        WindowAt(padded, top, top, h, w, i, j);
        assert padded[top + i][top + j] == image[i][j];
      }
    }
  }

  datatype Resized = Resized(cropped1: Grid<Bgr>, cropped2: Grid<Bgr>, rasterW: nat, rasterL: nat)

  /** `read_and_resize` after `imread`: pad with white by one patch at the bottom and right and
      crop to whole patches (grid 1); pad again with P/2 more at the top and left and crop
      (grid 2). A negative patch size makes `copyMakeBorder` fail; zero divides by zero. */
  function ReadAndResize(image: Grid<Bgr>, h: nat, w: nat, patchSize: int): (r: Result<Resized>)
    requires IsRect(image, h, w)
    ensures r.Failure? <==> patchSize <= 0
    ensures r.Failure? ==> r.error == (if patchSize < 0 then BorderError else ZeroDivisionError)
    ensures r.Success? ==> r.value.rasterW == h && r.value.rasterL == w
    ensures r.Success? ==>
              && r.value.cropped1 == PadAndCrop(image, h, w, 0, patchSize)
              && r.value.cropped2 == PadAndCrop(image, h, w, patchSize / 2, patchSize)
  {
    if patchSize < 0 then Failure(BorderError)
    else if patchSize == 0 then Failure(ZeroDivisionError)
    else
      Success(Resized(PadAndCrop(image, h, w, 0, patchSize), PadAndCrop(image, h, w, patchSize / 2, patchSize), h, w))
  }

  // ---------------------------------------------------------------------------------------
  // find_boundaries: threshold and binarise

  /** What the library calls promise about extents: the grayscale image and the watershed
      labels of a P-by-P patch are P-by-P. */
  ghost predicate Segmenter(p: nat, gray: Grid<Bgr> -> Grid<int>, watershed: (Grid<Bgr>, Grid<int>) -> Grid<int>)
  {
    && (forall t {:trigger gray(t)} :: IsRect(t, p, p) ==> IsRect(gray(t), p, p))
    && (forall t, m {:trigger watershed(t, m)} :: IsRect(t, p, p) && IsRect(m, p, p) ==> IsRect(watershed(t, m), p, p))
  }

  predicate NonNegative(g: Grid<int>)
  {
    forall r, c :: 0 <= r < |g| && 0 <= c < |g[r]| ==> g[r][c] >= 0
  }

  /** Watershed labels are region numbers: never negative. */
  ghost predicate NonNegativeLabels(watershed: (Grid<Bgr>, Grid<int>) -> Grid<int>)
  {
    forall t, m :: NonNegative(watershed(t, m))
  }

  /** The numpy comparison `g <= thres`, `g > thres` or `g > 0`: a boolean grid. */
  function Where(g: Grid<int>, h: nat, w: nat, cond: int -> bool): (b: Grid<bool>)
    requires IsRect(g, h, w)
    ensures IsRect(b, h, w)
    ensures forall r, c :: 0 <= r < h && 0 <= c < w ==> (b[r][c] <==> cond(g[r][c]))
  {
    seq(h, r requires 0 <= r < h => seq(w, c requires 0 <= c < w => cond(g[r][c])))
  }

  /** The watershed mask: 255 exactly where the gray level is at most `thres`, 0 elsewhere. */
  function WatershedMask(gray: Grid<int>, h: nat, w: nat, thres: int): (m: Grid<int>)
    requires IsRect(gray, h, w)
    ensures IsRect(m, h, w) && IsBinary(m)
    ensures forall r, c :: 0 <= r < h && 0 <= c < w ==> (m[r][c] == 255 <==> gray[r][c] <= thres)
  {
    seq(h, r requires 0 <= r < h => seq(w, c requires 0 <= c < w => if gray[r][c] <= thres then 255 else 0))
  }

  /** The returned mask: 255 exactly where the label is positive; other labels kept as they are. */
  function LabelMask(labels: Grid<int>, h: nat, w: nat): (m: Grid<int>)
    requires IsRect(labels, h, w)
    ensures IsRect(m, h, w)
    ensures forall r, c :: 0 <= r < h && 0 <= c < w ==> (m[r][c] == 255 <==> labels[r][c] > 0)
    ensures forall r, c :: 0 <= r < h && 0 <= c < w && labels[r][c] <= 0 ==> m[r][c] == labels[r][c]
  {
    seq(h, r requires 0 <= r < h => seq(w, c requires 0 <= c < w => if labels[r][c] > 0 then 255 else labels[r][c]))
  }

  /** The returned mask is binary exactly when no label is negative, as watershed labels are not. */
  lemma LabelMaskBinary(labels: Grid<int>, h: nat, w: nat)
    requires IsRect(labels, h, w)
    ensures IsBinary(LabelMask(labels, h, w)) <==> NonNegative(labels)
  {
    var m := LabelMask(labels, h, w);
    if IsBinary(m) {
      forall r, c | 0 <= r < h && 0 <= c < w ensures labels[r][c] >= 0 {
        assert m[r][c] == 0 || m[r][c] == 255;
      }
    }
  }

  /** The mask `find_boundaries` returns for one patch. */
  function BoundaryMask(patch: Grid<Bgr>, p: nat, thres: int, gray: Grid<Bgr> -> Grid<int>,
                        watershed: (Grid<Bgr>, Grid<int>) -> Grid<int>): (m: Grid<int>)
    requires IsRect(patch, p, p) && Segmenter(p, gray, watershed)
    ensures IsRect(m, p, p)
    ensures forall r, c :: 0 <= r < p && 0 <= c < p ==>
              (m[r][c] == 255 <==> watershed(patch, WatershedMask(gray(patch), p, p, thres))[r][c] > 0)
  {
    var image2d := gray(patch);
    var labels := watershed(patch, WatershedMask(image2d, p, p, thres));
    LabelMask(labels, p, p)
  }

  /** The values of an array, as a grid. */
  function Contents(a: array2<int>): (g: Grid<int>)
    reads a
    ensures IsRect(g, a.Length0, a.Length1)
    ensures forall r, c :: 0 <= r < a.Length0 && 0 <= c < a.Length1 ==> g[r][c] == a[r, c]
  {
    seq(a.Length0, r requires 0 <= r < a.Length0 reads a =>
      seq(a.Length1, c requires 0 <= c < a.Length1 reads a => a[r, c]))
  }

  /** `g.copy()`: a fresh array holding the grid. */
  method CopyOf(g: Grid<int>, h: nat, w: nat) returns (a: array2<int>)
    requires IsRect(g, h, w)
    ensures fresh(a) && a.Length0 == h && a.Length1 == w
    ensures Contents(a) == g
  {
    a := new int[h, w]((r, c) requires 0 <= r < h && 0 <= c < w => g[r][c]);
    forall r | 0 <= r < h ensures Contents(a)[r] == g[r] {
    }
  }

  /** numpy's `a[cond] = v`, in place: every pixel where `cond` holds becomes `v`, the others
      keep their value. */
  method AssignWhere(a: array2<int>, cond: Grid<bool>, v: int)
    requires IsRect(cond, a.Length0, a.Length1)
    modifies a
    ensures forall r, c :: 0 <= r < a.Length0 && 0 <= c < a.Length1 ==>
              a[r, c] == if cond[r][c] then v else old(a[r, c])
  {
    for r := 0 to a.Length0
      invariant forall i, j :: 0 <= i < r && 0 <= j < a.Length1 ==> a[i, j] == if cond[i][j] then v else old(a[i, j])
      invariant forall i, j :: r <= i < a.Length0 && 0 <= j < a.Length1 ==> a[i, j] == old(a[i, j])
    {
      for c := 0 to a.Length1
        invariant forall i, j :: 0 <= i < r && 0 <= j < a.Length1 ==> a[i, j] == if cond[i][j] then v else old(a[i, j])
        invariant forall j :: 0 <= j < c ==> a[r, j] == if cond[r][j] then v else old(a[r, j])
        invariant forall j :: c <= j < a.Length1 ==> a[r, j] == old(a[r, j])
        invariant forall i, j :: r < i < a.Length0 && 0 <= j < a.Length1 ==> a[i, j] == old(a[i, j])
      {
        if cond[r][c] {
          a[r, c] := v;
        }
      }
    }
  }

  /** `find_boundaries` on one patch: copy the gray image, set 255 where it is at most `thres`
      and 0 where it is above, run the watershed, copy the labels and set 255 where positive. */
  method FindBoundaries(patch: Grid<Bgr>, p: nat, thres: int, gray: Grid<Bgr> -> Grid<int>,
                        watershed: (Grid<Bgr>, Grid<int>) -> Grid<int>) returns (mask: Grid<int>)
    requires IsRect(patch, p, p) && Segmenter(p, gray, watershed)
    ensures mask == BoundaryMask(patch, p, thres, gray, watershed)
  {
    var image2d := gray(patch);
    var watershedMask := CopyOf(image2d, p, p);
    AssignWhere(watershedMask, Where(image2d, p, p, x => x <= thres), 255);
    AssignWhere(watershedMask, Where(image2d, p, p, x => x > thres), 0);
    var expected := WatershedMask(image2d, p, p, thres);
    forall r | 0 <= r < p ensures Contents(watershedMask)[r] == expected[r] {
      assert forall c :: 0 <= c < p ==> Contents(watershedMask)[r][c] == expected[r][c];
    }
    assert Contents(watershedMask) == expected;
    var labels := watershed(patch, Contents(watershedMask));
    var m := CopyOf(labels, p, p);
    AssignWhere(m, Where(labels, p, p, x => x > 0), 255);
    mask := Contents(m);
    var binarised := LabelMask(labels, p, p);
    forall r | 0 <= r < p ensures mask[r] == binarised[r] {
      assert forall c :: 0 <= c < p ==> mask[r][c] == binarised[r][c];
    }
    assert mask == binarised;
  }

  // ---------------------------------------------------------------------------------------
  // extract_boundaries: the patch loops and the reassembly

  /** The uint8 cast of storing a mask into `masks`: values wrap modulo 256. */
  function ToBytes(g: Grid<int>): (b: Grid<int>)
    ensures |b| == |g| && forall r :: 0 <= r < |g| ==> |b[r]| == |g[r]|
    ensures IsBytes(b)
    ensures IsBytes(g) ==> b == g
  {
    var b := seq(|g|, r requires 0 <= r < |g| => seq(|g[r]|, c requires 0 <= c < |g[r]| => g[r][c] % 256));
    if IsBytes(g) then
      assert forall r :: 0 <= r < |g| ==> b[r] == g[r];
      b
    else b
  }

  /** What the loops store for patch (i, j) of a cropped image. */
  function PatchMask(cropped: Grid<Bgr>, nr: nat, nc: nat, p: nat, i: nat, j: nat, thres: int,
                     gray: Grid<Bgr> -> Grid<int>, watershed: (Grid<Bgr>, Grid<int>) -> Grid<int>): (m: Grid<int>)
    requires p > 0 && IsRect(cropped, nr * p, nc * p) && i < nr && j < nc && Segmenter(p, gray, watershed)
    ensures IsRect(m, p, p) && IsBytes(m)
  {
    ToBytes(BoundaryMask(PatchAt(cropped, nr, nc, p, i, j), p, thres, gray, watershed))
  }

  /** Patch (i, 0), (i, 1), ..., (i, n - 1): one row of the patch grid. */
  function Row(i: nat, n: nat): seq<(nat, nat)>
  {
    seq(n, b requires 0 <= b < n => (i, b))
  }

  /** The patch indices of the first `rows` rows, in the order the nested loops visit them. */
  function RowMajor(rows: nat, n: nat): seq<(nat, nat)>
  {
    if rows == 0 then [] else RowMajor(rows - 1, n) + Row(rows - 1, n)
  }

  /** The nested loops visit every patch of an `rows` x `n` grid exactly once, and no other. */
  lemma {:induction false} RowMajorVisitsEachOnce(rows: nat, n: nat)
    ensures Distinct(RowMajor(rows, n))
    ensures forall a: nat, b: nat :: (a, b) in RowMajor(rows, n) <==> a < rows && b < n
  {
    if rows > 0 {
      var s, t := RowMajor(rows - 1, n), Row(rows - 1, n);
      RowMajorVisitsEachOnce(rows - 1, n);
      assert RowMajor(rows, n) == s + t;
      forall a: nat, b: nat ensures (a, b) in s + t <==> a < rows && b < n {
        if a == rows - 1 && b < n {
          assert t[b] == (a, b);
        }
      }
      var st := s + t;
      forall x: int, y: int | 0 <= x < y < |st| ensures st[x] != st[y] {
        if y >= |s| {
          if x < |s| {
            assert s[x] in s;
          }
        }
      }
    }
  }

  /** The nested loops over the patch grid: `masks[i, j]` receives the mask of patch (i, j).
      The ghost `visited` records the patches in the order they are segmented. */
  method SegmentPatches(cropped: Grid<Bgr>, nr: nat, nc: nat, p: nat, thres: int,
                        gray: Grid<Bgr> -> Grid<int>, watershed: (Grid<Bgr>, Grid<int>) -> Grid<int>)
    returns (masks: array2<Grid<int>>, ghost visited: seq<(nat, nat)>)
    requires p > 0 && IsRect(cropped, nr * p, nc * p) && Segmenter(p, gray, watershed)
    ensures fresh(masks) && masks.Length0 == nr && masks.Length1 == nc
    ensures forall i, j :: 0 <= i < nr && 0 <= j < nc ==>
              masks[i, j] == PatchMask(cropped, nr, nc, p, i, j, thres, gray, watershed)
    ensures visited == RowMajor(nr, nc)
  {
    masks := new Grid<int>[nr, nc];
    visited := [];
    for i := 0 to nr
      invariant forall a, b :: 0 <= a < i && 0 <= b < nc ==> masks[a, b] == PatchMask(cropped, nr, nc, p, a, b, thres, gray, watershed)
      invariant visited == RowMajor(i, nc)
    {
      ghost var row := SegmentRow(masks, cropped, nr, nc, p, i, thres, gray, watershed);
      visited := visited + row;
    }
  }

  /** The inner loop of the patch grid: row `i` of `masks` receives the masks of patches
      (i, 0) ... (i, nc - 1), in that order, and no other entry changes. */
  method SegmentRow(masks: array2<Grid<int>>, cropped: Grid<Bgr>, nr: nat, nc: nat, p: nat, i: nat, thres: int,
                    gray: Grid<Bgr> -> Grid<int>, watershed: (Grid<Bgr>, Grid<int>) -> Grid<int>)
    returns (ghost visited: seq<(nat, nat)>)
    requires p > 0 && IsRect(cropped, nr * p, nc * p) && Segmenter(p, gray, watershed)
    requires masks.Length0 == nr && masks.Length1 == nc && i < nr
    modifies masks
    ensures forall b :: 0 <= b < nc ==> masks[i, b] == PatchMask(cropped, nr, nc, p, i, b, thres, gray, watershed)
    ensures forall a, b :: 0 <= a < nr && a != i && 0 <= b < nc ==> masks[a, b] == old(masks[a, b])
    ensures visited == Row(i, nc)
  {
    visited := [];
    for j := 0 to nc
      invariant forall b :: 0 <= b < j ==> masks[i, b] == PatchMask(cropped, nr, nc, p, i, b, thres, gray, watershed)
      invariant forall a, b :: 0 <= a < nr && a != i && 0 <= b < nc ==> masks[a, b] == old(masks[a, b])
      invariant visited == Row(i, j)
    {
      var currentMask := FindBoundaries(PatchAt(cropped, nr, nc, p, i, j), p, thres, gray, watershed);
      masks[i, j] := ToBytes(currentMask);
      assert Row(i, j + 1) == Row(i, j) + [(i, j)];
      visited := visited + [(i, j)];
    }
  }

  /** The masks of all patches of a cropped image, as `unpatchify` receives them. */
  function MaskTiles(cropped: Grid<Bgr>, nr: nat, nc: nat, p: nat, thres: int,
                     gray: Grid<Bgr> -> Grid<int>, watershed: (Grid<Bgr>, Grid<int>) -> Grid<int>): (tiles: seq<seq<Grid<int>>>)
    requires p > 0 && IsRect(cropped, nr * p, nc * p) && Segmenter(p, gray, watershed)
    ensures IsTiling(tiles, nr, nc, p)
    ensures forall i, j :: 0 <= i < nr && 0 <= j < nc ==> IsBytes(tiles[i][j])
  {
    seq(nr, i requires 0 <= i < nr =>
      seq(nc, j requires 0 <= j < nc => PatchMask(cropped, nr, nc, p, i, j, thres, gray, watershed)))
  }

  /** The reassembled mask of one patch grid cropped back to the image: rows and columns
      `top .. top + h` and `top .. top + w`. */
  function GridBoundaries(cropped: Grid<Bgr>, nr: nat, nc: nat, p: nat, top: nat, h: nat, w: nat, thres: int,
                          gray: Grid<Bgr> -> Grid<int>, watershed: (Grid<Bgr>, Grid<int>) -> Grid<int>): (g: Grid<int>)
    requires p > 0 && IsRect(cropped, nr * p, nc * p) && Segmenter(p, gray, watershed)
    requires top + h <= nr * p && top + w <= nc * p
    ensures IsRect(g, h, w) && IsBytes(g)
  {
    var tiles := MaskTiles(cropped, nr, nc, p, thres, gray, watershed);
    var whole := Reassemble(tiles, nr, nc, p);
    ReassembleBytes(tiles, nr, nc, p);
    WindowKeepsValues(whole, top, top, h, w);
    Window(whole, top, top, h, w)
  }

  /** Pixel (r, c) of a cropped mosaic is pixel ((top+r) % p, (top+c) % p) of the mask of
      patch ((top+r) / p, (top+c) / p). */
  lemma GridBoundariesAt(cropped: Grid<Bgr>, nr: nat, nc: nat, p: nat, top: nat, h: nat, w: nat, thres: int,
                         gray: Grid<Bgr> -> Grid<int>, watershed: (Grid<Bgr>, Grid<int>) -> Grid<int>, r: nat, c: nat)
    requires p > 0 && IsRect(cropped, nr * p, nc * p) && Segmenter(p, gray, watershed)
    requires top + h <= nr * p && top + w <= nc * p && r < h && c < w
    ensures var i, j, a, b := (top + r) / p, (top + c) / p, (top + r) % p, (top + c) % p;
      && 0 <= i < nr && 0 <= j < nc && 0 <= a < p && 0 <= b < p
      && GridBoundaries(cropped, nr, nc, p, top, h, w, thres, gray, watershed)[r][c]
         == PatchMask(cropped, nr, nc, p, i, j, thres, gray, watershed)[a][b]
  {
    TileOf(top + r, nr, p);
    TileOf(top + c, nc, p);
    var tiles := MaskTiles(cropped, nr, nc, p, thres, gray, watershed);
    var whole := Reassemble(tiles, nr, nc, p);
    WindowAt(whole, top, top, h, w, r, c);
    ReassembleAt(tiles, nr, nc, p, top + r, top + c);
  }

  /** That patch pixel is the pixel (top + r, top + c) of the cropped image. */
  lemma PatchPixelAt(cropped: Grid<Bgr>, nr: nat, nc: nat, p: nat, top: nat, h: nat, w: nat, r: nat, c: nat)
    requires p > 0 && IsRect(cropped, nr * p, nc * p)
    requires top + h <= nr * p && top + w <= nc * p && r < h && c < w
    ensures var i, j, a, b := (top + r) / p, (top + c) / p, (top + r) % p, (top + c) % p;
      && 0 <= i < nr && 0 <= j < nc && 0 <= a < p && 0 <= b < p
      && PatchAt(cropped, nr, nc, p, i, j)[a][b] == cropped[top + r][top + c]
  {
    var i, j, a, b := (top + r) / p, (top + c) / p, (top + r) % p, (top + c) % p;
    TileOf(top + r, nr, p);
    TileOf(top + c, nc, p);
    PatchAtPixel(cropped, nr, nc, p, i, j, a, b);
  }

  /** With non-negative watershed labels the stored mask of every patch is binary. */
  lemma PatchMaskBinary(cropped: Grid<Bgr>, nr: nat, nc: nat, p: nat, i: nat, j: nat, thres: int,
                        gray: Grid<Bgr> -> Grid<int>, watershed: (Grid<Bgr>, Grid<int>) -> Grid<int>)
    requires p > 0 && IsRect(cropped, nr * p, nc * p) && i < nr && j < nc && Segmenter(p, gray, watershed)
    requires NonNegativeLabels(watershed)
    ensures IsBinary(PatchMask(cropped, nr, nc, p, i, j, thres, gray, watershed))
  {
    var patch := PatchAt(cropped, nr, nc, p, i, j);
    var labels := watershed(patch, WatershedMask(gray(patch), p, p, thres));
    LabelMaskBinary(labels, p, p);
    var m := BoundaryMask(patch, p, thres, gray, watershed);
    assert IsBytes(m) by {
      forall r, c | 0 <= r < |m| && 0 <= c < |m[r]| ensures 0 <= m[r][c] < 256 {
        assert m[r][c] == 0 || m[r][c] == 255;
      }
    }
  }

  /** With non-negative watershed labels every cropped mosaic is binary. */
  lemma GridBoundariesBinary(cropped: Grid<Bgr>, nr: nat, nc: nat, p: nat, top: nat, h: nat, w: nat, thres: int,
                             gray: Grid<Bgr> -> Grid<int>, watershed: (Grid<Bgr>, Grid<int>) -> Grid<int>)
    requires p > 0 && IsRect(cropped, nr * p, nc * p) && Segmenter(p, gray, watershed)
    requires top + h <= nr * p && top + w <= nc * p
    requires NonNegativeLabels(watershed)
    ensures IsBinary(GridBoundaries(cropped, nr, nc, p, top, h, w, thres, gray, watershed))
  {
    var tiles := MaskTiles(cropped, nr, nc, p, thres, gray, watershed);
    forall i, j | 0 <= i < nr && 0 <= j < nc ensures IsBinary(tiles[i][j]) {
      PatchMaskBinary(cropped, nr, nc, p, i, j, thres, gray, watershed);
    }
    ReassembleBinary(tiles, nr, nc, p);
    WindowKeepsValues(Reassemble(tiles, nr, nc, p), top, top, h, w);
  }

  /** The mask of the patch grid whose image sits `top` pixels down and right, reassembled and
      cropped back to the image: grid 1 has `top` 0, grid 2 has `top` P/2. */
  function GridMask(image: Grid<Bgr>, h: nat, w: nat, p: nat, top: nat, thres: int,
                    gray: Grid<Bgr> -> Grid<int>, watershed: (Grid<Bgr>, Grid<int>) -> Grid<int>): (g: Grid<int>)
    requires IsRect(image, h, w) && p > 0 && Segmenter(p, gray, watershed)
    ensures IsRect(g, h, w) && IsBytes(g)
  {
    GridBoundaries(PadAndCrop(image, h, w, top, p), Tiles(h, top, p), Tiles(w, top, p), p, top, h, w, thres, gray, watershed)
  }

  /** The boundary raster: both cropped mosaics dilated with the 5x5 kernel, then OR-ed. */
  function Boundaries(image: Grid<Bgr>, h: nat, w: nat, p: nat, thres: int,
                      gray: Grid<Bgr> -> Grid<int>, watershed: (Grid<Bgr>, Grid<int>) -> Grid<int>): (b: Grid<int>)
    requires IsRect(image, h, w) && p > 0 && Segmenter(p, gray, watershed)
    ensures IsRect(b, h, w) && IsBytes(b)
  {
    var first := GridMask(image, h, w, p, 0, thres, gray, watershed);
    var second := GridMask(image, h, w, p, p / 2, thres, gray, watershed);
    DilateKeepsValues(first, h, w);
    DilateKeepsValues(second, h, w);
    Merge(Dilate(first, h, w), Dilate(second, h, w), h, w)
  }

  /** Each cropped mosaic is aligned with the image: at pixel (r, c) it holds the value that
      segmenting patch ((top + r) / p, (top + c) / p) gave to the patch pixel that shows image
      pixel (r, c). */
  lemma GridMaskAlignment(image: Grid<Bgr>, h: nat, w: nat, p: nat, top: nat, thres: int,
                          gray: Grid<Bgr> -> Grid<int>, watershed: (Grid<Bgr>, Grid<int>) -> Grid<int>, r: nat, c: nat)
    requires IsRect(image, h, w) && p > 0 && Segmenter(p, gray, watershed) && r < h && c < w
    ensures var cropped := PadAndCrop(image, h, w, top, p);
      var nr, nc := Tiles(h, top, p), Tiles(w, top, p);
      var i, j, a, b := (top + r) / p, (top + c) / p, (top + r) % p, (top + c) % p;
      && 0 <= i < nr && 0 <= j < nc && 0 <= a < p && 0 <= b < p
      && PatchAt(cropped, nr, nc, p, i, j)[a][b] == image[r][c]
    ensures var cropped := PadAndCrop(image, h, w, top, p);
      var nr, nc := Tiles(h, top, p), Tiles(w, top, p);
      var i, j, a, b := (top + r) / p, (top + c) / p, (top + r) % p, (top + c) % p;
      && 0 <= i < nr && 0 <= j < nc && 0 <= a < p && 0 <= b < p
      && GridMask(image, h, w, p, top, thres, gray, watershed)[r][c]
         == PatchMask(cropped, nr, nc, p, i, j, thres, gray, watershed)[a][b]
  {
    var cropped := PadAndCrop(image, h, w, top, p);
    GridBoundariesAt(cropped, Tiles(h, top, p), Tiles(w, top, p), p, top, h, w, thres, gray, watershed, r, c);
    PatchPixelAt(cropped, Tiles(h, top, p), Tiles(w, top, p), p, top, h, w, r, c);
  }

  /** With non-negative watershed labels the boundary raster is binary, and pixel (r, c) is a
      boundary (255) exactly when either cropped mosaic has a boundary pixel within two rows
      and two columns of it. */
  lemma BoundariesBinary(image: Grid<Bgr>, h: nat, w: nat, p: nat, thres: int,
                         gray: Grid<Bgr> -> Grid<int>, watershed: (Grid<Bgr>, Grid<int>) -> Grid<int>, r: nat, c: nat)
    requires IsRect(image, h, w) && p > 0 && Segmenter(p, gray, watershed) && NonNegativeLabels(watershed)
    requires r < h && c < w
    ensures IsBinary(Boundaries(image, h, w, p, thres, gray, watershed))
    ensures var first := GridMask(image, h, w, p, 0, thres, gray, watershed);
            var second := GridMask(image, h, w, p, p / 2, thres, gray, watershed);
      Boundaries(image, h, w, p, thres, gray, watershed)[r][c] == 255 <==>
        exists i, j :: 0 <= i < h && 0 <= j < w && Near(r, c, i, j) && (first[i][j] == 255 || second[i][j] == 255)
  {
    var first := GridMask(image, h, w, p, 0, thres, gray, watershed);
    var second := GridMask(image, h, w, p, p / 2, thres, gray, watershed);
    GridBoundariesBinary(PadAndCrop(image, h, w, 0, p), Tiles(h, 0, p), Tiles(w, 0, p), p, 0, h, w, thres, gray, watershed);
    GridBoundariesBinary(PadAndCrop(image, h, w, p / 2, p), Tiles(h, p / 2, p), Tiles(w, p / 2, p), p, p / 2, h, w, thres, gray, watershed);
    DilateKeepsValues(first, h, w);
    DilateKeepsValues(second, h, w);
    var d1, d2 := Dilate(first, h, w), Dilate(second, h, w);
    MergeBinary(d1, d2, h, w);
    DilateBinary(first, h, w, r, c);
    DilateBinary(second, h, w, r, c);
  }

  // ---------------------------------------------------------------------------------------
  // generate_tfw: the world file

  /** `tiff_raster.rsplit(".", 1)[0] + '.tfw'`: the raster's name with its last extension
      replaced by ".tfw" (or ".tfw" appended when there is none). */
  function WorldFileName(path: string): (name: string)
    ensures EndsWith(name, ".tfw")
    ensures '.' !in path ==> name == path + ".tfw"
    ensures '.' in path ==>
      var stem := name[..|name| - 4];
      |stem| < |path| && path[..|stem|] == stem && path[|stem|] == '.' && '.' !in path[|stem| + 1..]
  {
    var parts := RSplitOnce(path, '.');
    var name := parts[0] + ".tfw";
    assert name[..|name| - 4] == parts[0];
    if |parts| == 2 then
      assert path[..|parts[0]|] == parts[0];
      assert path[|parts[0]| + 1..] == parts[1];
      name
    else name
  }

  /** Undoes the permutation of `generate_tfw`: the six lines back in geotransform order,
      taking lines 5 and 6 as the corner. A world-file reader takes them as the centre of the
      upper-left pixel instead (FromCenteredWorldFile). */
  function UnpermuteWorldFileLines(lines: seq<real>): GeoTransform
    requires |lines| == 6
  {
    GeoTransform(lines[4], lines[0], lines[2], lines[5], lines[1], lines[3])
  }

  /** The map position a world file gives to the centre of pixel (col, row):
      x = A*col + B*row + C, y = D*col + E*row + F, the lines being A, D, B, E, C, F. */
  function WorldFileMap(lines: seq<real>, col: real, row: real): Point
    requires |lines| == 6
  {
    Point(lines[0] * col + lines[2] * row + lines[4], lines[1] * col + lines[3] * row + lines[5])
  }

  /** `generate_tfw` as written: the lines gt1, gt4, gt2, gt5, gt0, gt3. Un-permuting them gives
      the geotransform back, but read as a world file they put the origin half a pixel off. */
  function WorldFileParameters(gt: GeoTransform): (lines: seq<real>)
    ensures |lines| == 6 && UnpermuteWorldFileLines(lines) == gt
    ensures FromCenteredWorldFile(lines) ==
      GeoTransform(gt.originX - 0.5 * (gt.pixelWidth + gt.rowRotation), gt.pixelWidth, gt.rowRotation,
                   gt.originY - 0.5 * (gt.columnRotation + gt.pixelHeight), gt.columnRotation, gt.pixelHeight)
  {
    [gt.pixelWidth, gt.columnRotation, gt.rowRotation, gt.pixelHeight, gt.originX, gt.originY]
  }

  /** The world file as written puts the centre of pixel (col, row) where GDAL puts its
      upper-left corner, half a pixel off, unless the two half-pixel steps cancel out. */
  lemma WorldFileParametersOffByHalfPixel(gt: GeoTransform, col: real, row: real)
    ensures WorldFileMap(WorldFileParameters(gt), col, row) == PixelToMap(gt, col, row)
    ensures WorldFileMap(WorldFileParameters(gt), col, row) == PixelToMap(gt, col + 0.5, row + 0.5) <==>
              gt.pixelWidth + gt.rowRotation == 0.0 && gt.columnRotation + gt.pixelHeight == 0.0
  {
    var corner, centre := PixelToMap(gt, col, row), PixelToMap(gt, col + 0.5, row + 0.5);
    assert (col + 0.5) * gt.pixelWidth == col * gt.pixelWidth + 0.5 * gt.pixelWidth;
    assert (row + 0.5) * gt.rowRotation == row * gt.rowRotation + 0.5 * gt.rowRotation;
    assert (col + 0.5) * gt.columnRotation == col * gt.columnRotation + 0.5 * gt.columnRotation;
    assert (row + 0.5) * gt.pixelHeight == row * gt.pixelHeight + 0.5 * gt.pixelHeight;
    assert centre.x == corner.x + 0.5 * (gt.pixelWidth + gt.rowRotation);
    assert centre.y == corner.y + 0.5 * (gt.columnRotation + gt.pixelHeight);
  }

  /** A north-up raster with 1-unit pixels at (100, 200): the world file places the first
      pixel centre at (100, 200), GDAL at (100.5, 199.5). */
  lemma WorldFileCounterexample()
    ensures var gt := GeoTransform(100.0, 1.0, 0.0, 200.0, 0.0, -1.0);
      && WorldFileMap(WorldFileParameters(gt), 0.0, 0.0) == Point(100.0, 200.0)
      && PixelToMap(gt, 0.5, 0.5) == Point(100.5, 199.5)
  {
  }

  /** The world file the format calls for: lines 5 and 6 hold the centre of the upper-left
      pixel. Every pixel centre then lands where GDAL puts it, and the geotransform reads back. */
  function CenteredWorldFileParameters(gt: GeoTransform): (lines: seq<real>)
    ensures |lines| == 6
    ensures forall col, row :: WorldFileMap(lines, col, row) == PixelToMap(gt, col + 0.5, row + 0.5)
    ensures FromCenteredWorldFile(lines) == gt
  {
    var centre := PixelToMap(gt, 0.5, 0.5);
    [gt.pixelWidth, gt.columnRotation, gt.rowRotation, gt.pixelHeight, centre.x, centre.y]
  }

  /** Reading a centred world file back into a geotransform: the corner is half a pixel back
      from the centre of the first pixel. */
  function FromCenteredWorldFile(lines: seq<real>): GeoTransform
    requires |lines| == 6
  {
    GeoTransform(lines[4] - 0.5 * lines[0] - 0.5 * lines[2], lines[0], lines[2],
                 lines[5] - 0.5 * lines[1] - 0.5 * lines[3], lines[1], lines[3])
  }

  // ---------------------------------------------------------------------------------------
  // extract_boundaries

  datatype WorldFile = WorldFile(name: string, lines: seq<real>)

  /** What `extract_boundaries` writes: the boundary raster, the world file when asked for,
      and whether it warned that the input raster is not a tif. */
  datatype Extraction = Extraction(boundaries: Grid<int>, worldFile: Option<WorldFile>, notTifWarning: bool)

  /** The masks of an array of patch masks, as a sequence of rows. */
  function ArrayTiles(masks: array2<Grid<int>>): (tiles: seq<seq<Grid<int>>>)
    reads masks
    ensures |tiles| == masks.Length0
    ensures forall i :: 0 <= i < masks.Length0 ==> |tiles[i]| == masks.Length1
    ensures forall i, j :: 0 <= i < masks.Length0 && 0 <= j < masks.Length1 ==> tiles[i][j] == masks[i, j]
  {
    seq(masks.Length0, i requires 0 <= i < masks.Length0 reads masks =>
      seq(masks.Length1, j requires 0 <= j < masks.Length1 reads masks => masks[i, j]))
  }

  /** Segment every patch of a cropped image and reassemble the masks (one of the two passes). */
  method Mosaic(cropped: Grid<Bgr>, nr: nat, nc: nat, p: nat, thres: int,
                gray: Grid<Bgr> -> Grid<int>, watershed: (Grid<Bgr>, Grid<int>) -> Grid<int>)
    returns (whole: Grid<int>)
    requires p > 0 && IsRect(cropped, nr * p, nc * p) && Segmenter(p, gray, watershed)
    ensures whole == Reassemble(MaskTiles(cropped, nr, nc, p, thres, gray, watershed), nr, nc, p)
  {
    ghost var visited;
    var masks;
    masks, visited := SegmentPatches(cropped, nr, nc, p, thres, gray, watershed);
    var tiles := ArrayTiles(masks);
    var expected := MaskTiles(cropped, nr, nc, p, thres, gray, watershed);
    forall i | 0 <= i < nr ensures tiles[i] == expected[i] {
      assert forall j :: 0 <= j < nc ==> tiles[i][j] == expected[i][j];
    }
    assert tiles == expected;
    whole := Reassemble(tiles, nr, nc, p);
  }

  /** The `tfw` branch of `extract_boundaries`: the world file written next to the boundary
      raster, and whether the input raster is reported as not being a GeoTIFF. Checking the
      input's extension raises an IndexError when its name has no '.'. */
  function TfwOutputs(tfw: bool, inputRaster: string, boundariesPath: string, gt: GeoTransform)
    : (r: Result<(Option<WorldFile>, bool)>)
    ensures r.Failure? <==> tfw && '.' !in inputRaster
    ensures r.Failure? ==> r.error == IndexError
    ensures r.Success? ==> (r.value.0.Some? <==> tfw)
    ensures r.Success? && tfw ==>
              r.value.0 == Some(WorldFile(WorldFileName(boundariesPath), CenteredWorldFileParameters(gt)))
    ensures r.Success? ==> (r.value.1 <==> tfw && !EndsWith(inputRaster, ".tif"))
  {
    if !tfw then Success((None, false))
    else
      var isTif := OfFormat("tif", inputRaster);
      if isTif.Failure? then Failure(isTif.error)
      else
        TifExtension(inputRaster);
        Success((Some(WorldFile(WorldFileName(boundariesPath), CenteredWorldFileParameters(gt))), !isTif.value))
  }

  /** One patch grid of `extract_boundaries`: segment every patch of the padded image,
      `unpatchify` the masks and crop the mosaic back to the image's rows and columns. */
  method CroppedMosaic(image: Grid<Bgr>, cropped: Grid<Bgr>, h: nat, w: nat, p: nat, top: nat, thres: int,
                       gray: Grid<Bgr> -> Grid<int>, watershed: (Grid<Bgr>, Grid<int>) -> Grid<int>)
    returns (mask: Grid<int>)
    requires IsRect(image, h, w) && p > 0 && Segmenter(p, gray, watershed)
    requires cropped == PadAndCrop(image, h, w, top, p)
    ensures mask == GridMask(image, h, w, p, top, thres, gray, watershed)
  {
    var nr, nc := Tiles(h, top, p), Tiles(w, top, p);
    TileCount(h, top, p);
    TileCount(w, top, p);
    var whole := Mosaic(cropped, nr, nc, p, thres, gray, watershed);
    mask := Window(whole, top, top, h, w);
  }

  /** `extract_boundaries` from the decoded image on: both patch passes, crops, dilation, OR,
      and the optional world file (written with the pixel-centre origin). A non-positive patch
      size fails in `read_and_resize`; with `tfw` set, an input name without '.' fails in
      `file_is_of_format`. */
  method ExtractBoundaries(inputRaster: string, boundariesPath: string, image: Grid<Bgr>, h: nat, w: nat,
                           patchSize: int, threshold: int, tfw: bool, gt: GeoTransform,
                           gray: Grid<Bgr> -> Grid<int>, watershed: (Grid<Bgr>, Grid<int>) -> Grid<int>)
    returns (r: Result<Extraction>)
    requires IsRect(image, h, w)
    requires patchSize > 0 ==> Segmenter(patchSize, gray, watershed)
    ensures r.Failure? <==> patchSize <= 0 || (tfw && '.' !in inputRaster)
    ensures patchSize < 0 ==> r == Failure(BorderError)
    ensures patchSize == 0 ==> r == Failure(ZeroDivisionError)
    ensures patchSize > 0 && tfw && '.' !in inputRaster ==> r == Failure(IndexError)
    ensures r.Success? ==>
      && r.value.boundaries == Boundaries(image, h, w, patchSize, threshold, gray, watershed)
      && (r.value.worldFile.Some? <==> tfw)
      && (tfw ==> r.value.worldFile.value == WorldFile(WorldFileName(boundariesPath), CenteredWorldFileParameters(gt)))
      && (r.value.notTifWarning <==> tfw && !EndsWith(inputRaster, ".tif"))
  {
    var resized := ReadAndResize(image, h, w, patchSize);
    if resized.Failure? {
      return Failure(resized.error);
    }
    var p: nat := patchSize;
    var imWidth, imLength := resized.value.rasterW, resized.value.rasterL;
    var cropped1, cropped2 := resized.value.cropped1, resized.value.cropped2;
    var off := p / 2;

    var reconstructed1 := CroppedMosaic(image, cropped1, imWidth, imLength, p, 0, threshold, gray, watershed);
    var reconstructed2 := CroppedMosaic(image, cropped2, imWidth, imLength, p, off, threshold, gray, watershed);
    DilateKeepsValues(reconstructed1, h, w);
    DilateKeepsValues(reconstructed2, h, w);
    var dilation1 := Dilate(reconstructed1, h, w);
    var dilation2 := Dilate(reconstructed2, h, w);
    var added := Merge(dilation1, dilation2, h, w);
    assert added == Boundaries(image, h, w, p, threshold, gray, watershed);

    var outputs := TfwOutputs(tfw, inputRaster, boundariesPath, gt);
    if outputs.Failure? {
      return Failure(outputs.error);
    }
    r := Success(Extraction(added, outputs.value.0, outputs.value.1));
  }
}
