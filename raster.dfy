/** Rasters as row-major grids, and the pure array operations the boundary extractor applies
    to whole images: OpenCV's constant border, numpy slicing, patchify/unpatchify, 5x5
    dilation and the pixel-wise OR. */
module Raster {

  /** A raster: a sequence of rows. Pixel (r, c) is `g[r][c]`. */
  type Grid<T> = seq<seq<T>>

  /** `g` has `h` rows of `w` pixels each, as every numpy image does. */
  predicate IsRect<T>(g: Grid<T>, h: nat, w: nat)
  {
    |g| == h && forall r :: 0 <= r < h ==> |g[r]| == w
  }

  /** Every pixel is 0 or 255. */
  predicate IsBinary(g: Grid<int>)
  {
    forall r, c :: 0 <= r < |g| && 0 <= c < |g[r]| ==> g[r][c] == 0 || g[r][c] == 255
  }

  /** Every pixel fits in an unsigned byte. */
  predicate IsBytes(g: Grid<int>)
  {
    forall r, c :: 0 <= r < |g| && 0 <= c < |g[r]| ==> 0 <= g[r][c] < 256
  }

  // ---------------------------------------------------------------------------------------
  // Arithmetic on tile indices

  /** A row (or column) index inside a grid of `n` tiles of size `p` splits into the tile it
      falls in and its offset inside that tile. */
  lemma TileOf(x: int, n: nat, p: nat)
    requires p > 0 && 0 <= x < n * p
    ensures 0 <= x / p < n && 0 <= x % p < p && (x / p) * p + x % p == x
  {
    var q := x / p;
    assert q * p + x % p == x;
    assert q * p <= x;
    assert (n - q) * p > 0;
  }

  /** Division by `p` is unique: `q*p + m` with `0 <= m < p` has quotient `q` and remainder `m`. */
  lemma DivModUnique(x: int, p: nat, q: int, m: int)
    requires p > 0 && 0 <= m < p && x == q * p + m
    ensures x / p == q && x % p == m
  {
    var q', m' := x / p, x % p;
    assert q' * p + m' == x;
    var d := q' - q;
    assert d * p == m - m';
    assert (d - 1) * p < 0;
    assert d - 1 < 0;
    assert (d + 1) * p > 0;
    assert d + 1 > 0;
  }

  /** Offset `a` inside tile `i` is the index `i*p + a`, which lies inside the grid. */
  lemma IndexInTile(i: nat, a: nat, n: nat, p: nat)
    requires p > 0 && i < n && a < p
    ensures 0 <= i * p + a < n * p
    ensures (i * p + a) / p == i && (i * p + a) % p == a
  {
    MulMonotone(i + 1, n, p);
    assert (i + 1) * p == i * p + p;
    DivModUnique(i * p + a, p, i, a);
  }

  lemma MulMonotone(x: int, y: int, p: nat)
    requires x <= y
    ensures x * p <= y * p
  {
    assert y * p - x * p == (y - x) * p;
  }

  // ---------------------------------------------------------------------------------------
  // Padding and slicing

  /** `cv2.copyMakeBorder(img, top, bottom, left, right, cv2.BORDER_CONSTANT, value=fill)`. */
  function Pad<T>(img: Grid<T>, h: nat, w: nat, top: nat, bottom: nat, left: nat, right: nat, fill: T): (r: Grid<T>)
    requires IsRect(img, h, w)
    ensures IsRect(r, top + h + bottom, left + w + right)
  {
    seq(top + h + bottom, i requires 0 <= i < top + h + bottom =>
      seq(left + w + right, j requires 0 <= j < left + w + right =>
        if top <= i < top + h && left <= j < left + w then img[i - top][j - left] else fill))
  }

  /** The numpy slice `g[r0 : r0 + h, c0 : c0 + w]` of a window inside `g`. */
  function Window<T>(g: Grid<T>, r0: nat, c0: nat, h: nat, w: nat): (r: Grid<T>)
    requires r0 + h <= |g|
    requires forall i :: r0 <= i < r0 + h ==> c0 + w <= |g[i]|
    ensures IsRect(r, h, w)
  {
    seq(h, i requires 0 <= i < h => g[r0 + i][c0 .. c0 + w])
  }

  lemma WindowAt<T>(g: Grid<T>, r0: nat, c0: nat, h: nat, w: nat, i: nat, j: nat)
    requires r0 + h <= |g|
    requires forall k :: r0 <= k < r0 + h ==> c0 + w <= |g[k]|
    requires i < h && j < w
    ensures Window(g, r0, c0, h, w)[i][j] == g[r0 + i][c0 + j]
  {
  }

  // ---------------------------------------------------------------------------------------
  // patchify / unpatchify

  /** Tile (i, j) of a grid of `p`-by-`p` tiles. */
  function PatchAt<T>(g: Grid<T>, nr: nat, nc: nat, p: nat, i: nat, j: nat): (r: Grid<T>)
    requires p > 0 && IsRect(g, nr * p, nc * p) && i < nr && j < nc
    ensures IsRect(r, p, p)
  {
    IndexInTile(i, p - 1, nr, p);
    IndexInTile(j, p - 1, nc, p);
    Window(g, i * p, j * p, p, p)
  }

  /** `patchify(g, (p, p), step=p)`: the `nr` by `nc` tiles of the grid, without overlap. */
  function Patchify<T>(g: Grid<T>, nr: nat, nc: nat, p: nat): (tiles: seq<seq<Grid<T>>>)
    requires p > 0 && IsRect(g, nr * p, nc * p)
    ensures IsTiling(tiles, nr, nc, p)
  {
    seq(nr, i requires 0 <= i < nr => seq(nc, j requires 0 <= j < nc => PatchAt(g, nr, nc, p, i, j)))
  }

  /** `nr` rows of `nc` tiles, each `p` by `p`. */
  predicate IsTiling<T>(tiles: seq<seq<Grid<T>>>, nr: nat, nc: nat, p: nat)
  {
    && |tiles| == nr
    && (forall i :: 0 <= i < nr ==> |tiles[i]| == nc)
    && (forall i, j :: 0 <= i < nr && 0 <= j < nc ==> IsRect(tiles[i][j], p, p))
  }

  /** `unpatchify`: pixel (r, c) of the reassembled image is pixel (r % p, c % p) of tile
      (r / p, c / p). */
  function Reassemble<T>(tiles: seq<seq<Grid<T>>>, nr: nat, nc: nat, p: nat): (g: Grid<T>)
    requires p > 0 && IsTiling(tiles, nr, nc, p)
    ensures IsRect(g, nr * p, nc * p)
  {
    seq(nr * p, r requires 0 <= r < nr * p =>
      seq(nc * p, c requires 0 <= c < nc * p =>
        TileOf(r, nr, p);
        TileOf(c, nc, p);
        tiles[r / p][c / p][r % p][c % p]))
  }

  /** Reassembling the tiles of a grid gives the grid back: unpatchify inverts patchify. */
  lemma ReassemblePatchify<T>(g: Grid<T>, nr: nat, nc: nat, p: nat)
    requires p > 0 && IsRect(g, nr * p, nc * p)
    ensures Reassemble(Patchify(g, nr, nc, p), nr, nc, p) == g
  {
    var back := Reassemble(Patchify(g, nr, nc, p), nr, nc, p);
    forall r | 0 <= r < nr * p ensures back[r] == g[r] {
      forall c | 0 <= c < nc * p ensures back[r][c] == g[r][c] {
        TileOf(r, nr, p);
        TileOf(c, nc, p);
        IndexInTile(r / p, p - 1, nr, p);
        IndexInTile(c / p, p - 1, nc, p);
        WindowAt(g, (r / p) * p, (c / p) * p, p, p, r % p, c % p);
      }
    }
  }

  /** Pixel (r, c) of the reassembled grid, in patch coordinates. */
  lemma ReassembleAt<T>(tiles: seq<seq<Grid<T>>>, nr: nat, nc: nat, p: nat, r: nat, c: nat)
    requires p > 0 && IsTiling(tiles, nr, nc, p) && r < nr * p && c < nc * p
    ensures r / p < nr && c / p < nc && r % p < p && c % p < p
    ensures Reassemble(tiles, nr, nc, p)[r][c] == tiles[r / p][c / p][r % p][c % p]
  {
    TileOf(r, nr, p);
    TileOf(c, nc, p);
  }

  /** The tile (i, j) and the pixel (a, b) inside it that pixel (r, c) of the reassembled grid comes from. */
  lemma ReassemblePixel<T>(tiles: seq<seq<Grid<T>>>, nr: nat, nc: nat, p: nat, r: nat, c: nat)
    returns (i: nat, j: nat, a: nat, b: nat)
    requires p > 0 && IsTiling(tiles, nr, nc, p) && r < nr * p && c < nc * p
    ensures i < nr && j < nc && a < p && b < p
    ensures Reassemble(tiles, nr, nc, p)[r][c] == tiles[i][j][a][b]
  {
    ReassembleAt(tiles, nr, nc, p, r, c);
    i, j, a, b := r / p, c / p, r % p, c % p;
  }

  /** Pixel (a, b) of tile (i, j) is pixel (i*p + a, j*p + b) of the grid. */
  lemma PatchAtPixel<T>(g: Grid<T>, nr: nat, nc: nat, p: nat, i: nat, j: nat, a: nat, b: nat)
    requires p > 0 && IsRect(g, nr * p, nc * p) && i < nr && j < nc && a < p && b < p
    ensures i * p + a < nr * p && j * p + b < nc * p
    ensures PatchAt(g, nr, nc, p, i, j)[a][b] == g[i * p + a][j * p + b]
  {
    IndexInTile(i, a, nr, p);
    IndexInTile(j, b, nc, p);
    IndexInTile(i, p - 1, nr, p);
    IndexInTile(j, p - 1, nc, p);
    WindowAt(g, i * p, j * p, p, p, a, b);
  }

  /** Byte tiles reassemble into a byte grid. */
  lemma ReassembleBytes(tiles: seq<seq<Grid<int>>>, nr: nat, nc: nat, p: nat)
    requires p > 0 && IsTiling(tiles, nr, nc, p)
    requires forall i, j :: 0 <= i < nr && 0 <= j < nc ==> IsBytes(tiles[i][j])
    ensures IsBytes(Reassemble(tiles, nr, nc, p))
  {
    var g := Reassemble(tiles, nr, nc, p);
    forall r, c | 0 <= r < |g| && 0 <= c < |g[r]| ensures 0 <= g[r][c] < 256 {
      var i, j, a, b := ReassemblePixel(tiles, nr, nc, p, r, c);
      assert IsBytes(tiles[i][j]);
    }
  }

  /** A window of a byte (or binary) grid is a byte (or binary) grid. */
  lemma WindowKeepsValues(g: Grid<int>, r0: nat, c0: nat, h: nat, w: nat)
    requires r0 + h <= |g|
    requires forall i :: r0 <= i < r0 + h ==> c0 + w <= |g[i]|
    ensures IsBytes(g) ==> IsBytes(Window(g, r0, c0, h, w))
    ensures IsBinary(g) ==> IsBinary(Window(g, r0, c0, h, w))
  {
    var v := Window(g, r0, c0, h, w);
    forall i, j | 0 <= i < h && 0 <= j < w
      ensures IsBytes(g) ==> 0 <= v[i][j] < 256
      ensures IsBinary(g) ==> v[i][j] == 0 || v[i][j] == 255
    {
      WindowAt(g, r0, c0, h, w, i, j);
    }
  }

  /** Binary tiles reassemble into a binary grid. */
  lemma ReassembleBinary(tiles: seq<seq<Grid<int>>>, nr: nat, nc: nat, p: nat)
    requires p > 0 && IsTiling(tiles, nr, nc, p)
    requires forall i, j :: 0 <= i < nr && 0 <= j < nc ==> IsBinary(tiles[i][j])
    ensures IsBinary(Reassemble(tiles, nr, nc, p))
  {
    var g := Reassemble(tiles, nr, nc, p);
    forall r, c | 0 <= r < |g| && 0 <= c < |g[r]| ensures g[r][c] == 0 || g[r][c] == 255 {
      var i, j, a, b := ReassemblePixel(tiles, nr, nc, p, r, c);
      assert IsBinary(tiles[i][j]);
    }
  }

  // ---------------------------------------------------------------------------------------
  // Dilation with a 5x5 all-ones kernel

  /** Largest of `row[lo..hi]`. */
  function RowMax(row: seq<int>, lo: nat, hi: nat): (m: int)
    requires lo < hi <= |row|
    ensures forall k :: lo <= k < hi ==> row[k] <= m
    ensures exists k :: lo <= k < hi && row[k] == m
    decreases hi - lo
  {
    if hi - lo == 1 then row[lo]
    else
      var rest := RowMax(row, lo, hi - 1);
      if row[hi - 1] > rest then row[hi - 1] else rest
  }

  /** Largest pixel in rows `r0..r1` and columns `c0..c1` (upper bounds exclusive). */
  function BlockMax(g: Grid<int>, r0: nat, r1: nat, c0: nat, c1: nat): (m: int)
    requires r0 < r1 <= |g| && c0 < c1
    requires forall i :: r0 <= i < r1 ==> c1 <= |g[i]|
    ensures forall i, j :: r0 <= i < r1 && c0 <= j < c1 ==> g[i][j] <= m
    ensures exists i, j :: r0 <= i < r1 && c0 <= j < c1 && g[i][j] == m
    decreases r1 - r0
  {
    var last := RowMax(g[r1 - 1], c0, c1);
    if r1 - r0 == 1 then last
    else
      var rest := BlockMax(g, r0, r1 - 1, c0, c1);
      if last > rest then last else rest
  }

  function Max(a: int, b: int): int { if a < b then b else a }
  function Min(a: int, b: int): int { if a < b then a else b }

  /** Rows (or columns) of the 5x5 neighbourhood of index x that lie inside 0..n-1. */
  function NeighbourhoodLow(x: nat): nat { Max(0, x - 2) }
  function NeighbourhoodHigh(x: nat, n: nat): nat { Min(n, x + 3) }

  /** `cv2.dilate(g, np.ones((5,5)), iterations=1)`: each pixel becomes the largest pixel of
      the 5x5 window centred on it; the window is clipped at the image border. */
  function Dilate(g: Grid<int>, h: nat, w: nat): (d: Grid<int>)
    requires IsRect(g, h, w)
    ensures IsRect(d, h, w)
  {
    seq(h, r requires 0 <= r < h =>
      seq(w, c requires 0 <= c < w =>
        BlockMax(g, NeighbourhoodLow(r), NeighbourhoodHigh(r, h), NeighbourhoodLow(c), NeighbourhoodHigh(c, w))))
  }

  /** Within two rows and two columns: the 5x5 neighbourhood relation. */
  predicate Near(r: int, c: int, i: int, j: int)
  {
    r - 2 <= i <= r + 2 && c - 2 <= j <= c + 2
  }

  /** A dilated pixel is the maximum of its in-bounds 5x5 neighbourhood: no neighbour exceeds
      it and some neighbour equals it. So dilation never lowers a pixel, and a binary (or byte)
      image stays binary (or byte). */
  lemma DilateIsNeighbourhoodMax(g: Grid<int>, h: nat, w: nat, r: nat, c: nat)
    requires IsRect(g, h, w) && r < h && c < w
    ensures forall i, j :: 0 <= i < h && 0 <= j < w && Near(r, c, i, j) ==> g[i][j] <= Dilate(g, h, w)[r][c]
    ensures exists i, j :: 0 <= i < h && 0 <= j < w && Near(r, c, i, j) && g[i][j] == Dilate(g, h, w)[r][c]
    ensures g[r][c] <= Dilate(g, h, w)[r][c]
  {
    var r0, r1, c0, c1 := NeighbourhoodLow(r), NeighbourhoodHigh(r, h), NeighbourhoodLow(c), NeighbourhoodHigh(c, w);
    var m := Dilate(g, h, w)[r][c];
    assert m == BlockMax(g, r0, r1, c0, c1);
    var i, j :| r0 <= i < r1 && c0 <= j < c1 && g[i][j] == m;
    assert Near(r, c, i, j);
  }

  /** On a binary image a dilated pixel is 255 exactly when some in-bounds pixel of its 5x5
      neighbourhood is 255: dilation closes gaps of up to four pixels. */
  lemma DilateBinary(g: Grid<int>, h: nat, w: nat, r: nat, c: nat)
    requires IsRect(g, h, w) && IsBinary(g) && r < h && c < w
    ensures Dilate(g, h, w)[r][c] == 255 <==>
              exists i, j :: 0 <= i < h && 0 <= j < w && Near(r, c, i, j) && g[i][j] == 255
  {
    DilateIsNeighbourhoodMax(g, h, w, r, c);
    var i, j :| 0 <= i < h && 0 <= j < w && Near(r, c, i, j) && g[i][j] == Dilate(g, h, w)[r][c];
    assert g[i][j] == 0 || g[i][j] == 255;
  }

  /** Dilation keeps a binary image binary and a byte image in byte range. */
  lemma DilateKeepsValues(g: Grid<int>, h: nat, w: nat)
    requires IsRect(g, h, w)
    ensures IsBinary(g) ==> IsBinary(Dilate(g, h, w))
    ensures IsBytes(g) ==> IsBytes(Dilate(g, h, w))
  {
    var d := Dilate(g, h, w);
    forall r, c | 0 <= r < h && 0 <= c < w
      ensures IsBinary(g) ==> d[r][c] == 0 || d[r][c] == 255
      ensures IsBytes(g) ==> 0 <= d[r][c] < 256
    {
      DilateIsNeighbourhoodMax(g, h, w, r, c);
      var i, j :| 0 <= i < h && 0 <= j < w && Near(r, c, i, j) && g[i][j] == d[r][c];
    }
  }

  // ---------------------------------------------------------------------------------------
  // Pixel-wise OR

  /** `cv2.bitwise_or` on two unsigned bytes. */
  function BitOr(a: int, b: int): (r: int)
    requires 0 <= a < 256 && 0 <= b < 256
    ensures 0 <= r < 256
    ensures a <= r && b <= r
  {
    OrBitsUpper(a, b, 8);
    OrBits(a, b, 8)
  }

  function Pow2(n: nat): nat
  {
    if n == 0 then 1 else 2 * Pow2(n - 1)
  }

  /** Bitwise OR of the low `bits` bits of `a` and `b`, least significant bit last. */
  function OrBits(a: nat, b: nat, bits: nat): (r: nat)
    ensures r < Pow2(bits)
  {
    if bits == 0 then 0
    else 2 * OrBits(a / 2, b / 2, bits - 1) + (if a % 2 == 1 || b % 2 == 1 then 1 else 0)
  }

  /** Setting bits never lowers a value: the OR of the low `bits` bits is at least each operand
      that fits in them. */
  lemma {:induction false} OrBitsUpper(a: nat, b: nat, bits: nat)
    requires a < Pow2(bits) && b < Pow2(bits)
    ensures a <= OrBits(a, b, bits) && b <= OrBits(a, b, bits)
    decreases bits
  {
    if bits > 0 {
      OrBitsUpper(a / 2, b / 2, bits - 1);
    }
  }

  /** `cv2.bitwise_or(a, b)` on two byte images of the same extent. */
  function Merge(a: Grid<int>, b: Grid<int>, h: nat, w: nat): (m: Grid<int>)
    requires IsRect(a, h, w) && IsRect(b, h, w) && IsBytes(a) && IsBytes(b)
    ensures IsRect(m, h, w) && IsBytes(m)
  {
    seq(h, r requires 0 <= r < h => seq(w, c requires 0 <= c < w => BitOr(a[r][c], b[r][c])))
  }

  /** On binary masks the OR is 255 exactly where either mask is 255, and stays binary. */
  lemma MergeBinary(a: Grid<int>, b: Grid<int>, h: nat, w: nat)
    requires IsRect(a, h, w) && IsRect(b, h, w) && IsBinary(a) && IsBinary(b)
    ensures IsBytes(a) && IsBytes(b)
    ensures IsBinary(Merge(a, b, h, w))
    ensures forall r, c :: 0 <= r < h && 0 <= c < w ==>
              (Merge(a, b, h, w)[r][c] == 255 <==> a[r][c] == 255 || b[r][c] == 255)
  {
    var m := Merge(a, b, h, w);
    forall r, c | 0 <= r < h && 0 <= c < w
      ensures (m[r][c] == 0 || m[r][c] == 255) && (m[r][c] == 255 <==> a[r][c] == 255 || b[r][c] == 255)
    {
      var x, y := a[r][c], b[r][c];
      assert x == 0 || x == 255;
      assert y == 0 || y == 255;
      BitOrAlgebra(x, y);
      BitOrAlgebra(y, x);
      assert m[r][c] == BitOr(x, y);
    }
  }

  /** The merge is commutative and idempotent. */
  lemma MergeAlgebra(a: Grid<int>, b: Grid<int>, h: nat, w: nat)
    requires IsRect(a, h, w) && IsRect(b, h, w) && IsBytes(a) && IsBytes(b)
    ensures Merge(a, b, h, w) == Merge(b, a, h, w)
    ensures Merge(a, a, h, w) == a
  {
    var ab, ba, aa := Merge(a, b, h, w), Merge(b, a, h, w), Merge(a, a, h, w);
    forall r | 0 <= r < h ensures ab[r] == ba[r] && aa[r] == a[r] {
      forall c | 0 <= c < w ensures ab[r][c] == ba[r][c] && aa[r][c] == a[r][c] {
        BitOrAlgebra(a[r][c], b[r][c]);
      }
    }
  }

  /** Byte-wise OR is commutative, idempotent and has 0 as its unit. */
  lemma BitOrAlgebra(x: int, y: int)
    requires 0 <= x < 256 && 0 <= y < 256
    ensures BitOr(x, y) == BitOr(y, x)
    ensures BitOr(x, x) == x
    ensures BitOr(x, 0) == x && BitOr(0, x) == x
  {
    OrBitsCommutes(x, y, 8);
    OrBitsUnit(x, x, 8);
    OrBitsUnit(x, 0, 8);
    OrBitsCommutes(x, 0, 8);
  }

  lemma {:induction false} OrBitsCommutes(a: nat, b: nat, bits: nat)
    ensures OrBits(a, b, bits) == OrBits(b, a, bits)
  {
    if bits > 0 {
      OrBitsCommutes(a / 2, b / 2, bits - 1);
    }
  }

  /** OR-ing the low `bits` bits of `a` with itself or with 0 gives `a` back. */
  lemma {:induction false} OrBitsUnit(a: nat, b: nat, bits: nat)
    requires a < Pow2(bits) && (b == a || b == 0)
    ensures OrBits(a, b, bits) == a
  {
    if bits > 0 {
      assert a / 2 < Pow2(bits - 1);
      OrBitsUnit(a / 2, b / 2, bits - 1);
    }
  }
}
