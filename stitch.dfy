/** Composite assembly: the tiles of one screenshot, fetched as a grid of decoded
    images, are copied block by block into one output raster (the stitching inside
    `uploadAndroidImages`). Pixels are plain integers; the copy is byte-exact, so
    the pixel format is not modelled. */
module Stitch {

  /** A decoded bitmap: `pixels[y][x]` is the pixel in row `y`, column `x`. */
  datatype Raster = Raster(width: nat, height: nat, pixels: seq<seq<int>>) {
    /** The rows have the declared count and length, and the image is not empty
        (a `BufferedImage` is at least 1x1). */
    predicate WellFormed() {
      width >= 1 && height >= 1 && |pixels| == height &&
      forall y :: 0 <= y < |pixels| ==> |pixels[y]| == width
    }
  }

  /** The images an image provider decodes and the composite the stitching builds. */
  type Image = r: Raster | r.WellFormed() witness Raster(1, 1, [[0]])

  // ---------------------------------------------------------------------------
  // Running offsets: the sum of a prefix of tile sizes
  // ---------------------------------------------------------------------------

  /** The sum of a list of sizes (Kotlin's `sum()` over the mapped widths or heights). */
  function Sum(s: seq<nat>): nat {
    if s == [] then 0 else Sum(s[..|s| - 1]) + s[|s| - 1]
  }

  /** Adding one more size to a prefix adds exactly that size to its sum. */
  lemma SumStep(s: seq<nat>, k: nat)
    requires k < |s|
    ensures Sum(s[..k + 1]) == Sum(s[..k]) + s[k]
  {
    assert s[..k + 1][..k] == s[..k];
  }

  /** Sums of prefixes grow with the prefix. */
  lemma {:induction false} SumMonotone(s: seq<nat>, i: nat, j: nat)
    requires i <= j <= |s|
    ensures Sum(s[..i]) <= Sum(s[..j])
  {
    if i < j {
      SumMonotone(s, i, j - 1);
      SumStep(s, j - 1);
    }
  }

  /** A block that starts at the offset of entry `k` and is shorter than that
      entry lies inside the total. */
  lemma BlockInside(s: seq<nat>, k: nat, i: nat)
    requires k < |s| && i < s[k]
    ensures Sum(s[..k]) + i < Sum(s)
  {
    SumStep(s, k);
    SumMonotone(s, k + 1, |s|);
    assert s[..|s|] == s;
  }

  /** The entry whose block `[Sum(s[..k]), Sum(s[..k]) + s[k])` holds position `p`. */
  function Locate(s: seq<nat>, p: nat): (k: nat)
    requires p < Sum(s)
    ensures k < |s| && Sum(s[..k]) <= p < Sum(s[..k]) + s[k]
  {
    var n := |s| - 1;
    if p >= Sum(s[..n]) then
      assert s[..n + 1] == s;
      n
    else
      var k := Locate(s[..n], p);
      assert s[..n][..k] == s[..k];
      k
  }

  /** The blocks of distinct entries do not overlap: only one entry holds `p`. */
  lemma LocateUnique(s: seq<nat>, k: nat, p: nat)
    requires k < |s| && Sum(s[..k]) <= p < Sum(s[..k]) + s[k]
    ensures p < Sum(s) && Locate(s, p) == k
  {
    BlockInside(s, k, p - Sum(s[..k]));
    var l := Locate(s, p);
    if l < k {
      SumStep(s, l);
      SumMonotone(s, l + 1, k);
    } else if k < l {
      SumStep(s, k);
      SumMonotone(s, k + 1, l);
    }
  }

  // ---------------------------------------------------------------------------
  // The grid and the composite it describes
  // ---------------------------------------------------------------------------

  /** The tiles fit together: at least one row and one column, every row as long
      as row 0, every tile as high as the first tile of its row and as wide as
      the tile of row 0 in its column. The source never checks this; `setRect`
      clips whatever does not fit. */
  predicate Rectangular(grid: seq<seq<Image>>) {
    |grid| >= 1 && |grid[0]| >= 1 &&
    (forall r :: 0 <= r < |grid| ==> |grid[r]| == |grid[0]|) &&
    (forall r, c {:trigger grid[r][c]} :: 0 <= r < |grid| && 0 <= c < |grid[r]| ==>
       grid[r][c].height == grid[r][0].height && grid[r][c].width == grid[0][c].width)
  }

  /** The height of each row: the height of its first tile. */
  function RowHeights(grid: seq<seq<Image>>): (hs: seq<nat>)
    requires Rectangular(grid)
    ensures |hs| == |grid|
    ensures forall r :: 0 <= r < |grid| ==> hs[r] == grid[r][0].height
  {
    seq(|grid|, r requires 0 <= r < |grid| => grid[r][0].height)
  }

  /** The width of each column: the width of its tile in row 0. */
  function ColWidths(grid: seq<seq<Image>>): (ws: seq<nat>)
    requires Rectangular(grid)
    ensures |ws| == |grid[0]|
    ensures forall c :: 0 <= c < |grid[0]| ==> ws[c] == grid[0][c].width
  {
    seq(|grid[0]|, c requires 0 <= c < |grid[0]| => grid[0][c].width)
  }

  /** Tile `(r, c)` has its row's height and its column's width. */
  lemma TileSize(grid: seq<seq<Image>>, r: nat, c: nat)
    requires Rectangular(grid) && r < |grid| && c < |grid[r]|
    ensures c < |grid[0]|
    ensures RowHeights(grid)[r] == grid[r][c].height && ColWidths(grid)[c] == grid[r][c].width
  {
  }

  /** The composite pixel at `(x, y)`: the pixel of the tile whose block holds it,
      taken relative to that tile's corner. */
  function Pixel(grid: seq<seq<Image>>, y: nat, x: nat): int
    requires Rectangular(grid)
    requires y < Sum(RowHeights(grid)) && x < Sum(ColWidths(grid))
  {
    var hs, ws := RowHeights(grid), ColWidths(grid);
    var r, c := Locate(hs, y), Locate(ws, x);
    grid[r][c].pixels[y - Sum(hs[..r])][x - Sum(ws[..c])]
  }

  /** The composite image: as wide as row 0 and as high as column 0. */
  function Composite(grid: seq<seq<Image>>): (img: Image)
    requires Rectangular(grid)
    ensures img.width == Sum(ColWidths(grid)) && img.height == Sum(RowHeights(grid))
  {
    var ws, hs := ColWidths(grid), RowHeights(grid);
    var w, h := Sum(ws), Sum(hs);
    assert ws[..|ws|] == ws && hs[..|hs|] == hs;
    BlockInside(ws, 0, 0);
    BlockInside(hs, 0, 0);
    Raster(w, h, seq(h, y requires 0 <= y < h =>
                       seq(w, x requires 0 <= x < w => Pixel(grid, y, x))))
  }

  /** The composite pixel at offset `(j, i)` inside tile `(r, c)`'s block is that
      tile's pixel `(j, i)`. */
  lemma PixelOfTile(grid: seq<seq<Image>>, r: nat, c: nat, i: nat, j: nat)
    requires Rectangular(grid) && r < |grid| && c < |grid[r]|
    requires i < grid[r][c].height && j < grid[r][c].width
    ensures Sum(RowHeights(grid)[..r]) + i < Sum(RowHeights(grid))
    ensures Sum(ColWidths(grid)[..c]) + j < Sum(ColWidths(grid))
    ensures Pixel(grid, Sum(RowHeights(grid)[..r]) + i, Sum(ColWidths(grid)[..c]) + j)
            == grid[r][c].pixels[i][j]
  {
    var hs, ws := RowHeights(grid), ColWidths(grid);
    var y, x := Sum(hs[..r]) + i, Sum(ws[..c]) + j;
    TileSize(grid, r, c);
    LocateUnique(hs, r, y);
    LocateUnique(ws, c, x);
    assert Pixel(grid, y, x) == grid[Locate(hs, y)][Locate(ws, x)].pixels[y - Sum(hs[..r])][x - Sum(ws[..c])];
  }

  /** The whole block of tile `(r, c)`, placed at the running offsets `(w, h)`,
      agrees with the composite. */
  lemma TileBlock(grid: seq<seq<Image>>, r: nat, c: nat, h: nat, w: nat)
    requires Rectangular(grid) && r < |grid| && c < |grid[r]|
    requires h == Sum(RowHeights(grid)[..r]) && w == Sum(ColWidths(grid)[..c])
    ensures h + grid[r][c].height <= Sum(RowHeights(grid))
    ensures w + grid[r][c].width <= Sum(ColWidths(grid))
    ensures forall i: nat, j: nat :: i < grid[r][c].height && j < grid[r][c].width ==>
              Pixel(grid, h + i, w + j) == grid[r][c].pixels[i][j]
  {
    PixelOfTile(grid, r, c, grid[r][c].height - 1, grid[r][c].width - 1);
    forall i: nat, j: nat | i < grid[r][c].height && j < grid[r][c].width
      ensures Pixel(grid, h + i, w + j) == grid[r][c].pixels[i][j]
    {
      PixelOfTile(grid, r, c, i, j);
    }
  }

  /** Tile `(r, c)` lies at `x = Σ_{k<c} width(0, k)`, `y = Σ_{k<r} height(k, 0)`
      inside the composite, and each of its pixels appears there unchanged. */
  lemma CompositeHoldsTile(grid: seq<seq<Image>>, r: nat, c: nat, i: nat, j: nat)
    requires Rectangular(grid) && r < |grid| && c < |grid[r]|
    requires i < grid[r][c].height && j < grid[r][c].width
    ensures Sum(RowHeights(grid)[..r]) + i < Composite(grid).height
    ensures Sum(ColWidths(grid)[..c]) + j < Composite(grid).width
    ensures Composite(grid).pixels[Sum(RowHeights(grid)[..r]) + i][Sum(ColWidths(grid)[..c]) + j]
            == grid[r][c].pixels[i][j]
  {
    PixelOfTile(grid, r, c, i, j);
  }

  /** Tile `(r, c)`'s block in the composite: the pixels copied from it. */
  predicate InBlock(grid: seq<seq<Image>>, r: nat, c: nat, y: nat, x: nat)
    requires Rectangular(grid)
  {
    var hs, ws := RowHeights(grid), ColWidths(grid);
    r < |hs| && c < |ws| &&
    Sum(hs[..r]) <= y < Sum(hs[..r]) + hs[r] && Sum(ws[..c]) <= x < Sum(ws[..c]) + ws[c]
  }

  /** Every composite pixel lies in the block of exactly one tile: the one
      `Locate` finds along each axis. */
  lemma CompositeCoveredOnce(grid: seq<seq<Image>>, y: nat, x: nat)
    requires Rectangular(grid)
    requires y < Sum(RowHeights(grid)) && x < Sum(ColWidths(grid))
    ensures InBlock(grid, Locate(RowHeights(grid), y), Locate(ColWidths(grid), x), y, x)
    ensures forall r: nat, c: nat :: InBlock(grid, r, c, y, x) ==>
              r == Locate(RowHeights(grid), y) && c == Locate(ColWidths(grid), x)
  {
    var hs, ws := RowHeights(grid), ColWidths(grid);
    forall r: nat, c: nat | InBlock(grid, r, c, y, x)
      ensures r == Locate(hs, y) && c == Locate(ws, x)
    {
      LocateUnique(hs, r, y);
      LocateUnique(ws, c, x);
    }
  }

  /** A screenshot of a single tile is an identity copy. */
  lemma SingleTileIdentity(t: Image)
    ensures Rectangular([[t]]) && Composite([[t]]) == t
  {
    var grid := [[t]];
    var hs, ws := RowHeights(grid), ColWidths(grid);
    assert hs == [t.height] && ws == [t.width];
    assert hs[..0] == [] && ws[..0] == [];
    assert Sum(hs) == t.height by { assert hs[..|hs| - 1] == []; }
    assert Sum(ws) == t.width by { assert ws[..|ws| - 1] == []; }
    var img := Composite(grid);
    forall y | 0 <= y < t.height ensures img.pixels[y] == t.pixels[y] {
      forall x | 0 <= x < t.width ensures img.pixels[y][x] == t.pixels[y][x] {
        LocateUnique(hs, 0, y);
        LocateUnique(ws, 0, x);
      }
    }
  }

  // ---------------------------------------------------------------------------
  // The stitching itself, in place on the output raster
  // ---------------------------------------------------------------------------

  /** `WritableRaster.setRect(dx, dy, src)`: copies `src` with its corner at
      `(dx, dy)`, silently dropping whatever falls outside `out`. */
  method SetRect(out: array2<int>, dx: nat, dy: nat, src: Image)
    modifies out
    ensures forall y, x :: 0 <= y < out.Length0 && 0 <= x < out.Length1 ==>
              out[y, x] == if dy <= y < dy + src.height && dx <= x < dx + src.width
                           then src.pixels[y - dy][x - dx] else old(out[y, x])
  {
    var rows := if dy + src.height <= out.Length0 then src.height
                else if dy <= out.Length0 then out.Length0 - dy else 0;
    var cols := if dx + src.width <= out.Length1 then src.width
                else if dx <= out.Length1 then out.Length1 - dx else 0;
    var i := 0;
    while i < rows
      invariant 0 <= i <= rows
      invariant forall y, x :: 0 <= y < out.Length0 && 0 <= x < out.Length1 ==>
                  out[y, x] == if dy <= y < dy + i && dx <= x < dx + src.width
                               then src.pixels[y - dy][x - dx] else old(out[y, x])
    {
      var j := 0;
      while j < cols
        invariant 0 <= j <= cols
        invariant forall y, x :: 0 <= y < out.Length0 && 0 <= x < out.Length1 ==>
                    out[y, x] == if (dy <= y < dy + i && dx <= x < dx + src.width) ||
                                    (y == dy + i && dx <= x < dx + j)
                                 then src.pixels[y - dy][x - dx] else old(out[y, x])
      {
        out[dy + i, dx + j] := src.pixels[i][j];
        j := j + 1;
      }
      i := i + 1;
    }
  }

  /** One pass of the inner loop: the tiles of row `r` are copied left to right,
      each at the running offset `w`, which grows by the width of the tile just
      placed. The rows of the output outside this row's strip are untouched. */
  method StitchRow(out: array2<int>, grid: seq<seq<Image>>, r: nat, h: nat)
    requires Rectangular(grid) && r < |grid|
    requires out.Length0 == Sum(RowHeights(grid)) && out.Length1 == Sum(ColWidths(grid))
    requires h == Sum(RowHeights(grid)[..r])
    modifies out
    ensures forall y, x :: 0 <= y < out.Length0 && 0 <= x < out.Length1 ==>
              out[y, x] == if h <= y < h + grid[r][0].height then Pixel(grid, y, x) else old(out[y, x])
  {
    var hs, ws := RowHeights(grid), ColWidths(grid);
    var row := grid[r];
    BlockInside(hs, r, row[0].height - 1);
    var w := 0;
    var c := 0;
    while c < |row|
      invariant 0 <= c <= |row|
      invariant w == Sum(ws[..c]) <= out.Length1
      invariant forall y, x :: (0 <= y < out.Length0 && 0 <= x < out.Length1 &&
                                !(h <= y < h + row[0].height && x < w)) ==>
                  out[y, x] == old(out[y, x])
      invariant forall y, x :: h <= y < h + row[0].height && 0 <= x < w ==>
                  out[y, x] == Pixel(grid, y, x)
    {
      BlockInside(ws, c, row[c].width - 1);
      SumStep(ws, c);
      SumMonotone(ws, c + 1, |ws|);
      var tile := row[c];
      assert tile.height == row[0].height;
      SetRect(out, w, h, tile);
      TileBlock(grid, r, c, h, w);
      w := w + tile.width;
      c := c + 1;
    }
    assert ws[..|ws|] == ws;
  }

  /** Builds the composite as the source does: a running vertical offset `h`
      that grows by each row's first tile height after the row is placed. The
      result holds exactly the composite image. */
  method Assemble(grid: seq<seq<Image>>) returns (out: array2<int>)
    requires Rectangular(grid)
    ensures fresh(out)
    ensures out.Length0 == Composite(grid).height && out.Length1 == Composite(grid).width
    ensures forall y, x :: 0 <= y < out.Length0 && 0 <= x < out.Length1 ==>
              out[y, x] == Composite(grid).pixels[y][x]
  {
    var hs := RowHeights(grid);
    var width := Sum(ColWidths(grid));
    var height := Sum(hs);
    out := new int[height, width];
    assert hs[..|hs|] == hs;
    var h := 0;
    var r := 0;
    while r < |grid|
      invariant 0 <= r <= |grid|
      invariant h == Sum(hs[..r]) <= height
      invariant forall y, x :: 0 <= y < h && 0 <= x < width ==> out[y, x] == Pixel(grid, y, x)
    {
      StitchRow(out, grid, r, h);
      SumStep(hs, r);
      SumMonotone(hs, r + 1, |hs|);
      assert hs[r] == grid[r][0].height;
      h := h + grid[r][0].height;
      r := r + 1;
    }
    assert hs[..|hs|] == hs;
  }
}
