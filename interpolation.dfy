/** Bilinear resampling of a row-major grid of `float`s onto a larger grid
    whose corners coincide with the source corners. Coordinates travel as
    C `int8_t` values and dimensions as `uint8_t`, which bounds the grids. */
module Interpolation {
  import opened Arith

  const Int8Max: nat := 127
  const UInt8Max: nat := 255

  /** Row-major index of (x, y) after the replicate-border policy: a
      coordinate past the last column or row is pulled back to it. Only the
      upper bounds are clamped; coordinates are never negative here. */
  function ClampedIndex(rows: nat, cols: nat, x: nat, y: nat): (i: nat)
    requires rows > 0 && cols > 0
    ensures i < rows * cols
    ensures x < cols && y < rows ==> i == y * cols + x
  {
    var cx := if x >= cols then cols - 1 else x;
    var cy := if y >= rows then rows - 1 else y;
    RowMajorInBounds(cx, cy, cols, rows);
    cy * cols + cx
  }

  /** The clamped index decodes to the clamped column and row. */
  lemma ClampedIndexDecodes(rows: nat, cols: nat, x: nat, y: nat)
    requires rows > 0 && cols > 0
    ensures ClampedIndex(rows, cols, x, y) % cols == (if x >= cols then cols - 1 else x)
    ensures ClampedIndex(rows, cols, x, y) / cols == (if y >= rows then rows - 1 else y)
  {
    RowMajor(if x >= cols then cols - 1 else x, if y >= rows then rows - 1 else y, cols);
  }

  /** The sample at (x, y) with the border clamped. Inside the grid it is
      the plain row-major sample; it is always one of the grid's samples. */
  function GetPoint(p: seq<real>, rows: nat, cols: nat, x: nat, y: nat): (v: real)
    requires 0 < rows <= UInt8Max && 0 < cols <= UInt8Max && |p| == rows * cols
    requires x <= Int8Max && y <= Int8Max
    ensures x < cols && y < rows ==> ClampedIndex(rows, cols, x, y) == y * cols + x && v == p[y * cols + x]
    ensures v in p
  {
    p[ClampedIndex(rows, cols, x, y)]
  }

  /** Past the last column the sample of the last column is repeated. */
  lemma GetPointClampsColumn(p: seq<real>, rows: nat, cols: nat, x: nat, y: nat)
    requires 0 < rows <= UInt8Max && 0 < cols <= UInt8Max && |p| == rows * cols
    requires cols <= x <= Int8Max && y <= Int8Max
    ensures GetPoint(p, rows, cols, x, y) == GetPoint(p, rows, cols, cols - 1, y)
  {
  }

  /** Past the last row the sample of the last row is repeated. */
  lemma GetPointClampsRow(p: seq<real>, rows: nat, cols: nat, x: nat, y: nat)
    requires 0 < rows <= UInt8Max && 0 < cols <= UInt8Max && |p| == rows * cols
    requires x <= Int8Max && rows <= y <= Int8Max
    ensures GetPoint(p, rows, cols, x, y) == GetPoint(p, rows, cols, x, rows - 1)
  {
  }

  /** Writes one sample at row-major position (x, y); nothing else changes. */
  method SetPoint(p: array<real>, rows: nat, cols: nat, x: nat, y: nat, f: real)
    requires x <= Int8Max && y <= Int8Max && y * cols + x < p.Length
    modifies p
    ensures p[..] == old(p[..])[y * cols + x := f]
  {
    p[y * cols + x] := f;
  }

  /** The 2x2 neighbourhood of (x, y) in row-major order, border clamped. */
  function Adjacents(src: seq<real>, rows: nat, cols: nat, x: nat, y: nat): (taps: seq<real>)
    requires 0 < rows <= UInt8Max && 0 < cols <= UInt8Max && |src| == rows * cols
    requires x + 1 <= Int8Max && y + 1 <= Int8Max
    ensures |taps| == 4
    ensures forall k :: 0 <= k < 4 ==> taps[k] in src
  {
    [GetPoint(src, rows, cols, x, y), GetPoint(src, rows, cols, x + 1, y),
     GetPoint(src, rows, cols, x, y + 1), GetPoint(src, rows, cols, x + 1, y + 1)]
  }

  /** Away from the last row and column the neighbourhood is the four
      row-major samples (x, y), (x + 1, y), (x, y + 1), (x + 1, y + 1). */
  lemma AdjacentsInterior(src: seq<real>, rows: nat, cols: nat, x: nat, y: nat, i: nat)
    requires 0 < rows <= UInt8Max && 0 < cols <= UInt8Max && |src| == rows * cols
    requires x + 1 < cols && y + 1 < rows && x + 1 <= Int8Max && y + 1 <= Int8Max
    requires i == y * cols + x
    ensures i + cols + 1 < |src|
    ensures Adjacents(src, rows, cols, x, y) == [src[i], src[i + 1], src[i + cols], src[i + cols + 1]]
  {
    NextRow(y, cols);
    RowMajorInBounds(x + 1, y + 1, cols, rows);
    var taps := Adjacents(src, rows, cols, x, y);
    assert taps[2] == src[i + cols];
    assert taps[3] == src[i + cols + 1];
  }

  lemma NextRow(y: int, cols: int)
    ensures (y + 1) * cols == y * cols + cols
  {
  }

  /** Fills the caller's four-slot buffer with the neighbourhood of (x, y). */
  method GetAdjacents2D(src: array<real>, dest: array<real>, rows: nat, cols: nat, x: nat, y: nat)
    requires 0 < rows <= UInt8Max && 0 < cols <= UInt8Max && src.Length == rows * cols
    requires x + 1 <= Int8Max && y + 1 <= Int8Max
    requires dest.Length == 4 && dest != src
    modifies dest
    ensures dest[..] == Adjacents(src[..], rows, cols, x, y)
  {
    dest[0] := GetPoint(src[..], rows, cols, x + 0, y + 0);
    dest[1] := GetPoint(src[..], rows, cols, x + 1, y + 0);
    dest[2] := GetPoint(src[..], rows, cols, x + 0, y + 1);
    dest[3] := GetPoint(src[..], rows, cols, x + 1, y + 1);
  }

  /** Bilinear blend of a 2x2 neighbourhood at fractional offset (x, y):
      the four corners of the unit square reproduce the four samples. */
  function BilinearInterpolate(p: seq<real>, x: real, y: real): (v: real)
    requires |p| == 4
    ensures x == 0.0 && y == 0.0 ==> v == p[0]
    ensures x == 1.0 && y == 0.0 ==> v == p[1]
    ensures x == 0.0 && y == 1.0 ==> v == p[2]
    ensures x == 1.0 && y == 1.0 ==> v == p[3]
  {
    var top := p[1] * x + p[0] * (1.0 - x);
    var bottom := p[3] * x + p[2] * (1.0 - x);
    bottom * y + top * (1.0 - y)
  }

  /** Inside the unit square the blend is a convex combination: it never
      leaves an interval that holds all four samples. */
  lemma BilinearWithin(p: seq<real>, x: real, y: real, lo: real, hi: real)
    requires |p| == 4 && 0.0 <= x <= 1.0 && 0.0 <= y <= 1.0
    requires forall k :: 0 <= k < 4 ==> lo <= p[k] <= hi
    ensures lo <= BilinearInterpolate(p, x, y) <= hi
  {
    var top := p[1] * x + p[0] * (1.0 - x);
    var bottom := p[3] * x + p[2] * (1.0 - x);
    BlendWithin(p[1], p[0], x, lo, hi);
    BlendWithin(p[3], p[2], x, lo, hi);
    BlendWithin(bottom, top, y, lo, hi);
  }

  /** A flat neighbourhood blends to its own value at any offset. */
  lemma BilinearFlat(p: seq<real>, x: real, y: real, c: real)
    requires |p| == 4 && forall k :: 0 <= k < 4 ==> p[k] == c
    ensures BilinearInterpolate(p, x, y) == c
  {
    var top := p[1] * x + p[0] * (1.0 - x);
    assert top == c * (x + (1.0 - x));
    var bottom := p[3] * x + p[2] * (1.0 - x);
    assert bottom == c * (x + (1.0 - x));
    assert bottom * y + top * (1.0 - y) == c * (y + (1.0 - y));
  }

  /** Dimensions `interpolate_image` handles: the destination spans at least
      two cells per axis (the ratio divides by dest - 1), source coordinates
      plus one and destination coordinates fit an `int8_t`. */
  predicate ResampleDims(srcRows: nat, srcCols: nat, destRows: nat, destCols: nat)
  {
    && 1 <= srcRows <= Int8Max && 1 <= srcCols <= Int8Max
    && 2 <= destRows <= Int8Max + 1 && 2 <= destCols <= Int8Max + 1
  }

  /** Source coordinate of destination index `i`: the corners of the two
      grids coincide, so it runs from 0 to src - 1. */
  function SourceCoordinate(i: nat, src: nat, dest: nat): (c: real)
    requires 1 <= src && 2 <= dest && i < dest
    ensures 0.0 <= c <= (src - 1) as real
    ensures i == dest - 1 ==> c == (src - 1) as real
  {
    var mu := (src as real - 1.0) / (dest as real - 1.0);
    ScaledRatio(i as real, src as real - 1.0, dest as real - 1.0);
    i as real * mu
  }

  /** A step of n / d taken i times, for 0 <= i <= d, stays in [0, n] and
      reaches n at i == d. */
  lemma ScaledRatio(i: real, n: real, d: real)
    requires n >= 0.0 && d > 0.0 && 0.0 <= i <= d
    ensures 0.0 <= i * (n / d) <= n
    ensures i == d ==> i * (n / d) == n
  {
    var mu := n / d;
    assert mu * d == n;
    assert mu >= 0.0 by {
      if mu < 0.0 { MulRealStrict(d, mu, 0.0); }
    }
    MulRealMonotone(mu, 0.0, i);
    MulRealMonotone(mu, i, d);
    assert i * mu == mu * i;
  }

  /** The resampled value at destination cell (xi, yi): the base source
      cell is the truncated coordinate, the blend weights its fraction. */
  function UpsampledAt(src: seq<real>, srcRows: nat, srcCols: nat, destRows: nat, destCols: nat,
                       xi: nat, yi: nat): real
    requires ResampleDims(srcRows, srcCols, destRows, destCols) && |src| == srcRows * srcCols
    requires xi < destCols && yi < destRows
  {
    var x := SourceCoordinate(xi, srcCols, destCols);
    var y := SourceCoordinate(yi, srcRows, destRows);
    BilinearInterpolate(Adjacents(src, srcRows, srcCols, x.Floor, y.Floor),
                        x - x.Floor as real, y - y.Floor as real)
  }

  /** Destination cell `k` of the row-major output grid. */
  function UpsampledCell(src: seq<real>, srcRows: nat, srcCols: nat, destRows: nat, destCols: nat,
                         k: nat): real
    requires ResampleDims(srcRows, srcCols, destRows, destCols) && |src| == srcRows * srcCols
    requires k < destRows * destCols
  {
    UpsampledAt(src, srcRows, srcCols, destRows, destCols, Column(k, destCols), Row(k, destCols, destRows))
  }

  /** Column of row-major index `k` in a grid with `cols` columns. */
  function Column(k: nat, cols: nat): (x: nat)
    requires cols > 0
    ensures x < cols
  {
    k % cols
  }

  /** Row of row-major index `k` in a grid of `rows` by `cols`. */
  function Row(k: nat, cols: nat, rows: nat): (y: nat)
    requires cols > 0 && k < rows * cols
    ensures y < rows
  {
    DivBelow(k, cols, rows);
    k / cols
  }

  lemma DivBelow(k: nat, cols: nat, rows: nat)
    requires cols > 0 && k < rows * cols
    ensures k % cols < cols && k / cols < rows
  {
    if k / cols >= rows {
      MulLeMonotone(cols, rows, k / cols);
    }
  }

  /** Resamples `src` onto `dest` cell by cell: every destination cell gets
      the bilinear value at its source coordinate, and `src` is untouched. */
  method InterpolateImage(src: array<real>, srcRows: nat, srcCols: nat,
                          dest: array<real>, destRows: nat, destCols: nat)
    requires ResampleDims(srcRows, srcCols, destRows, destCols)
    requires src.Length == srcRows * srcCols && dest.Length == destRows * destCols
    requires src != dest
    modifies dest
    ensures forall k :: 0 <= k < dest.Length ==>
      dest[k] == UpsampledCell(src[..], srcRows, srcCols, destRows, destCols, k)
  {
    var muX := (srcCols as real - 1.0) / (destCols as real - 1.0);
    var muY := (srcRows as real - 1.0) / (destRows as real - 1.0);
    var adj := new real[4];
    ghost var image := src[..];
    var yi := 0;
    ghost var next := 0;
    while yi < destRows
      invariant 0 <= yi <= destRows && next == yi * destCols && next <= dest.Length
      invariant src[..] == image
      invariant FilledUpTo(dest[..], image, srcRows, srcCols, destRows, destCols, next)
    {
      var xi := 0;
      while xi < destCols
        invariant 0 <= xi <= destCols && next == yi * destCols + xi && next <= dest.Length
        invariant src[..] == image
        invariant FilledUpTo(dest[..], image, srcRows, srcCols, destRows, destCols, next)
      {
        RowMajorInBounds(xi, yi, destCols, destRows);
        ghost var before := dest[..];
        var out := ResampleCell(src, adj, srcRows, srcCols, destRows, destCols, muX, muY, xi, yi);
        SetPoint(dest, destRows, destCols, xi, yi, out);
        FilledOneMore(before, dest[..], image, srcRows, srcCols, destRows, destCols, xi, yi, next, out);
        xi := xi + 1;
        next := next + 1;
      }
      NextRow(yi, destCols);
      yi := yi + 1;
    }
    assert FilledUpTo(dest[..], image, srcRows, srcCols, destRows, destCols, dest.Length);
  }

  /** The first `next` cells of the output hold their resampled values. */
  ghost predicate FilledUpTo(d: seq<real>, image: seq<real>, srcRows: nat, srcCols: nat,
                             destRows: nat, destCols: nat, next: nat)
    requires ResampleDims(srcRows, srcCols, destRows, destCols) && |image| == srcRows * srcCols
    requires |d| == destRows * destCols && next <= |d|
  {
    forall k :: 0 <= k < next ==> d[k] == UpsampledCell(image, srcRows, srcCols, destRows, destCols, k)
  }

  /** Writing the value resampled at (xi, yi) into its cell `next` extends
      the filled prefix by one. */
  lemma FilledOneMore(before: seq<real>, after: seq<real>, image: seq<real>, srcRows: nat, srcCols: nat,
                      destRows: nat, destCols: nat, xi: nat, yi: nat, next: nat, out: real)
    requires ResampleDims(srcRows, srcCols, destRows, destCols) && |image| == srcRows * srcCols
    requires xi < destCols && yi < destRows && next == yi * destCols + xi
    requires |before| == destRows * destCols && next < |before|
    requires FilledUpTo(before, image, srcRows, srcCols, destRows, destCols, next)
    requires after == before[next := out]
    requires out == UpsampledAt(image, srcRows, srcCols, destRows, destCols, xi, yi)
    ensures FilledUpTo(after, image, srcRows, srcCols, destRows, destCols, next + 1)
  {
    UpsampledCellAt(image, srcRows, srcCols, destRows, destCols, xi, yi);
  }

  /** The loop body of `interpolate_image` for one destination cell: the
      neighbourhood goes through the scratch buffer, the blend is returned. */
  method ResampleCell(src: array<real>, adj: array<real>, srcRows: nat, srcCols: nat,
                      destRows: nat, destCols: nat, muX: real, muY: real, xi: nat, yi: nat)
    returns (out: real)
    requires ResampleDims(srcRows, srcCols, destRows, destCols) && src.Length == srcRows * srcCols
    requires muX == (srcCols as real - 1.0) / (destCols as real - 1.0)
    requires muY == (srcRows as real - 1.0) / (destRows as real - 1.0)
    requires xi < destCols && yi < destRows
    requires adj.Length == 4 && adj != src
    modifies adj
    ensures out == UpsampledAt(src[..], srcRows, srcCols, destRows, destCols, xi, yi)
  {
    var x := xi as real * muX;
    var y := yi as real * muY;
    UpsampledAtCoordinates(src[..], srcRows, srcCols, destRows, destCols, xi, yi, x, y);
    GetAdjacents2D(src, adj, srcRows, srcCols, x.Floor, y.Floor);
    out := BilinearInterpolate(adj[..], x - x.Floor as real, y - y.Floor as real);
  }

  /** The resampled value in terms of the two source coordinates. */
  lemma UpsampledAtCoordinates(src: seq<real>, srcRows: nat, srcCols: nat, destRows: nat, destCols: nat,
                               xi: nat, yi: nat, x: real, y: real)
    requires ResampleDims(srcRows, srcCols, destRows, destCols) && |src| == srcRows * srcCols
    requires xi < destCols && yi < destRows
    requires x == xi as real * ((srcCols as real - 1.0) / (destCols as real - 1.0))
    requires y == yi as real * ((srcRows as real - 1.0) / (destRows as real - 1.0))
    ensures 0 <= x.Floor && x.Floor + 1 <= Int8Max && 0 <= y.Floor && y.Floor + 1 <= Int8Max
    ensures UpsampledAt(src, srcRows, srcCols, destRows, destCols, xi, yi)
         == BilinearInterpolate(Adjacents(src, srcRows, srcCols, x.Floor, y.Floor),
                                x - x.Floor as real, y - y.Floor as real)
  {
    assert x == SourceCoordinate(xi, srcCols, destCols) && y == SourceCoordinate(yi, srcRows, destRows);
    FloorBelowLast(x, srcCols);
    FloorBelowLast(y, srcRows);
  }

  /** A coordinate in [0, n - 1] truncates to a cell whose right or lower
      neighbour is still addressable. */
  lemma FloorBelowLast(c: real, n: nat)
    requires 1 <= n <= Int8Max && 0.0 <= c <= (n - 1) as real
    ensures 0 <= c.Floor && c.Floor + 1 <= Int8Max
  {
  }

  /** The output cell at (xi, yi) is the value resampled there. */
  lemma UpsampledCellAt(src: seq<real>, srcRows: nat, srcCols: nat, destRows: nat, destCols: nat,
                        xi: nat, yi: nat)
    requires ResampleDims(srcRows, srcCols, destRows, destCols) && |src| == srcRows * srcCols
    requires xi < destCols && yi < destRows
    ensures yi * destCols + xi < destRows * destCols
    ensures UpsampledCell(src, srcRows, srcCols, destRows, destCols, yi * destCols + xi)
         == UpsampledAt(src, srcRows, srcCols, destRows, destCols, xi, yi)
  {
    RowMajor(xi, yi, destCols);
    RowMajorInBounds(xi, yi, destCols, destRows);
  }

  /** Where a destination cell lands exactly on source point (i, j), the
      source sample is reproduced exactly. */
  lemma UpsampledOnGridPoint(src: seq<real>, srcRows: nat, srcCols: nat, destRows: nat, destCols: nat,
                             xi: nat, yi: nat, i: nat, j: nat, k: nat)
    requires ResampleDims(srcRows, srcCols, destRows, destCols) && |src| == srcRows * srcCols
    requires xi < destCols && yi < destRows
    requires SourceCoordinate(xi, srcCols, destCols) == i as real
    requires SourceCoordinate(yi, srcRows, destRows) == j as real
    requires k == j * srcCols + i
    ensures i < srcCols && j < srcRows
    ensures k < |src|
    ensures UpsampledAt(src, srcRows, srcCols, destRows, destCols, xi, yi) == src[k]
  {
    var x := SourceCoordinate(xi, srcCols, destCols);
    var y := SourceCoordinate(yi, srcRows, destRows);
    assert x.Floor == i && y.Floor == j;
    RowMajorInBounds(i, j, srcCols, srcRows);
    var taps := Adjacents(src, srcRows, srcCols, i, j);
    assert taps[0] == GetPoint(src, srcRows, srcCols, i, j);
  }

  /** The first destination cell is the first source sample and the last
      destination cell is the last source sample. */
  lemma UpsampledCorners(src: seq<real>, srcRows: nat, srcCols: nat, destRows: nat, destCols: nat)
    requires ResampleDims(srcRows, srcCols, destRows, destCols) && |src| == srcRows * srcCols
    ensures |src| > 0
    ensures UpsampledAt(src, srcRows, srcCols, destRows, destCols, 0, 0) == src[0]
    ensures UpsampledAt(src, srcRows, srcCols, destRows, destCols, destCols - 1, destRows - 1)
         == src[|src| - 1]
  {
    UpsampledFirst(src, srcRows, srcCols, destRows, destCols);
    UpsampledLast(src, srcRows, srcCols, destRows, destCols);
  }

  lemma UpsampledFirst(src: seq<real>, srcRows: nat, srcCols: nat, destRows: nat, destCols: nat)
    requires ResampleDims(srcRows, srcCols, destRows, destCols) && |src| == srcRows * srcCols
    ensures |src| > 0
    ensures UpsampledAt(src, srcRows, srcCols, destRows, destCols, 0, 0) == src[0]
  {
    RowMajorInBounds(0, 0, srcCols, srcRows);
    UpsampledOnGridPoint(src, srcRows, srcCols, destRows, destCols, 0, 0, 0, 0, 0);
  }

  lemma UpsampledLast(src: seq<real>, srcRows: nat, srcCols: nat, destRows: nat, destCols: nat)
    requires ResampleDims(srcRows, srcCols, destRows, destCols) && |src| == srcRows * srcCols
    ensures |src| > 0
    ensures UpsampledAt(src, srcRows, srcCols, destRows, destCols, destCols - 1, destRows - 1)
         == src[|src| - 1]
  {
    RowMajorInBounds(srcCols - 1, srcRows - 1, srcCols, srcRows);
    NextRow(srcRows - 1, srcCols);
    UpsampledOnGridPoint(src, srcRows, srcCols, destRows, destCols,
                         destCols - 1, destRows - 1, srcCols - 1, srcRows - 1, |src| - 1);
  }

  /** With an integer upscale factor (dest - 1 == factor * (src - 1) on both
      axes) every factor-th destination cell is a source sample. */
  lemma UpsampledAligned(src: seq<real>, srcRows: nat, srcCols: nat, destRows: nat, destCols: nat,
                         factor: nat, i: nat, j: nat, xi: nat, yi: nat, k: nat)
    requires ResampleDims(srcRows, srcCols, destRows, destCols) && |src| == srcRows * srcCols
    requires destCols - 1 == factor * (srcCols - 1) && destRows - 1 == factor * (srcRows - 1)
    requires i < srcCols && j < srcRows && xi == factor * i && yi == factor * j
    requires k == j * srcCols + i
    ensures xi < destCols && yi < destRows
    ensures k < |src|
    ensures UpsampledAt(src, srcRows, srcCols, destRows, destCols, xi, yi) == src[k]
  {
    assert xi < destCols && SourceCoordinate(xi, srcCols, destCols) == i as real by {
      AlignedCoordinate(factor, i, xi, srcCols, destCols);
    }
    assert yi < destRows && SourceCoordinate(yi, srcRows, destRows) == j as real by {
      AlignedCoordinate(factor, j, yi, srcRows, destRows);
    }
    UpsampledOnGridPoint(src, srcRows, srcCols, destRows, destCols, xi, yi, i, j, k);
  }

  lemma AlignedCoordinate(factor: nat, i: nat, xi: nat, src: nat, dest: nat)
    requires 1 <= src && 2 <= dest && dest - 1 == factor * (src - 1) && i < src && xi == factor * i
    ensures xi < dest
    ensures SourceCoordinate(xi, src, dest) == i as real
  {
    MulLeMonotone(factor, i, src - 1);
    var f, n := factor as real, (src - 1) as real;
    var d := dest as real - 1.0;
    assert d == f * n;
    var mu := (src as real - 1.0) / d;
    assert mu * d == n;
    assert mu * f == 1.0 by {
      assert (mu * f) * n == mu * (f * n);
      if mu * f != 1.0 {
        assert (mu * f - 1.0) * n == 0.0;
      }
    }
    assert xi as real == f * i as real;
    assert (f * i as real) * mu == i as real * (mu * f);
  }

  /** Every resampled value lies within any bounds that hold for the whole
      source grid: bilinear upscaling never overshoots. */
  lemma UpsampledWithin(src: seq<real>, srcRows: nat, srcCols: nat, destRows: nat, destCols: nat,
                        xi: nat, yi: nat, lo: real, hi: real)
    requires ResampleDims(srcRows, srcCols, destRows, destCols) && |src| == srcRows * srcCols
    requires xi < destCols && yi < destRows
    requires forall k :: 0 <= k < |src| ==> lo <= src[k] <= hi
    ensures lo <= UpsampledAt(src, srcRows, srcCols, destRows, destCols, xi, yi) <= hi
  {
    var x := SourceCoordinate(xi, srcCols, destCols);
    var y := SourceCoordinate(yi, srcRows, destRows);
    var taps := Adjacents(src, srcRows, srcCols, x.Floor, y.Floor);
    forall k | 0 <= k < 4 ensures lo <= taps[k] <= hi {
      assert taps[k] in src;
    }
    BilinearWithin(taps, x - x.Floor as real, y - y.Floor as real, lo, hi);
  }

  /** The fraction split off a non-negative coordinate lies in [0, 1). */
  lemma FractionInUnit(c: real)
    requires c >= 0.0
    ensures 0 <= c.Floor && 0.0 <= c - c.Floor as real < 1.0
  {
  }

  /** Worked example: [[0, 10], [20, 30]] resampled to 3x3 keeps its
      corners, puts 5, 10, 20, 25 on the edge midpoints (top, left, right,
      bottom) and 15 in the centre. */
  lemma TwoByTwoToThreeByThree()
    ensures var s := [0.0, 10.0, 20.0, 30.0];
      && UpsampledAt(s, 2, 2, 3, 3, 0, 0) == 0.0
      && UpsampledAt(s, 2, 2, 3, 3, 1, 0) == 5.0
      && UpsampledAt(s, 2, 2, 3, 3, 2, 0) == 10.0
      && UpsampledAt(s, 2, 2, 3, 3, 0, 1) == 10.0
      && UpsampledAt(s, 2, 2, 3, 3, 1, 1) == 15.0
      && UpsampledAt(s, 2, 2, 3, 3, 2, 1) == 20.0
      && UpsampledAt(s, 2, 2, 3, 3, 0, 2) == 20.0
      && UpsampledAt(s, 2, 2, 3, 3, 1, 2) == 25.0
      && UpsampledAt(s, 2, 2, 3, 3, 2, 2) == 30.0
  {
    var s := [0.0, 10.0, 20.0, 30.0];
    assert SourceCoordinate(0, 2, 3) == 0.0;
    assert SourceCoordinate(1, 2, 3) == 0.5;
    assert SourceCoordinate(2, 2, 3) == 1.0;
    assert 0.5.Floor == 0 && 1.0.Floor == 1 && 0.0.Floor == 0;
    assert Adjacents(s, 2, 2, 0, 0) == [0.0, 10.0, 20.0, 30.0];
    assert Adjacents(s, 2, 2, 1, 0) == [10.0, 10.0, 30.0, 30.0];
    assert Adjacents(s, 2, 2, 0, 1) == [20.0, 30.0, 20.0, 30.0];
    assert Adjacents(s, 2, 2, 1, 1) == [30.0, 30.0, 30.0, 30.0];
  }
}
