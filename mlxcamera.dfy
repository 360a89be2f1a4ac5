/** The legacy MLX90640 camera view: raw 32 x 24 temperatures, a range
    scanned from the frame and the piecewise-linear R/G/B colouring. */
module MlxCamera {
  import opened Arith
  import opened Images
  import opened ColorMap
  import opened Display
  import opened Wrappers

  const PixelCount: nat := 768
  const FrameWidth: nat := 32
  const FrameHeight: nat := 24

  /** The range `setTempScale` leaves: the scan starts at 255 for the
      minimum and 0 for the maximum, so `lo` is the smaller of 255 and the
      coldest pixel and `hi` the larger of 0 and the hottest pixel. */
  predicate IsScaleOf(pixels: seq<real>, lo: real, hi: real)
  {
    && lo <= 255.0 && (forall i :: 0 <= i < |pixels| ==> lo <= pixels[i])
    && (lo == 255.0 || exists i :: 0 <= i < |pixels| && pixels[i] == lo)
    && hi >= 0.0 && (forall i :: 0 <= i < |pixels| ==> pixels[i] <= hi)
    && (hi == 0.0 || exists i :: 0 <= i < |pixels| && pixels[i] == hi)
  }

  /** The scanned range of a non-empty frame is ordered and holds every pixel. */
  lemma ScaleOrdered(pixels: seq<real>, lo: real, hi: real)
    requires |pixels| > 0 && IsScaleOf(pixels, lo, hi)
    ensures lo <= hi
  {
    assert lo <= pixels[0] <= hi;
  }

  /** The scan determines the range: two ranges that fit the same frame are equal. */
  lemma ScaleUnique(pixels: seq<real>, lo: real, hi: real, lo': real, hi': real)
    requires IsScaleOf(pixels, lo, hi) && IsScaleOf(pixels, lo', hi')
    ensures lo == lo' && hi == hi'
  {
  }

  /** A flat frame at a temperature in [0, 255] scans to a range of zero
      width, which collapses every breakpoint onto that temperature. The
      red ramp then divides by c - b = 0. */
  lemma FlatFrameCollapses(pixels: seq<real>, t: real, lo: real, hi: real)
    requires |pixels| > 0 && forall i :: 0 <= i < |pixels| ==> pixels[i] == t
    requires 0.0 <= t <= 255.0 && IsScaleOf(pixels, lo, hi)
    ensures lo == t && hi == t
    ensures Breakpoints(lo, hi) == Cutoffs(t, t, t, t)
    ensures !(lo < Breakpoints(lo, hi).a < Breakpoints(lo, hi).b < Breakpoints(lo, hi).c
              < Breakpoints(lo, hi).d < hi)
    ensures LegacyColorAsWritten(t, lo, hi, Breakpoints(lo, hi)).None?
  {
    assert lo <= pixels[0] <= hi;
  }

  /** Before the first `setTempScale` the breakpoints are all 0, so the red
      ramp divides by zero and no pixel has a colour, whatever the range. */
  lemma InitialBreakpointsHaveNoColor(val: real, minTemp: real, maxTemp: real)
    ensures LegacyColorAsWritten(val, minTemp, maxTemp, Cutoffs(0.0, 0.0, 0.0, 0.0)).None?
  {
  }

  /** After `setTempScale` on a frame that is not flat, every pixel has a
      colour, and it is the one the guarded colouring gives. */
  lemma ScaledFrameColored(pixels: seq<real>, lo: real, hi: real, val: real)
    requires |pixels| > 0 && IsScaleOf(pixels, lo, hi)
    requires exists i, j :: 0 <= i < |pixels| && 0 <= j < |pixels| && pixels[i] != pixels[j]
    ensures LegacyColorAsWritten(val, lo, hi, Breakpoints(lo, hi)) == Some(GuardedLegacyColor(val, lo, hi, Breakpoints(lo, hi)))
  {
    var i, j :| 0 <= i < |pixels| && 0 <= j < |pixels| && pixels[i] != pixels[j];
    assert lo <= pixels[i] <= hi && lo <= pixels[j] <= hi;
  }

  /** Display square `k` of the camera view: column k % 32 and row k / 32,
      7 pixels apart with an 8-pixel margin, coloured from the mirrored pixel
      by `getColor` as written (no colour where it divides by zero). */
  function LegacyCell(pixels: seq<real>, minTemp: real, maxTemp: real, k: Cutoffs, i: nat): Square<Option<Rgb>>
    requires |pixels| == PixelCount && i < PixelCount
  {
    var x, y := i % FrameWidth, i / FrameWidth;
    Square(8 + x * 7, 8 + y * 7, 7, LegacyColorAsWritten(pixels[MirroredIndex(FrameWidth, FrameHeight, x, y)], minTemp, maxTemp, k))
  }

  /** The squares `drawImage` sends, row by row. */
  function LegacyCells(pixels: seq<real>, minTemp: real, maxTemp: real, k: Cutoffs): (cells: seq<Square<Option<Rgb>>>)
    requires |pixels| == PixelCount
    ensures |cells| == PixelCount
  {
    seq(PixelCount, i requires 0 <= i < PixelCount => LegacyCell(pixels, minTemp, maxTemp, k, i))
  }

  /** The square for column x of row y shows pixel (31 - x) + 32 y: in
      bounds, and each row mirrored. */
  lemma LegacyCellAt(pixels: seq<real>, minTemp: real, maxTemp: real, k: Cutoffs, x: nat, y: nat)
    requires |pixels| == PixelCount && x < FrameWidth && y < FrameHeight
    ensures y * 32 + x < PixelCount && (31 - x) + y * 32 < PixelCount
    ensures LegacyCells(pixels, minTemp, maxTemp, k)[y * 32 + x]
         == Square(8 + x * 7, 8 + y * 7, 7, LegacyColorAsWritten(pixels[(31 - x) + y * 32], minTemp, maxTemp, k))
  {
    RowMajorInBounds(x, y, FrameWidth, FrameHeight);
    LegacyCellDecodes(pixels, minTemp, maxTemp, k, x, y, y * 32 + x);
  }

  lemma LegacyCellDecodes(pixels: seq<real>, minTemp: real, maxTemp: real, k: Cutoffs, x: nat, y: nat, i: nat)
    requires |pixels| == PixelCount && x < FrameWidth && y < FrameHeight
    requires i == y * 32 + x && i < PixelCount
    ensures (31 - x) + y * 32 < PixelCount
    ensures LegacyCell(pixels, minTemp, maxTemp, k, i)
         == Square(8 + x * 7, 8 + y * 7, 7, LegacyColorAsWritten(pixels[(31 - x) + y * 32], minTemp, maxTemp, k))
  {
    RowMajor(x, y, FrameWidth);
    var j := MirroredIndex(FrameWidth, FrameHeight, x, y);
  }

  class MLXCamera {
    const pixels: array<real>
    var minTemp: real
    var maxTemp: real
    var a: real
    var b: real
    var c: real
    var d: real

    ghost predicate Valid()
      reads this
    {
      pixels.Length == PixelCount
    }

    /** Fills the frame with the given stand-in values (the source draws
        them from `random(0, 41)`, so they are integers 0 to 40); the range
        starts at 20 to 40 and the breakpoints at 0. */
    constructor (noise: seq<int>)
      requires |noise| == PixelCount && forall i :: 0 <= i < |noise| ==> 0 <= noise[i] < 41
      ensures Valid() && fresh(pixels)
      ensures forall i :: 0 <= i < PixelCount ==> pixels[i] == noise[i] as real
      ensures minTemp == 20.0 && maxTemp == 40.0
      ensures a == 0.0 && b == 0.0 && c == 0.0 && d == 0.0
    {
      pixels := new real[PixelCount];
      minTemp, maxTemp := 20.0, 40.0;
      a, b, c, d := 0.0, 0.0, 0.0, 0.0;
      new;
      var i := 0;
      while i < PixelCount
        invariant 0 <= i <= PixelCount
        invariant forall k :: 0 <= k < i ==> pixels[k] == noise[k] as real
        invariant minTemp == 20.0 && maxTemp == 40.0
        invariant a == 0.0 && b == 0.0 && c == 0.0 && d == 0.0
      {
        pixels[i] := noise[i] as real;
        i := i + 1;
      }
    }

    /** `setAbcd`: the breakpoints of the current range. */
    method SetAbcd()
      modifies this`a, this`b, this`c, this`d
      ensures Cutoffs(a, b, c, d) == Breakpoints(minTemp, maxTemp)
    {
      var k := Breakpoints(minTemp, maxTemp);
      a, b, c, d := k.a, k.b, k.c, k.d;
    }

    /** `setTempScale`: scans the frame for its range, starting from 255 and
        0, and recomputes the breakpoints. */
    method SetTempScale()
      requires Valid()
      modifies this`minTemp, this`maxTemp, this`a, this`b, this`c, this`d
      ensures IsScaleOf(pixels[..], minTemp, maxTemp) && minTemp <= maxTemp
      ensures Cutoffs(a, b, c, d) == Breakpoints(minTemp, maxTemp)
    {
      minTemp := 255.0;
      maxTemp := 0.0;
      var i := 0;
      while i < PixelCount
        invariant 0 <= i <= PixelCount
        invariant IsScaleOf(pixels[..i], minTemp, maxTemp)
      {
        minTemp := Min(minTemp, pixels[i]);
        maxTemp := Max(maxTemp, pixels[i]);
        i := i + 1;
        assert pixels[..i] == pixels[..i - 1] + [pixels[i - 1]];
      }
      assert pixels[..] == pixels[..PixelCount];
      ScaleOrdered(pixels[..], minTemp, maxTemp);
      SetAbcd();
    }

    /** `readImage`: the sensor read is switched off in the source, so only
        the range is recomputed. */
    method ReadImage()
      requires Valid()
      modifies this`minTemp, this`maxTemp, this`a, this`b, this`c, this`d
      ensures IsScaleOf(pixels[..], minTemp, maxTemp) && minTemp <= maxTemp
      ensures Cutoffs(a, b, c, d) == Breakpoints(minTemp, maxTemp)
    {
      SetTempScale();
    }

    /** `drawImage`: one 7 x 7 square per pixel, rows top to bottom, each row
        mirrored; nothing changes. */
    method DrawImage() returns (cells: seq<Square<Option<Rgb>>>)
      requires Valid()
      ensures cells == LegacyCells(pixels[..], minTemp, maxTemp, Cutoffs(a, b, c, d))
    {
      cells := [];
      var y := 0;
      while y < FrameHeight
        invariant 0 <= y <= FrameHeight
        invariant |cells| == y * FrameWidth
        invariant forall i :: 0 <= i < |cells| ==>
          cells[i] == LegacyCell(pixels[..], minTemp, maxTemp, Cutoffs(a, b, c, d), i)
      {
        var x := 0;
        while x < FrameWidth
          invariant 0 <= x <= FrameWidth
          invariant |cells| == y * FrameWidth + x
          invariant forall i :: 0 <= i < |cells| ==>
            cells[i] == LegacyCell(pixels[..], minTemp, maxTemp, Cutoffs(a, b, c, d), i)
        {
          LegacyCellDecodes(pixels[..], minTemp, maxTemp, Cutoffs(a, b, c, d), x, y, |cells|);
          var color := LegacyColorAsWritten(pixels[(31 - x) + (y * 32)], minTemp, maxTemp, Cutoffs(a, b, c, d));
          cells := cells + [Square(8 + x * 7, 8 + y * 7, 7, color)];
          x := x + 1;
        }
        y := y + 1;
      }
      assert forall i :: 0 <= i < |cells| ==>
        cells[i] == LegacyCells(pixels[..], minTemp, maxTemp, Cutoffs(a, b, c, d))[i];
    }

    /** The temperature shown below the view: the mean of the central 2 x 2
        block of the frame (rows 11 and 12, columns 15 and 16). */
    function CenterTemperature(): (t: real)
      requires Valid()
      reads this, pixels
      ensures var block := CentreBlock(FrameWidth, FrameHeight);
        t * 4.0 == pixels[block[0]] + pixels[block[1]] + pixels[block[2]] + pixels[block[3]]
    {
      SensorCentreBlock();
      (pixels[383 - 16] + pixels[383 - 15] + pixels[384 + 15] + pixels[384 + 16]) / 4.0
    }
  }
}
