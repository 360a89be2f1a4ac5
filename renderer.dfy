/** The sensor renderer: per-pixel temporal denoising, the temperature
    range (fixed or following the frame), optional upscaling and the
    mirrored heat-map drawing of a 32 x 24 thermal frame. */
module Renderer {
  import opened Arith
  import opened Wrappers
  import opened Images
  import opened Filters
  import opened ColorMap
  import opened Display
  import Interpolation

  /** The upscaling choice, cycled by the user. */
  datatype InterpolationType = NoInterpolation | Linear | Cubic

  /** Position of a mode in the cycle. */
  function Ordinal(t: InterpolationType): nat
  {
    match t
    case NoInterpolation => 0
    case Linear => 1
    case Cubic => 2
  }

  /** `operator++`: the next mode in the cycle, wrapping from cubic back to none. */
  function Next(t: InterpolationType): (r: InterpolationType)
    ensures Ordinal(r) == (Ordinal(t) + 1) % 3
  {
    match t
    case NoInterpolation => Linear
    case Linear => Cubic
    case Cubic => NoInterpolation
  }

  /** Three steps of the cycle restore the mode, and no single step keeps it. */
  lemma NextCycles(t: InterpolationType)
    ensures Next(Next(Next(t))) == t
    ensures Next(t) != t
  {
  }

  /** The post-increment operator updates the variable it is applied to and
      returns that same, updated value. */
  method PostIncrement(t: InterpolationType) returns (updated: InterpolationType, returned: InterpolationType)
    ensures updated == Next(t)
    ensures Ordinal(updated) == (Ordinal(t) + 1) % 3
    ensures returned == updated
  {
    updated := Next(t);
    returned := updated;
  }

  const SensorWidth: nat := 32
  const SensorHeight: nat := 24
  const UpScaleFactor: nat := 3
  const UpScaledWidth: nat := (SensorWidth - 1) * UpScaleFactor + 1
  const UpScaledHeight: nat := (SensorHeight - 1) * UpScaleFactor + 1
  const DefaultMinTemp: real := 20.0
  const DefaultMaxTemp: real := 45.0
  const DenoisingSmoothingFactor: real := 0.4

  /** The upscaled grid has 94 x 70 cells, and every third of them on both
      axes sits on a sensor point. */
  lemma UpScaledGeometry()
    ensures UpScaledWidth == 94 && UpScaledHeight == 70
    ensures UpScaledWidth - 1 == UpScaleFactor * (SensorWidth - 1)
    ensures UpScaledHeight - 1 == UpScaleFactor * (SensorHeight - 1)
  {
  }

  /** Resampling the sensor grid onto the upscaled grid with corner-matching
      bilinear interpolation reproduces every sensor sample at every third cell. */
  lemma SensorGridAligned(src: seq<real>, i: nat, j: nat)
    requires |src| == SensorWidth * SensorHeight && i < SensorWidth && j < SensorHeight
    ensures UpScaleFactor * i < UpScaledWidth && UpScaleFactor * j < UpScaledHeight
    ensures j * SensorWidth + i < |src|
    ensures Interpolation.UpsampledAt(src, SensorHeight, SensorWidth, UpScaledHeight, UpScaledWidth,
                                      UpScaleFactor * i, UpScaleFactor * j)
         == src[j * SensorWidth + i]
  {
    Interpolation.UpsampledAligned(src, SensorHeight, SensorWidth, UpScaledHeight, UpScaledWidth,
                                   UpScaleFactor, i, j, UpScaleFactor * i, UpScaleFactor * j, j * SensorWidth + i);
  }

  /** One pixel of `denoiseRawPixels`: the exponential filter with factor
      0.4, where a not-a-number on either side propagates. The result lies
      between the old value and the measurement. */
  function DenoisedSample(measured: Sample, last: Sample): (r: Sample)
    ensures r.Num? <==> measured.Num? && last.Num?
    ensures r.Num? ==> r.value - measured.value
                       == (1.0 - DenoisingSmoothingFactor) * (last.value - measured.value)
    ensures r.Num? ==> Min(measured.value, last.value) <= r.value <= Max(measured.value, last.value)
  {
    if measured.Num? && last.Num? then
      FilterBetween(measured.value, last.value, DenoisingSmoothingFactor);
      Num(FilterExponential(measured.value, last.value, DenoisingSmoothingFactor))
    else NaN
  }

  /** The filtered frame after `denoiseRawPixels`: each pixel from its own
      measurement and its own previous value. */
  function Denoised(measured: seq<Sample>, filtered: seq<Sample>): (r: seq<Sample>)
    requires |measured| >= |filtered|
    ensures |r| == |filtered|
  {
    seq(|filtered|, i requires 0 <= i < |filtered| => DenoisedSample(measured[i], filtered[i]))
  }

  /** IEEE `<`: false as soon as either side is not a number. */
  predicate Less(x: Sample, y: Sample)
  {
    x.Num? && y.Num? && x.value < y.value
  }

  predicate AllNumbers(s: seq<Sample>)
  {
    forall i :: 0 <= i < |s| ==> s[i].Num?
  }

  datatype Extrema = Extrema(smallest: Sample, largest: Sample)

  /** `std::minmax_element` as a left-to-right scan with `<`: the first
      smallest and the last largest element. Both results are elements of
      the sequence. */
  function MinMaxElement(s: seq<Sample>): (e: Extrema)
    requires |s| > 0
    ensures e.smallest in s && e.largest in s
  {
    if |s| == 1 then Extrema(s[0], s[0])
    else
      var e := MinMaxElement(s[..|s| - 1]);
      var x := s[|s| - 1];
      Extrema(if Less(x, e.smallest) then x else e.smallest,
              if Less(x, e.largest) then e.largest else x)
  }

  /** A numeric smallest element is at most every numeric element. */
  lemma {:induction false} SmallestIsLowest(s: seq<Sample>)
    requires |s| > 0
    ensures MinMaxElement(s).smallest.Num? ==>
      forall i :: 0 <= i < |s| && s[i].Num? ==> MinMaxElement(s).smallest.value <= s[i].value
  {
    if |s| > 1 {
      SmallestIsLowest(s[..|s| - 1]);
      assert forall i :: 0 <= i < |s| - 1 ==> s[i] == s[..|s| - 1][i];
    }
  }

  /** Without not-a-number pixels both extrema are numbers and bound the frame. */
  lemma {:induction false} ExtremaBound(s: seq<Sample>)
    requires |s| > 0 && AllNumbers(s)
    ensures MinMaxElement(s).smallest.Num? && MinMaxElement(s).largest.Num?
    ensures forall i :: 0 <= i < |s| ==>
      MinMaxElement(s).smallest.value <= s[i].value <= MinMaxElement(s).largest.value
  {
    SmallestIsLowest(s);
    if |s| > 1 {
      ExtremaBound(s[..|s| - 1]);
      assert forall i :: 0 <= i < |s| - 1 ==> s[i] == s[..|s| - 1][i];
    }
  }

  /** A not-a-number first pixel is never replaced as the smallest element. */
  lemma {:induction false} LeadingNaNStays(s: seq<Sample>)
    requires |s| > 0 && s[0] == NaN
    ensures MinMaxElement(s).smallest == NaN
  {
    if |s| > 1 {
      LeadingNaNStays(s[..|s| - 1]);
    }
  }

  /** When both extrema are numbers they are ordered. */
  lemma ExtremaOrdered(s: seq<Sample>)
    requires |s| > 0
    ensures MinMaxElement(s).smallest.Num? && MinMaxElement(s).largest.Num? ==>
      MinMaxElement(s).smallest.value <= MinMaxElement(s).largest.value
  {
    SmallestIsLowest(s);
  }

  datatype TempRange = TempRange(lo: real, hi: real)

  /** The range after `setTempScale`. A fixed range is kept. A dynamic range
      becomes the frame's extrema unless either is not a number, in which
      case the old range is kept: the new bounds are then pixel values, and
      for a frame without not-a-number pixels they are exactly its smallest
      and largest values. A frame whose first or last pixel is not a number
      keeps the old range. An ordered range stays ordered. */
  function ScaledRange(fixed: bool, minTemp: real, maxTemp: real, pixels: seq<Sample>): (r: TempRange)
    requires |pixels| > 0
    ensures fixed ==> r == TempRange(minTemp, maxTemp)
    ensures minTemp <= maxTemp ==> r.lo <= r.hi
    ensures !fixed && MinMaxElement(pixels).smallest.Num? && MinMaxElement(pixels).largest.Num? ==>
      Num(r.lo) in pixels && Num(r.hi) in pixels
    ensures !(MinMaxElement(pixels).smallest.Num? && MinMaxElement(pixels).largest.Num?) ==>
      r == TempRange(minTemp, maxTemp)
    ensures !fixed && AllNumbers(pixels) ==>
      && Num(r.lo) in pixels && Num(r.hi) in pixels
      && forall i :: 0 <= i < |pixels| ==> r.lo <= pixels[i].value <= r.hi
    ensures pixels[0] == NaN || pixels[|pixels| - 1] == NaN ==> r == TempRange(minTemp, maxTemp)
  {
    ExtremaOrdered(pixels);
    var e := MinMaxElement(pixels);
    assert AllNumbers(pixels) ==>
      && e.smallest.Num? && e.largest.Num?
      && forall i :: 0 <= i < |pixels| ==> e.smallest.value <= pixels[i].value <= e.largest.value
    by {
      if AllNumbers(pixels) { ExtremaBound(pixels); }
    }
    assert pixels[0] == NaN ==> e.smallest == NaN by {
      if pixels[0] == NaN { LeadingNaNStays(pixels); }
    }
    assert pixels[|pixels| - 1] == NaN ==> e.largest == NaN by {
      if pixels[|pixels| - 1] == NaN { TrailingNaNStays(pixels); }
    }
    if fixed then TempRange(minTemp, maxTemp)
    else if e.smallest.Num? && e.largest.Num? then TempRange(e.smallest.value, e.largest.value)
      else TempRange(minTemp, maxTemp)
  }

  /** A not-a-number last pixel is reported as the largest element: nothing
      compares greater than it, so the scan keeps it. */
  lemma TrailingNaNStays(s: seq<Sample>)
    requires |s| > 0 && s[|s| - 1] == NaN
    ensures MinMaxElement(s).largest == NaN
  {
  }

  /** A dynamic range over a flat frame collapses onto the frame's value. */
  lemma {:induction false} FlatFrameRange(minTemp: real, maxTemp: real, pixels: seq<Sample>, t: real)
    requires |pixels| > 0 && forall i :: 0 <= i < |pixels| ==> pixels[i] == Num(t)
    ensures ScaledRange(false, minTemp, maxTemp, pixels) == TempRange(t, t)
  {
    FlatExtrema(pixels, t);
  }

  lemma {:induction false} FlatExtrema(pixels: seq<Sample>, t: real)
    requires |pixels| > 0 && forall i :: 0 <= i < |pixels| ==> pixels[i] == Num(t)
    ensures MinMaxElement(pixels) == Extrema(Num(t), Num(t))
  {
    if |pixels| > 1 {
      FlatExtrema(pixels[..|pixels| - 1], t);
    }
  }

  /** The colour `drawImage` fills a square with: `getFalseColor` as written.
      A number gets the code's colour, which on a range of zero width is
      the first or last stop below or above it and undefined (no colour) on
      it; not-a-number, whose conversion to a stop index is undefined, gets
      no colour. Wherever the range is proper the guarded heat map agrees. */
  function PixelColor(s: Sample, minTemp: real, maxTemp: real): (c: Option<Rgb>)
    ensures c.Some? <==> s.Num? && !(maxTemp == minTemp && s.value == minTemp)
    ensures s.Num? && maxTemp > minTemp ==> c == Some(FalseColor(s.value, minTemp, maxTemp))
    ensures s.Num? && maxTemp == minTemp && s.value > minTemp ==> c == Some(HeatmapStops[NumColors - 1])
    ensures s.Num? && maxTemp == minTemp && s.value < minTemp ==> c == Some(HeatmapStops[0])
  {
    if s.Num? then FalseColorAsWritten(s.value, minTemp, maxTemp) else None
  }

  /** The consequence the heat map does not guard against: on a flat frame
      in dynamic mode, every pixel is drawn with a zero-width range, which
      the code as written sends through 0 / 0, so no pixel has a colour. */
  lemma FlatFrameUndefinedColor(minTemp: real, maxTemp: real, pixels: seq<Sample>, t: real, i: nat)
    requires |pixels| > 0 && forall j :: 0 <= j < |pixels| ==> pixels[j] == Num(t)
    requires i < |pixels|
    ensures var r := ScaledRange(false, minTemp, maxTemp, pixels);
      r.lo == r.hi && PixelColor(pixels[i], r.lo, r.hi) == None
  {
    FlatFrameRange(minTemp, maxTemp, pixels, t);
  }

  /** A flat range can also survive from an earlier frame: a not-a-number
      first pixel keeps it, and a pixel above it is then drawn in the last
      stop, one below it in the first. */
  lemma KeptFlatRangeColors()
    ensures ScaledRange(false, 25.0, 25.0, [NaN, Num(27.0), Num(23.0)]) == TempRange(25.0, 25.0)
    ensures PixelColor(Num(27.0), 25.0, 25.0) == Some(HeatmapStops[NumColors - 1])
    ensures PixelColor(Num(23.0), 25.0, 25.0) == Some(HeatmapStops[0])
  {
  }

  /** The colour with the missing guard added: a number through the guarded
      heat map, not-a-number as no colour. */
  function GuardedPixelColor(s: Sample, minTemp: real, maxTemp: real): (c: Option<Rgb>)
    ensures c.Some? <==> s.Num?
    ensures maxTemp > minTemp ==> c == PixelColor(s, minTemp, maxTemp)
    ensures s.Num? && maxTemp <= minTemp ==> c == Some(HeatmapStops[0])
  {
    if s.Num? then Some(FalseColor(s.value, minTemp, maxTemp)) else None
  }

  /** With the guard in place a flat frame in dynamic mode is drawn in one
      colour, the lowest heat-map stop. */
  lemma FlatFrameColor(minTemp: real, maxTemp: real, pixels: seq<Sample>, t: real, i: nat)
    requires |pixels| > 0 && forall j :: 0 <= j < |pixels| ==> pixels[j] == Num(t)
    requires i < |pixels|
    ensures var r := ScaledRange(false, minTemp, maxTemp, pixels);
      GuardedPixelColor(pixels[i], r.lo, r.hi) == Some(HeatmapStops[0])
  {
    FlatFrameRange(minTemp, maxTemp, pixels, t);
  }

  /** Display cell `k` of a drawn image: the square for column k % width and
      row k / width, filled with the colour of the mirrored pixel. */
  function DrawnCell(pixels: seq<Sample>, width: nat, height: nat, scale: nat,
                     minTemp: real, maxTemp: real, k: nat): Square<Option<Rgb>>
    requires |pixels| == width * height && k < width * height
  {
    Interpolation.DivBelow(k, width, height);
    var x, y := k % width, k / width;
    Square(x * scale, 10 + y * scale, scale, PixelColor(pixels[MirroredIndex(width, height, x, y)], minTemp, maxTemp))
  }

  /** The squares `drawImage(image, scale)` sends, row by row. */
  function DrawnCells(pixels: seq<Sample>, width: nat, height: nat, scale: nat,
                      minTemp: real, maxTemp: real): (cells: seq<Square<Option<Rgb>>>)
    requires |pixels| == width * height
    ensures |cells| == width * height
  {
    seq(width * height, k requires 0 <= k < width * height =>
      DrawnCell(pixels, width, height, scale, minTemp, maxTemp, k))
  }

  /** The square for column x of row y is drawn `scale` pixels apart, 10
      pixels below the cursor, in the colour of the pixel at column
      width - 1 - x of row y: each row appears mirrored. */
  lemma DrawnCellAt(pixels: seq<Sample>, width: nat, height: nat, scale: nat,
                    minTemp: real, maxTemp: real, x: nat, y: nat)
    requires |pixels| == width * height && x < width && y < height
    ensures y * width + x < width * height
    ensures (width - 1 - x) + y * width < |pixels|
    ensures DrawnCells(pixels, width, height, scale, minTemp, maxTemp)[y * width + x]
         == Square(x * scale, 10 + y * scale, scale,
                   PixelColor(pixels[(width - 1 - x) + y * width], minTemp, maxTemp))
  {
    RowMajorInBounds(x, y, width, height);
    DrawnCellDecodes(pixels, width, height, scale, minTemp, maxTemp, x, y, y * width + x);
  }

  lemma DrawnCellDecodes(pixels: seq<Sample>, width: nat, height: nat, scale: nat,
                         minTemp: real, maxTemp: real, x: nat, y: nat, k: nat)
    requires |pixels| == width * height && x < width && y < height
    requires k == y * width + x && k < width * height
    ensures (width - 1 - x) + y * width < |pixels|
    ensures DrawnCell(pixels, width, height, scale, minTemp, maxTemp, k)
         == Square(x * scale, 10 + y * scale, scale,
                   PixelColor(pixels[(width - 1 - x) + y * width], minTemp, maxTemp))
  {
    RowMajor(x, y, width);
    assert k % width == x && k / width == y;
    var i := MirroredIndex(width, height, x, y);
  }

  /** Mirroring in the drawing: the square at column width - 1 - x shows
      the pixel at column x of the same row. */
  lemma DrawnRowMirrored(pixels: seq<Sample>, width: nat, height: nat, scale: nat,
                         minTemp: real, maxTemp: real, x: nat, y: nat)
    requires |pixels| == width * height && x < width && y < height
    ensures y * width + (width - 1 - x) < width * height && y * width + x < |pixels|
    ensures DrawnCells(pixels, width, height, scale, minTemp, maxTemp)[y * width + (width - 1 - x)].color
         == PixelColor(pixels[y * width + x], minTemp, maxTemp)
  {
    DrawnCellAt(pixels, width, height, scale, minTemp, maxTemp, width - 1 - x, y);
    RowMajorInBounds(x, y, width, height);
  }

  /** The two upscalers the renderer calls. Their bodies are not part of
      this model; the renderer receives them as a per-cell function. */
  datatype Resampling = Bilinear | Bicubic

  /** `interpolateImage`'s dispatch: bilinear for the linear mode, bicubic otherwise. */
  function ResamplingFor(mode: InterpolationType): (r: Resampling)
    ensures r == Bilinear <==> mode == Linear
  {
    if mode == Linear then Bilinear else Bicubic
  }

  /** The upscaled frame: cell k as the chosen upscaler computes it from
      the filtered frame. */
  function Upscaled(kind: Resampling, filtered: seq<Sample>,
                    upscaler: (Resampling, seq<Sample>, nat) -> Sample): (r: seq<Sample>)
    ensures |r| == UpScaledWidth * UpScaledHeight
  {
    seq(UpScaledWidth * UpScaledHeight, k requires 0 <= k => upscaler(kind, filtered, k))
  }

  class SensorRenderer {
    const filteredPixels: Image
    const upscaledPixels: Image
    var minTemp: real
    var maxTemp: real
    var fixedTemperatureRange: bool
    var a: real
    var b: real
    var c: real
    var d: real

    /** Both images have their fixed geometry and separate storage, and the
        temperature range is ordered. */
    ghost predicate Valid()
      reads this, filteredPixels, upscaledPixels
    {
      && filteredPixels.width == SensorWidth && filteredPixels.height == SensorHeight
      && upscaledPixels.width == UpScaledWidth && upscaledPixels.height == UpScaledHeight
      && filteredPixels.Valid() && upscaledPixels.Valid()
      && filteredPixels.data != upscaledPixels.data
      && minTemp <= maxTemp
    }

    /** A new renderer: zeroed 32 x 24 and 94 x 70 images, the fixed range
        20 to 45 and all breakpoints 0. */
    constructor ()
      ensures Valid() && fresh(filteredPixels.data) && fresh(upscaledPixels.data)
      ensures forall i :: 0 <= i < filteredPixels.data.Length ==> filteredPixels.data[i] == Num(0.0)
      ensures forall i :: 0 <= i < upscaledPixels.data.Length ==> upscaledPixels.data[i] == Num(0.0)
      ensures fixedTemperatureRange && minTemp == DefaultMinTemp && maxTemp == DefaultMaxTemp
      ensures a == 0.0 && b == 0.0 && c == 0.0 && d == 0.0
    {
      filteredPixels := new Image(SensorWidth, SensorHeight);
      upscaledPixels := new Image(UpScaledWidth, UpScaledHeight);
      minTemp, maxTemp := DefaultMinTemp, DefaultMaxTemp;
      fixedTemperatureRange := true;
      a, b, c, d := 0.0, 0.0, 0.0, 0.0;
    }

    /** Switches to the fixed range and resets it to 20 to 45; the
        breakpoints are left as they are. */
    method SetFixedTemperatureRange()
      requires Valid()
      modifies this
      ensures Valid()
      ensures fixedTemperatureRange && minTemp == DefaultMinTemp && maxTemp == DefaultMaxTemp
      ensures a == old(a) && b == old(b) && c == old(c) && d == old(d)
    {
      fixedTemperatureRange := true;
      minTemp := DefaultMinTemp;
      maxTemp := DefaultMaxTemp;
    }

    /** Switches to the dynamic range; only the flag changes. */
    method SetDynamicTemperatureRange()
      requires Valid()
      modifies this`fixedTemperatureRange
      ensures Valid() && !fixedTemperatureRange
    {
      fixedTemperatureRange := false;
    }

    /** `setAbcd`: the breakpoints of the current range. */
    method SetAbcd()
      requires Valid()
      modifies this`a, this`b, this`c, this`d
      ensures Valid() && Cutoffs(a, b, c, d) == Breakpoints(minTemp, maxTemp)
      ensures minTemp <= a <= b <= c <= d <= maxTemp
    {
      var k := Breakpoints(minTemp, maxTemp);
      a, b, c, d := k.a, k.b, k.c, k.d;
    }

    /** `setTempScale`: in fixed mode nothing changes; in dynamic mode the
        range follows the filtered frame (see ScaledRange) and the
        breakpoints are recomputed from it. */
    method SetTempScale()
      requires Valid()
      modifies this`minTemp, this`maxTemp, this`a, this`b, this`c, this`d
      ensures Valid()
      ensures TempRange(minTemp, maxTemp)
           == ScaledRange(fixedTemperatureRange, old(minTemp), old(maxTemp), filteredPixels.data[..])
      ensures fixedTemperatureRange ==> a == old(a) && b == old(b) && c == old(c) && d == old(d)
      ensures !fixedTemperatureRange ==> Cutoffs(a, b, c, d) == Breakpoints(minTemp, maxTemp)
    {
      if fixedTemperatureRange {
        return;
      }
      var e := MinMaxElement(filteredPixels.data[..]);
      if e.smallest.Num? && e.largest.Num? {
        ExtremaOrdered(filteredPixels.data[..]);
        minTemp, maxTemp := e.smallest.value, e.largest.value;
      }
      SetAbcd();
    }

    /** `denoiseRawPixels`: every filtered pixel is filtered in place with its
        own measurement. The measured image may even be the filtered image
        itself, since each pixel is read before it is written. */
    method DenoiseRawPixels(measured: Image)
      requires Valid() && measured.Valid() && measured.data.Length >= SensorWidth * SensorHeight
      modifies filteredPixels.data
      ensures Valid()
      ensures filteredPixels.data[..] == Denoised(old(measured.data[..]), old(filteredPixels.data[..]))
    {
      var i := 0;
      while i < SensorWidth * SensorHeight
        invariant 0 <= i <= SensorWidth * SensorHeight
        invariant forall k :: 0 <= k < i ==>
          filteredPixels.data[k] == DenoisedSample(old(measured.data[k]), old(filteredPixels.data[k]))
        invariant forall k :: i <= k < SensorWidth * SensorHeight ==>
          filteredPixels.data[k] == old(filteredPixels.data[k])
        invariant forall k :: i <= k < measured.data.Length ==> measured.data[k] == old(measured.data[k])
      {
        var s := DenoisedSample(measured.At(i), filteredPixels.At(i));
        filteredPixels.Put(i, s);
        i := i + 1;
      }
      assert forall k :: 0 <= k < filteredPixels.data.Length ==>
        filteredPixels.data[..][k] == Denoised(old(measured.data[..]), old(filteredPixels.data[..]))[k];
    }

    /** `interpolateImage`: the upscaled image becomes the chosen upscaler's
        output for the filtered frame. */
    method InterpolateImage(mode: InterpolationType, upscaler: (Resampling, seq<Sample>, nat) -> Sample)
      requires Valid()
      modifies upscaledPixels.data
      ensures Valid()
      ensures upscaledPixels.data[..] == Upscaled(ResamplingFor(mode), filteredPixels.data[..], upscaler)
    {
      var kind := ResamplingFor(mode);
      var src := filteredPixels.data[..];
      forall k | 0 <= k < upscaledPixels.data.Length {
        upscaledPixels.data[k] := upscaler(kind, src, k);
      }
      assert forall k :: 0 <= k < upscaledPixels.data.Length ==>
        upscaledPixels.data[..][k] == Upscaled(kind, src, upscaler)[k];
      assert src == filteredPixels.data[..];
    }

    /** `drawImage(image, scale)`: one square per pixel, rows top to bottom,
        each row mirrored; nothing changes. */
    method DrawImage(image: Image, scale: nat) returns (cells: seq<Square<Option<Rgb>>>)
      requires image.Valid()
      ensures cells == DrawnCells(image.data[..], image.width, image.height, scale, minTemp, maxTemp)
    {
      cells := [];
      var y := 0;
      while y < image.height
        invariant 0 <= y <= image.height && y * image.width <= image.width * image.height
        invariant |cells| == y * image.width
        invariant forall k :: 0 <= k < |cells| ==>
          cells[k] == DrawnCell(image.data[..], image.width, image.height, scale, minTemp, maxTemp, k)
      {
        var x := 0;
        while x < image.width
          invariant 0 <= x <= image.width && y * image.width + x <= image.width * image.height
          invariant |cells| == y * image.width + x
          invariant forall k :: 0 <= k < |cells| ==>
            cells[k] == DrawnCell(image.data[..], image.width, image.height, scale, minTemp, maxTemp, k)
        {
          RowMajorInBounds(x, y, image.width, image.height);
          DrawnCellDecodes(image.data[..], image.width, image.height, scale, minTemp, maxTemp, x, y, |cells|);
          var pixel := image.At((image.width - 1 - x) + y * image.width);
          cells := cells + [Square(x * scale, 10 + y * scale, scale, PixelColor(pixel, minTemp, maxTemp))];
          x := x + 1;
        }
        Interpolation.NextRow(y, image.width);
        y := y + 1;
      }
      assert forall k :: 0 <= k < |cells| ==>
        cells[k] == DrawnCells(image.data[..], image.width, image.height, scale, minTemp, maxTemp)[k];
    }

    /** `drawImage(image, interpolationType)`: denoise, update the range, then
        draw the filtered frame at scale 9 or, when upscaling is on, upscale
        and draw the upscaled frame at scale 3. */
    method DrawFrame(measured: Image, mode: InterpolationType,
                     upscaler: (Resampling, seq<Sample>, nat) -> Sample)
      returns (cells: seq<Square<Option<Rgb>>>)
      requires Valid() && measured.Valid() && measured.data.Length >= SensorWidth * SensorHeight
      modifies this`minTemp, this`maxTemp, this`a, this`b, this`c, this`d
      modifies filteredPixels.data, upscaledPixels.data
      ensures Valid()
      ensures filteredPixels.data[..] == Denoised(old(measured.data[..]), old(filteredPixels.data[..]))
      ensures TempRange(minTemp, maxTemp)
           == ScaledRange(fixedTemperatureRange, old(minTemp), old(maxTemp), filteredPixels.data[..])
      ensures fixedTemperatureRange ==> a == old(a) && b == old(b) && c == old(c) && d == old(d)
      ensures !fixedTemperatureRange ==> Cutoffs(a, b, c, d) == Breakpoints(minTemp, maxTemp)
      ensures mode == NoInterpolation ==>
        && upscaledPixels.data[..] == old(upscaledPixels.data[..])
        && cells == DrawnCells(filteredPixels.data[..], SensorWidth, SensorHeight, 9, minTemp, maxTemp)
      ensures mode != NoInterpolation ==>
        && upscaledPixels.data[..] == Upscaled(ResamplingFor(mode), filteredPixels.data[..], upscaler)
        && cells == DrawnCells(upscaledPixels.data[..], UpScaledWidth, UpScaledHeight, 3, minTemp, maxTemp)
    {
      DenoiseRawPixels(measured);
      SetTempScale();
      if mode == NoInterpolation {
        cells := DrawImage(filteredPixels, 9);
      } else {
        InterpolateImage(mode, upscaler);
        cells := DrawImage(upscaledPixels, 3);
      }
    }

    /** The average of the central 2 x 2 block of the filtered frame (rows
        11 and 12, columns 15 and 16), not a number if any of the four is. */
    function CenterTemperature(): (t: Sample)
      requires Valid()
      reads this, filteredPixels, upscaledPixels, filteredPixels.data
      ensures var block := CentreBlock(SensorWidth, SensorHeight);
        && (t.Num? <==> forall j :: 0 <= j < 4 ==> filteredPixels.data[block[j]].Num?)
        && (t.Num? ==> t.value * 4.0 == filteredPixels.data[block[0]].value + filteredPixels.data[block[1]].value
                                        + filteredPixels.data[block[2]].value + filteredPixels.data[block[3]].value)
    {
      SensorCentreBlock();
      var p := filteredPixels.data;
      if p[383 - 16].Num? && p[383 - 15].Num? && p[384 + 15].Num? && p[384 + 16].Num? then
        Num((p[383 - 16].value + p[383 - 15].value + p[384 + 15].value + p[384 + 16].value) * 0.25)
      else NaN
    }
  }
}
