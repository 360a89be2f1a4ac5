/** Temperature-to-colour mappings: the six-stop heat-map gradient of the
    renderer and the piecewise-linear R/G/B ramps of the legacy camera.
    Colours are RGB triples of bytes; packing into 5-6-5 display words is
    not part of this model. */
module ColorMap {
  import opened Arith
  import opened Wrappers

  /** A colour channel after the conversion of a non-negative float to `byte`. */
  type Byte = x: int | 0 <= x <= 255

  datatype Rgb = Rgb(red: Byte, green: Byte, blue: Byte)

  /** The heat-map stops, coldest first: black, blue, green, yellow, red, magenta. */
  const HeatmapStops: seq<Rgb> :=
    [Rgb(0, 0, 0), Rgb(0, 0, 255), Rgb(0, 255, 0), Rgb(255, 255, 0), Rgb(255, 0, 0), Rgb(255, 0, 255)]

  const NumColors: nat := 6

  /** Every channel of `c` lies between the same channel of `lo` and `hi`. */
  predicate Between(lo: Rgb, hi: Rgb, c: Rgb)
  {
    && (lo.red <= c.red <= hi.red || hi.red <= c.red <= lo.red)
    && (lo.green <= c.green <= hi.green || hi.green <= c.green <= lo.green)
    && (lo.blue <= c.blue <= hi.blue || hi.blue <= c.blue <= lo.blue)
  }

  /** One channel moved from `lo` towards `hi` by `frac` and truncated to a
      byte: it stays between the two, and a zero fraction keeps `lo`. */
  function Channel(lo: Byte, hi: Byte, frac: real): (c: Byte)
    requires 0.0 <= frac < 1.0
    ensures lo <= hi ==> lo <= c <= hi
    ensures hi <= lo ==> hi <= c <= lo
    ensures frac == 0.0 ==> c == lo
  {
    var v := (hi - lo) as real * frac + lo as real;
    ChannelBlend(lo as real, hi as real, frac);
    if lo <= hi then FloorWithin(v, lo, hi); v.Floor
    else FloorWithin(v, hi, lo); v.Floor
  }

  /** Moving from `lo` towards `hi` by a fraction in [0, 1] is a blend of
      the two, so it stays between them. */
  lemma ChannelBlend(lo: real, hi: real, frac: real)
    requires 0.0 <= frac <= 1.0
    ensures Min(lo, hi) <= (hi - lo) * frac + lo <= Max(lo, hi)
  {
    assert (hi - lo) * frac + lo == hi * frac + lo * (1.0 - frac);
    BlendBetween(hi, lo, frac);
  }

  lemma FloorWithin(v: real, a: int, b: int)
    requires a as real <= v <= b as real
    ensures a <= v.Floor <= b
  {
  }

  /** The lower stop of the segment holding an interior normalised value:
      both it and the stop above it are in the table. */
  function StopIndex(t: real): (k: nat)
    requires 0.0 < t < 1.0
    ensures k + 1 < NumColors
    ensures k as real <= t * (NumColors - 1) as real < k as real + 1.0
  {
    (t * (NumColors - 1) as real).Floor
  }

  /** Colour of a normalised value `t` (0 at the bottom of the range, 1 at
      the top): the ends are clamped to the first and last stop, and inside
      each channel lies between the two stops around `t`. */
  function HeatmapColor(t: real): (c: Rgb)
    ensures t <= 0.0 ==> c == HeatmapStops[0]
    ensures t >= 1.0 ==> c == HeatmapStops[NumColors - 1]
    ensures 0.0 < t < 1.0 ==> Between(HeatmapStops[StopIndex(t)], HeatmapStops[StopIndex(t) + 1], c)
  {
    if t <= 0.0 then HeatmapStops[0]
    else if t >= 1.0 then HeatmapStops[NumColors - 1]
    else
      var scaled := t * (NumColors - 1) as real;
      var idx1 := StopIndex(t);
      var idx2 := idx1 + 1;
      var frac := scaled - idx1 as real;
      var lo, hi := HeatmapStops[idx1], HeatmapStops[idx2];
      Rgb(Channel(lo.red, hi.red, frac), Channel(lo.green, hi.green, frac), Channel(lo.blue, hi.blue, frac))
  }

  /** A normalised value exactly at k / 5 falls on stop k: its fraction is zero. */
  lemma HeatmapAtStop(k: nat)
    requires 0 < k < NumColors - 1
    ensures HeatmapColor(k as real / (NumColors - 1) as real) == HeatmapStops[k]
  {
    var t := k as real / (NumColors - 1) as real;
    assert t * (NumColors - 1) as real == k as real;
    assert StopIndex(t) == k;
  }

  /** Worked example: the middle of the range is half-way from green to
      yellow, so red is truncated from 127.5. */
  lemma HeatmapMidpoint()
    ensures HeatmapColor(0.5) == Rgb(127, 255, 0)
  {
    assert StopIndex(0.5) == 2;
  }

  /** The value of `getFalseColor`'s first statement under IEEE float
      division: a zero-width range sends a value above it to +infinity, one
      below it to -infinity and the range's own value to not-a-number. */
  datatype Normalised = Finite(t: real) | PlusInfinity | MinusInfinity | NotANumber

  function NormaliseAsWritten(value: real, minTemp: real, maxTemp: real): (n: Normalised)
    ensures maxTemp != minTemp ==> n == Finite((value - minTemp) / (maxTemp - minTemp))
    ensures maxTemp == minTemp ==> (n == NotANumber <==> value == minTemp)
  {
    if maxTemp != minTemp then Finite((value - minTemp) / (maxTemp - minTemp))
    else if value > minTemp then PlusInfinity
    else if value < minTemp then MinusInfinity
    else NotANumber
  }

  /** `getFalseColor` as written. The comparisons with 0 and 1 are both false
      for not-a-number, which then reaches `floor` and the conversion to
      `int`: undefined behaviour, modelled as no colour at all. */
  function FalseColorAsWritten(value: real, minTemp: real, maxTemp: real): (c: Option<Rgb>)
    ensures maxTemp > minTemp ==> c == Some(HeatmapColor((value - minTemp) / (maxTemp - minTemp)))
    ensures c == None <==> maxTemp == minTemp && value == minTemp
  {
    match NormaliseAsWritten(value, minTemp, maxTemp)
    case Finite(t) => Some(HeatmapColor(t))
    case PlusInfinity => Some(HeatmapStops[NumColors - 1])
    case MinusInfinity => Some(HeatmapStops[0])
    case NotANumber => None
  }

  /** A flat range maps the range's own value to no colour. */
  lemma FlatRangeHasNoColor(t: real)
    ensures FalseColorAsWritten(t, t, t) == None
  {
  }

  /** `getFalseColor` with the missing guard added: a range that is not
      wider than a point treats every value as the bottom of the range. */
  function FalseColor(value: real, minTemp: real, maxTemp: real): (c: Rgb)
    ensures maxTemp > minTemp ==> Some(c) == FalseColorAsWritten(value, minTemp, maxTemp)
    ensures maxTemp <= minTemp ==> c == HeatmapStops[0]
    ensures value <= minTemp ==> c == HeatmapStops[0]
    ensures maxTemp > minTemp && value >= maxTemp ==> c == HeatmapStops[NumColors - 1]
  {
    if maxTemp > minTemp then
      assert value <= minTemp ==> (value - minTemp) / (maxTemp - minTemp) <= 0.0 by {
        if value <= minTemp { DivNonPositive(value - minTemp, maxTemp - minTemp); }
      }
      assert value >= maxTemp ==> (value - minTemp) / (maxTemp - minTemp) >= 1.0 by {
        if value >= maxTemp { DivAtLeastOne(value - minTemp, maxTemp - minTemp); }
      }
      HeatmapColor((value - minTemp) / (maxTemp - minTemp))
    else HeatmapStops[0]
  }

  lemma DivNonPositive(x: real, y: real)
    requires x <= 0.0 && y > 0.0
    ensures x / y <= 0.0
  {
    var q := x / y;
    assert q * y == x;
    if q > 0.0 { MulRealStrict(y, 0.0, q); }
  }

  lemma DivAtLeastOne(x: real, y: real)
    requires x >= y > 0.0
    ensures x / y >= 1.0
  {
    var q := x / y;
    assert q * y == x;
    if q < 1.0 { MulRealStrict(y, q, 1.0); }
  }

  /** The temperature breakpoints of the legacy R/G/B ramps. */
  datatype Cutoffs = Cutoffs(a: real, b: real, c: real, d: real)

  /** `setAbcd`: the breakpoints sit at fixed fractions 0.2121, 0.3182,
      0.4242 and 0.8182 of the range, so they are ordered inside it, strictly
      when the range is not flat, and all collapse onto a flat range. */
  function Breakpoints(minTemp: real, maxTemp: real): (k: Cutoffs)
    ensures minTemp <= maxTemp ==> minTemp <= k.a <= k.b <= k.c <= k.d <= maxTemp
    ensures minTemp < maxTemp ==> minTemp < k.a < k.b < k.c < k.d < maxTemp
    ensures minTemp == maxTemp ==> k == Cutoffs(minTemp, minTemp, minTemp, minTemp)
  {
    var w := maxTemp - minTemp;
    assert minTemp <= maxTemp ==> w * 0.0 <= w * 0.2121 <= w * 0.3182 <= w * 0.4242 <= w * 0.8182 <= w * 1.0 by {
      if minTemp <= maxTemp {
        MulRealMonotone(w, 0.0, 0.2121);
        MulRealMonotone(w, 0.2121, 0.3182);
        MulRealMonotone(w, 0.3182, 0.4242);
        MulRealMonotone(w, 0.4242, 0.8182);
        MulRealMonotone(w, 0.8182, 1.0);
      }
    }
    assert minTemp < maxTemp ==> w * 0.0 < w * 0.2121 < w * 0.3182 < w * 0.4242 < w * 0.8182 < w * 1.0 by {
      if minTemp < maxTemp {
        MulRealStrict(w, 0.0, 0.2121);
        MulRealStrict(w, 0.2121, 0.3182);
        MulRealStrict(w, 0.3182, 0.4242);
        MulRealStrict(w, 0.4242, 0.8182);
        MulRealStrict(w, 0.8182, 1.0);
      }
    }
    Cutoffs(minTemp + w * 0.2121, minTemp + w * 0.3182, minTemp + w * 0.4242, minTemp + w * 0.8182)
  }

  /** `constrain(x, 0, top)` followed by the conversion to `byte`. */
  function ClampToByte(x: real, top: Byte): (r: Byte)
    ensures r <= top
    ensures x <= 0.0 ==> r == 0
    ensures x >= top as real ==> r == top
    ensures 0.0 <= x <= top as real ==> r == x.Floor
  {
    if x < 0.0 then 0
    else if x > top as real then top
    else x.Floor
  }

  /** A straight line through (from, 0) and (to, peak), in the form the
      legacy colour code writes it. */
  function Ramp(val: real, from: real, to: real, peak: real): (y: real)
    requires from != to
    ensures y == peak * (val - from) / (to - from)
  {
    peak / (to - from) * val - (from * peak) / (to - from)
  }

  /** A rising ramp is at most 0 up to its start and at least its peak from its end on. */
  lemma RampRising(val: real, from: real, to: real, peak: real)
    requires from < to && peak >= 0.0
    ensures val <= from ==> Ramp(val, from, to, peak) <= 0.0
    ensures val >= to ==> Ramp(val, from, to, peak) >= peak
  {
    var w := to - from;
    if val <= from {
      MulRealMonotone(peak, val - from, 0.0);
      DivNonPositive(peak * (val - from), w);
    }
    if val >= to {
      MulRealMonotone(peak, w, val - from);
      DivAtLeastScaled(peak * (val - from), w, peak);
    }
  }

  /** A falling ramp (its start above its end) is at most 0 from its start on
      and at least its peak up to its end. */
  lemma RampFalling(val: real, from: real, to: real, peak: real)
    requires to < from && peak >= 0.0
    ensures val >= from ==> Ramp(val, from, to, peak) <= 0.0
    ensures val <= to ==> Ramp(val, from, to, peak) >= peak
  {
    RampRising(-val, -from, -to, peak);
    assert Ramp(val, from, to, peak) == Ramp(-val, -from, -to, peak) by {
      assert peak * (-val - -from) == -(peak * (val - from));
      DivNegate(peak * (val - from), to - from);
    }
  }

  lemma DivNegate(x: real, y: real)
    requires y != 0.0
    ensures (-x) / (-y) == x / y
  {
    var q := x / y;
    assert q * y == x;
    assert q * (-y) == -x;
  }

  lemma DivAtLeastScaled(x: real, y: real, p: real)
    requires y > 0.0 && x >= p * y
    ensures x / y >= p
  {
    var q := x / y;
    assert q * y == x;
    if q < p { MulRealStrict(y, q, p); }
  }

  /** Whether `getColor` divides by zero for `val`: the red ramp always
      divides by c - b; green divides by c - d when its first branch is not
      taken and val is above c; blue divides by a - b at or below b and by
      maxTemp - d above d. (Green's first ramp divides by a - minTemp only
      when minTemp < val < a, so never by zero.) */
  predicate LegacyDividesByZero(val: real, minTemp: real, maxTemp: real, k: Cutoffs)
  {
    || k.c == k.b
    || (val > k.c && !(minTemp < val < k.a) && k.c == k.d)
    || (val <= k.b && k.a == k.b)
    || (val > k.b && val > k.d && maxTemp == k.d)
  }

  /** The legacy camera's colour for a temperature (`getColor`) as written:
      the three ramps with the source's branches, whatever the order of the
      breakpoints. Where the code divides by zero its float result is not
      modelled and there is no colour; strictly ordered breakpoints inside
      the range never divide by zero, and breakpoints collapsed onto one
      point always do. */
  function LegacyColorAsWritten(val: real, minTemp: real, maxTemp: real, k: Cutoffs): (rgb: Option<Rgb>)
    ensures rgb.None? <==> LegacyDividesByZero(val, minTemp, maxTemp, k)
    ensures minTemp < k.a < k.b < k.c < k.d < maxTemp ==> rgb.Some?
    ensures k.a == k.b == k.c == k.d ==> rgb.None?
  {
    if LegacyDividesByZero(val, minTemp, maxTemp, k) then None
    else
      var red := ClampToByte(Ramp(val, k.b, k.c, 255.0), 255);
      var green :=
        if minTemp < val < k.a then ClampToByte(Ramp(val, minTemp, k.a, 255.0), 255)
        else if k.a <= val <= k.c then 255
        else if val > k.c then ClampToByte(Ramp(val, k.d, k.c, 255.0), 255)
        else 0;
      var blue :=
        if val <= k.b then ClampToByte(Ramp(val, k.b, k.a, 255.0), 255)
        else if val <= k.d then 0
        else ClampToByte(Ramp(val, k.d, maxTemp, 240.0), 240);
      Some(Rgb(red, green, blue))
  }

  /** Breakpoints out of order: with c == d below a, a value between them
      still takes green's first ramp and never divides by c - d. */
  lemma LegacyUnorderedExample()
    ensures LegacyColorAsWritten(3.0, 0.0, 10.0, Cutoffs(5.0, 1.0, 2.0, 2.0)) == Some(Rgb(255, 153, 30))
  {
    assert Ramp(3.0, 1.0, 2.0, 255.0) == 510.0;
    assert Ramp(3.0, 0.0, 5.0, 255.0) == 153.0;
    assert Ramp(3.0, 2.0, 10.0, 240.0) == 30.0;
  }

  /** `getColor` on strictly ordered breakpoints inside the range, where it
      always has a colour: blue exceeds 240 only at or below breakpoint b. */
  function LegacyColor(val: real, minTemp: real, maxTemp: real, k: Cutoffs): (rgb: Rgb)
    requires minTemp < k.a < k.b < k.c < k.d < maxTemp
    ensures rgb.blue <= 240 || val <= k.b
  {
    LegacyColorAsWritten(val, minTemp, maxTemp, k).value
  }

  /** Red is off up to breakpoint b and saturated from breakpoint c on. */
  lemma LegacyRed(val: real, minTemp: real, maxTemp: real, k: Cutoffs)
    requires minTemp < k.a < k.b < k.c < k.d < maxTemp
    ensures val <= k.b ==> LegacyColor(val, minTemp, maxTemp, k).red == 0
    ensures val >= k.c ==> LegacyColor(val, minTemp, maxTemp, k).red == 255
  {
    RampRising(val, k.b, k.c, 255.0);
  }

  /** Green is off at or below the range minimum, rises to full by breakpoint
      a, stays full on [a, c] and is off again from breakpoint d on. */
  lemma LegacyGreen(val: real, minTemp: real, maxTemp: real, k: Cutoffs)
    requires minTemp < k.a < k.b < k.c < k.d < maxTemp
    ensures val <= minTemp ==> LegacyColor(val, minTemp, maxTemp, k).green == 0
    ensures k.a <= val <= k.c ==> LegacyColor(val, minTemp, maxTemp, k).green == 255
    ensures val >= k.d ==> LegacyColor(val, minTemp, maxTemp, k).green == 0
  {
    RampFalling(val, k.d, k.c, 255.0);
  }

  /** Blue is saturated up to breakpoint a, off on (b, d], and from d on
      rises to at most 240, which it reaches at the range maximum. */
  lemma LegacyBlue(val: real, minTemp: real, maxTemp: real, k: Cutoffs)
    requires minTemp < k.a < k.b < k.c < k.d < maxTemp
    ensures val <= k.a ==> LegacyColor(val, minTemp, maxTemp, k).blue == 255
    ensures k.b < val <= k.d ==> LegacyColor(val, minTemp, maxTemp, k).blue == 0
    ensures val > k.d ==> LegacyColor(val, minTemp, maxTemp, k).blue <= 240
    ensures val >= maxTemp ==> LegacyColor(val, minTemp, maxTemp, k).blue == 240
  {
    RampFalling(val, k.b, k.a, 255.0);
    RampRising(val, k.d, maxTemp, 240.0);
  }

  /** The coldest colour of the legacy ramps: pure blue. */
  lemma LegacyColdest(val: real, minTemp: real, maxTemp: real, k: Cutoffs)
    requires minTemp < k.a < k.b < k.c < k.d < maxTemp
    requires val <= minTemp
    ensures LegacyColor(val, minTemp, maxTemp, k) == Rgb(0, 0, 255)
  {
    LegacyRed(val, minTemp, maxTemp, k);
    LegacyGreen(val, minTemp, maxTemp, k);
    LegacyBlue(val, minTemp, maxTemp, k);
  }

  /** `getColor` with a guard for breakpoints that are not strictly ordered
      (a flat range): every value gets the coldest colour. */
  function GuardedLegacyColor(val: real, minTemp: real, maxTemp: real, k: Cutoffs): (rgb: Rgb)
    ensures minTemp < k.a < k.b < k.c < k.d < maxTemp ==> rgb == LegacyColor(val, minTemp, maxTemp, k)
    ensures !(minTemp < k.a < k.b < k.c < k.d < maxTemp) ==> rgb == Rgb(0, 0, 255)
    ensures val <= minTemp ==> rgb == Rgb(0, 0, 255)
    ensures minTemp < k.a < k.b < k.c < k.d < maxTemp ==> LegacyColorAsWritten(val, minTemp, maxTemp, k) == Some(rgb)
  {
    assert val <= minTemp && minTemp < k.a < k.b < k.c < k.d < maxTemp ==>
           LegacyColor(val, minTemp, maxTemp, k) == Rgb(0, 0, 255) by {
      if val <= minTemp && minTemp < k.a < k.b < k.c < k.d < maxTemp {
        LegacyColdest(val, minTemp, maxTemp, k);
      }
    }
    if minTemp < k.a < k.b < k.c < k.d < maxTemp then LegacyColor(val, minTemp, maxTemp, k)
    else Rgb(0, 0, 255)
  }
}
