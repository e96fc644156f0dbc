/** Per-pixel colour-space conversion and the foliage keep test of the
    grape-leaf segmentation pass (app/components/FileUpload.tsx).

    Every quantity is computed with exact rational arithmetic (`real`);
    the source computes the same expressions in IEEE-754 doubles. */
module ColorSpace {

  /** One channel of a canvas pixel: an unsigned byte. */
  type Byte = x: int | 0 <= x < 256

  /** Hue in degrees, saturation and value on the 0..255 byte scale. */
  datatype Hsv = Hsv(h: real, s: real, v: real)

  /** Inclusive bounds of the foliage detector. */
  const HueLow: real := 60.0
  const HueHigh: real := 180.0
  const MinSaturation: real := 25.0
  const MinValue: real := 25.0

  /** `Math.max(r, g, b)`: the largest channel. */
  function Max3(r: int, g: int, b: int): (m: int)
    ensures m >= r && m >= g && m >= b
    ensures m == r || m == g || m == b
  {
    if r >= g && r >= b then r else if g >= b then g else b
  }

  /** `Math.min(r, g, b)`: the smallest channel. */
  function Min3(r: int, g: int, b: int): (m: int)
    ensures m <= r && m <= g && m <= b
    ensures m == r || m == g || m == b
  {
    if r <= g && r <= b then r else if g <= b then g else b
  }

  /** The integer part of `x`, rounded toward zero. */
  function Truncate(x: real): (t: int)
    ensures x >= 0.0 ==> 0.0 <= t as real <= x < t as real + 1.0
    ensures x < 0.0 ==> t as real - 1.0 < x <= t as real <= 0.0
  {
    if x >= 0.0 then x.Floor else -((-x).Floor)
  }

  /** The remainder `n % 6` of JavaScript numbers: the quotient is
      truncated toward zero, so the result takes the sign of `n`. */
  function RemainderBySix(n: real): (rem: real)
    ensures -6.0 < rem < 6.0
    ensures n >= 0.0 ==> rem >= 0.0
    ensures n <= 0.0 ==> rem <= 0.0
    ensures (n - rem) / 6.0 == ((n - rem) / 6.0).Floor as real
  {
    n - 6.0 * Truncate(n / 6.0) as real
  }

  /** A dividend strictly inside (-6, 6) is its own remainder, which is
      why the red-branch `% 6` never changes the hue. */
  lemma RemainderBySixSmall(n: real)
    requires -6.0 < n < 6.0
    ensures RemainderBySix(n) == n
  {
    assert -1.0 < n / 6.0 < 1.0;
    assert Truncate(n / 6.0) == 0;
  }

  /** Sign facts for products, kept apart so the division proofs stay
      linear. */
  lemma ProductNonnegative(a: real, b: real)
    requires a >= 0.0 && b > 0.0
    ensures a * b >= 0.0
  {
  }

  lemma ProductPositive(a: real, b: real)
    requires a > 0.0 && b > 0.0
    ensures a * b > 0.0
  {
  }

  /** A quotient whose numerator is bounded by its positive divisor. */
  lemma QuotientBounds(n: real, d: real)
    requires d > 0.0 && -d <= n <= d
    ensures -1.0 <= n / d <= 1.0
    ensures (n / d == 1.0) == (n == d)
    ensures (n / d == -1.0) == (n == -d)
    ensures (n / d >= 0.0) == (n >= 0.0)
    ensures (n / d) * d == n
  {
    assert (n / d) * d == n;
  }

  /** The hue of a pixel in degrees: zero for a grey pixel, otherwise the
      60-degree sector formula of the channel holding the maximum, red
      taking priority over green and green over blue when they tie. */
  function Hue(r: Byte, g: Byte, b: Byte): (h: real)
    ensures 0.0 <= h < 360.0
    ensures Max3(r, g, b) == Min3(r, g, b) ==> h == 0.0
  {
    var max, min := Max3(r, g, b), Min3(r, g, b);
    var delta := (max - min) as real;
    if delta == 0.0 then 0.0
    else
      var sector :=
        if max == r then RedSector(r, g, b, delta)
        else if max == g then GreenSector(r, g, b, delta)
        else BlueSector(r, g, b, delta);
      var h := sector * 60.0;
      if h < 0.0 then h + 360.0 else h
  }

  /** The red-branch sector `((g - b) / delta) % 6`. */
  function RedSector(r: Byte, g: Byte, b: Byte, delta: real): (x: real)
    requires delta == (Max3(r, g, b) - Min3(r, g, b)) as real > 0.0
    requires Max3(r, g, b) == r
    ensures -1.0 <= x <= 1.0
    ensures x == (g - b) as real / delta
  {
    QuotientBounds((g - b) as real, delta);
    RemainderBySixSmall((g - b) as real / delta);
    RemainderBySix((g - b) as real / delta)
  }

  /** The green-branch sector `(b - r) / delta + 2`. */
  function GreenSector(r: Byte, g: Byte, b: Byte, delta: real): (x: real)
    requires delta == (Max3(r, g, b) - Min3(r, g, b)) as real > 0.0
    requires Max3(r, g, b) == g
    ensures 1.0 <= x <= 3.0
  {
    QuotientBounds((b - r) as real, delta);
    (b - r) as real / delta + 2.0
  }

  /** The blue-branch sector `(r - g) / delta + 4`. */
  function BlueSector(r: Byte, g: Byte, b: Byte, delta: real): (x: real)
    requires delta == (Max3(r, g, b) - Min3(r, g, b)) as real > 0.0
    requires Max3(r, g, b) == b
    ensures 3.0 <= x <= 5.0
  {
    QuotientBounds((r - g) as real, delta);
    (r - g) as real / delta + 4.0
  }

  /** Saturation on the byte scale: `delta / max * 255`, zero for black. */
  function Saturation(r: Byte, g: Byte, b: Byte): (s: real)
    ensures 0.0 <= s <= 255.0
    ensures s == 0.0 <==> Max3(r, g, b) == Min3(r, g, b)
  {
    var max, min := Max3(r, g, b), Min3(r, g, b);
    if max == 0 then 0.0
    else
      QuotientBounds((max - min) as real, max as real);
      ((max - min) as real / max as real) * 255.0
  }

  /** The HSV triple the segmentation pass computes for one pixel. */
  function ToHsv(r: Byte, g: Byte, b: Byte): (c: Hsv)
    ensures 0.0 <= c.h < 360.0 && 0.0 <= c.s <= 255.0
    ensures c.v == r as real || c.v == g as real || c.v == b as real
    ensures c.v >= r as real && c.v >= g as real && c.v >= b as real
    ensures r == g == b ==> c == Hsv(0.0, 0.0, r as real)
  {
    Hsv(Hue(r, g, b), Saturation(r, g, b), Max3(r, g, b) as real)
  }

  /** The foliage detector: hue in [60, 180], saturation and value at
      least 25, every bound inclusive. */
  predicate IsFoliage(c: Hsv)
  {
    c.h >= HueLow && c.h <= HueHigh && c.s >= MinSaturation && c.v >= MinValue
  }

  /** Whether the segmentation pass keeps the pixel's colour. */
  predicate Keeps(r: Byte, g: Byte, b: Byte)
  {
    IsFoliage(ToHsv(r, g, b))
  }

  /** The keep test restated over integers: green is a maximal channel,
      the pixel is not grey, 255 * delta >= 25 * max and max >= 25. */
  predicate GreenDominant(r: Byte, g: Byte, b: Byte)
  {
    var max, min := Max3(r, g, b), Min3(r, g, b);
    g == max && max > min && 255 * (max - min) >= 25 * max && max >= 25
  }

  /** The keep test holds exactly when green is a maximal channel of a
      pixel that is not grey, is bright enough (max >= 25) and saturated
      enough (255 * delta >= 25 * max). */
  lemma FoliageIffGreenDominant(r: Byte, g: Byte, b: Byte)
    ensures Keeps(r, g, b) <==> GreenDominant(r, g, b)
  {
    var max, min := Max3(r, g, b), Min3(r, g, b);
    if max > min {
      SaturationThreshold(r, g, b);
      HueInFoliageRange(r, g, b);
    }
  }

  /** Saturation reaches 25 exactly when 255 * delta >= 25 * max. */
  lemma SaturationThreshold(r: Byte, g: Byte, b: Byte)
    requires Max3(r, g, b) > Min3(r, g, b)
    ensures Saturation(r, g, b) >= MinSaturation <==> 255 * (Max3(r, g, b) - Min3(r, g, b)) >= 25 * Max3(r, g, b)
  {
    var max, min := Max3(r, g, b), Min3(r, g, b);
    var m, delta := max as real, (max - min) as real;
    assert Saturation(r, g, b) == (delta / m) * 255.0;
    QuotientAtLeast(delta, m, 25.0 / 255.0);
  }

  /** Comparing a quotient with a constant, without the division. */
  lemma QuotientAtLeast(n: real, d: real, c: real)
    requires d > 0.0
    ensures n / d >= c <==> n >= c * d
  {
    var q := n / d;
    assert q * d == n;
    if q >= c {
      ProductNonnegative(q - c, d);
      assert (q - c) * d == n - c * d;
    } else {
      ProductPositive(c - q, d);
      assert (c - q) * d == c * d - n;
    }
  }

  /** For a pixel that is not grey, the hue lies in [60, 180] exactly when
      green is a maximal channel. */
  lemma HueInFoliageRange(r: Byte, g: Byte, b: Byte)
    requires Max3(r, g, b) > Min3(r, g, b)
    ensures HueLow <= Hue(r, g, b) <= HueHigh <==> g == Max3(r, g, b)
  {
    var max, min := Max3(r, g, b), Min3(r, g, b);
    var delta := (max - min) as real;
    if max == r {
      QuotientBounds((g - b) as real, delta);
    } else if max == g {
      QuotientBounds((b - r) as real, delta);
    } else {
      QuotientBounds((r - g) as real, delta);
    }
  }

  /** The hue is 0 exactly for a grey pixel or for a pixel whose maximum
      is red and whose green and blue are equal; every other pixel has a
      hue strictly inside (0, 360). */
  lemma HueIsZero(r: Byte, g: Byte, b: Byte)
    ensures Hue(r, g, b) == 0.0 <==> Max3(r, g, b) == Min3(r, g, b) || (Max3(r, g, b) == r && g == b)
  {
    var max, min := Max3(r, g, b), Min3(r, g, b);
    var delta := (max - min) as real;
    if max > min {
      if max == r {
        QuotientBounds((g - b) as real, delta);
      } else if max == g {
        QuotientBounds((b - r) as real, delta);
      } else {
        QuotientBounds((r - g) as real, delta);
      }
    }
  }

  /** A grey pixel (r = g = b), black and white included, has hue 0,
      saturation 0 and value r, so the keep test always discards it. */
  lemma GreyIsDiscarded(r: Byte, g: Byte, b: Byte)
    requires r == g == b
    ensures ToHsv(r, g, b) == Hsv(0.0, 0.0, r as real)
    ensures !Keeps(r, g, b)
  {
  }

  /** When red and green tie for the maximum the red branch is taken and
      gives hue 60, the lower bound of the keep test, so (200, 200, 0) is
      kept. */
  lemma RedGreenTie()
    ensures ToHsv(200, 200, 0) == Hsv(60.0, 255.0, 200.0)
    ensures Keeps(200, 200, 0)
  {
    RemainderBySixSmall(1.0);
  }

  /** Pure green (0, 200, 0) has HSV (120, 255, 200) and is kept; pure red
      (200, 0, 0) has hue 0 and is discarded. */
  lemma PureGreenAndRed()
    ensures ToHsv(0, 200, 0) == Hsv(120.0, 255.0, 200.0) && Keeps(0, 200, 0)
    ensures ToHsv(200, 0, 0) == Hsv(0.0, 255.0, 200.0) && !Keeps(200, 0, 0)
  {
    RemainderBySixSmall(0.0);
  }

  /** A colour with real-valued channels. */
  datatype Rgb = Rgb(r: real, g: real, b: real)

  /** The standard inverse conversion on the same scales: the chroma is
      `v * s / 255`, the hue's 60-degree sector decides which channel is
      the maximum, which the minimum, and which one rises or falls
      linearly across the sector. */
  function HsvToRgb(c: Hsv): (rgb: Rgb)
  {
    var chroma := c.v * c.s / 255.0;
    var low := c.v - chroma;
    var sector := c.h / 60.0;
    var k := sector.Floor;
    var rise := chroma * (sector - k as real);
    var fall := chroma - rise;
    if k == 0 then Rgb(c.v, low + rise, low)
    else if k == 1 then Rgb(low + fall, c.v, low)
    else if k == 2 then Rgb(low, c.v, low + rise)
    else if k == 3 then Rgb(low, low + fall, c.v)
    else if k == 4 then Rgb(low + rise, low, c.v)
    else Rgb(c.v, low, low + fall)
  }

  /** The conversion loses nothing: the inverse conversion recovers every
      channel exactly (with exact arithmetic). */
  lemma HsvRoundTrip(r: Byte, g: Byte, b: Byte)
    ensures HsvToRgb(ToHsv(r, g, b)) == Rgb(r as real, g as real, b as real)
  {
    if Max3(r, g, b) > Min3(r, g, b) {
      ChromaticRoundTrip(r, g, b);
    } else {
      var c := ToHsv(r, g, b);
      assert c == Hsv(0.0, 0.0, r as real);
      InverseInSector(c, r as real, r as real, 0, 0.0);
    }
  }

  lemma ChromaticRoundTrip(r: Byte, g: Byte, b: Byte)
    requires Max3(r, g, b) > Min3(r, g, b)
    ensures HsvToRgb(ToHsv(r, g, b)) == Rgb(r as real, g as real, b as real)
  {
    var max := Max3(r, g, b);
    ChromaIsDelta(r, g, b);
    if max == r {
      var x := HueOfRed(r, g, b);
      RoundTripRedMax(r, g, b, x);
    } else if max == g {
      var x := HueOfGreen(r, g, b);
      RoundTripGreenMax(r, g, b, x);
    } else {
      var x := HueOfBlue(r, g, b);
      RoundTripBlueMax(r, g, b, x);
    }
  }

  lemma RoundTripRedMax(r: Byte, g: Byte, b: Byte, x: real)
    requires Max3(r, g, b) > Min3(r, g, b) && Max3(r, g, b) == r
    requires ToHsv(r, g, b).v == Max3(r, g, b) as real
    requires ToHsv(r, g, b).v * ToHsv(r, g, b).s / 255.0 == Max3(r, g, b) as real - Min3(r, g, b) as real
    requires x * (Max3(r, g, b) as real - Min3(r, g, b) as real) == g as real - b as real
    requires -1.0 <= x <= 1.0 && (x >= 0.0 <==> g >= b) && (x == 1.0 <==> g == r && b == Min3(r, g, b))
    requires ToHsv(r, g, b).h == if g >= b then x * 60.0 else x * 60.0 + 360.0
    ensures HsvToRgb(ToHsv(r, g, b)) == Rgb(r as real, g as real, b as real)
  {
    InverseRed(ToHsv(r, g, b), Min3(r, g, b) as real, Max3(r, g, b) as real, g as real, b as real, x);
  }

  lemma RoundTripGreenMax(r: Byte, g: Byte, b: Byte, x: real)
    requires Max3(r, g, b) > Min3(r, g, b) && Max3(r, g, b) == g != r
    requires ToHsv(r, g, b).v == Max3(r, g, b) as real
    requires ToHsv(r, g, b).v * ToHsv(r, g, b).s / 255.0 == Max3(r, g, b) as real - Min3(r, g, b) as real
    requires x * (Max3(r, g, b) as real - Min3(r, g, b) as real) == b as real - r as real
    requires -1.0 <= x <= 1.0 && (x >= 0.0 <==> b >= r) && (x == 1.0 <==> b == g && r == Min3(r, g, b))
    requires ToHsv(r, g, b).h == (x + 2.0) * 60.0
    ensures HsvToRgb(ToHsv(r, g, b)) == Rgb(r as real, g as real, b as real)
  {
    InverseGreen(ToHsv(r, g, b), Min3(r, g, b) as real, Max3(r, g, b) as real, r as real, b as real, x);
  }

  lemma RoundTripBlueMax(r: Byte, g: Byte, b: Byte, x: real)
    requires Max3(r, g, b) > Min3(r, g, b) && Max3(r, g, b) == b != r && b != g
    requires ToHsv(r, g, b).v == Max3(r, g, b) as real
    requires ToHsv(r, g, b).v * ToHsv(r, g, b).s / 255.0 == Max3(r, g, b) as real - Min3(r, g, b) as real
    requires x * (Max3(r, g, b) as real - Min3(r, g, b) as real) == r as real - g as real
    requires -1.0 < x < 1.0 && (x >= 0.0 <==> r >= g)
    requires ToHsv(r, g, b).h == (x + 4.0) * 60.0
    ensures HsvToRgb(ToHsv(r, g, b)) == Rgb(r as real, g as real, b as real)
  {
    InverseBlue(ToHsv(r, g, b), Min3(r, g, b) as real, Max3(r, g, b) as real, r as real, g as real, x);
  }

  /** `v * s / 255` recovers max - min. */
  lemma ChromaIsDelta(r: Byte, g: Byte, b: Byte)
    requires Max3(r, g, b) > Min3(r, g, b)
    ensures ToHsv(r, g, b).v == Max3(r, g, b) as real
    ensures ToHsv(r, g, b).v * ToHsv(r, g, b).s / 255.0 == Max3(r, g, b) as real - Min3(r, g, b) as real
  {
    ToHsvParts(r, g, b);
    SaturationOfChromatic(r, g, b);
    ChromaOf(Max3(r, g, b) as real, Saturation(r, g, b), (Max3(r, g, b) - Min3(r, g, b)) as real);
  }

  lemma ChromaOf(v: real, s: real, delta: real)
    requires v > 0.0 && s == (delta / v) * 255.0
    ensures v * s / 255.0 == delta
  {
    var q := delta / v;
    assert q * v == delta;
    assert v * (q * 255.0) == (q * v) * 255.0;
  }

  /** The three components of `ToHsv`, by name. */
  lemma ToHsvParts(r: Byte, g: Byte, b: Byte)
    ensures ToHsv(r, g, b) == Hsv(Hue(r, g, b), Saturation(r, g, b), Max3(r, g, b) as real)
  {
  }

  /** Saturation in closed form once the maximum is positive. */
  lemma SaturationOfChromatic(r: Byte, g: Byte, b: Byte)
    requires Max3(r, g, b) > Min3(r, g, b)
    ensures Saturation(r, g, b) == ((Max3(r, g, b) - Min3(r, g, b)) as real / Max3(r, g, b) as real) * 255.0
  {
  }

  /** The hue of a pixel whose maximum is red, through the quotient
      `x = (g - b) / delta`. */
  lemma HueOfRed(r: Byte, g: Byte, b: Byte) returns (x: real)
    requires Max3(r, g, b) > Min3(r, g, b) && Max3(r, g, b) == r
    ensures x * (Max3(r, g, b) as real - Min3(r, g, b) as real) == g as real - b as real
    ensures -1.0 <= x <= 1.0 && (x >= 0.0 <==> g >= b) && (x == 1.0 <==> g == r && b == Min3(r, g, b))
    ensures ToHsv(r, g, b).h == if g >= b then x * 60.0 else x * 60.0 + 360.0
  {
    var delta := (r - Min3(r, g, b)) as real;
    x := (g - b) as real / delta;
    QuotientBounds((g - b) as real, delta);
  }

  /** The hue of a pixel whose maximum is green (and not red), through
      the quotient `x = (b - r) / delta`. */
  lemma HueOfGreen(r: Byte, g: Byte, b: Byte) returns (x: real)
    requires Max3(r, g, b) > Min3(r, g, b) && Max3(r, g, b) == g != r
    ensures x * (Max3(r, g, b) as real - Min3(r, g, b) as real) == b as real - r as real
    ensures -1.0 <= x <= 1.0 && (x >= 0.0 <==> b >= r) && (x == 1.0 <==> b == g && r == Min3(r, g, b))
    ensures ToHsv(r, g, b).h == (x + 2.0) * 60.0
  {
    var delta := (g - Min3(r, g, b)) as real;
    x := (b - r) as real / delta;
    QuotientBounds((b - r) as real, delta);
  }

  /** The hue of a pixel whose maximum is blue alone, through the
      quotient `x = (r - g) / delta`. */
  lemma HueOfBlue(r: Byte, g: Byte, b: Byte) returns (x: real)
    requires Max3(r, g, b) > Min3(r, g, b) && Max3(r, g, b) == b != r && b != g
    ensures x * (Max3(r, g, b) as real - Min3(r, g, b) as real) == r as real - g as real
    ensures -1.0 < x < 1.0 && (x >= 0.0 <==> r >= g)
    ensures ToHsv(r, g, b).h == (x + 4.0) * 60.0
  {
    var delta := (b - Min3(r, g, b)) as real;
    x := (r - g) as real / delta;
    QuotientBounds((r - g) as real, delta);
  }

  /** The inverse conversion of a colour whose value is `hi`, whose chroma
      is `hi - lo` and whose hue lies at `f` inside sector `k`. */
  lemma InverseInSector(c: Hsv, lo: real, hi: real, k: int, f: real)
    requires c.v == hi && c.v * c.s / 255.0 == hi - lo
    requires c.h / 60.0 == k as real + f && 0.0 <= f < 1.0 && 0 <= k <= 5
    ensures var rise := (hi - lo) * f;
      HsvToRgb(c) ==
        if k == 0 then Rgb(hi, lo + rise, lo)
        else if k == 1 then Rgb(hi - rise, hi, lo)
        else if k == 2 then Rgb(lo, hi, lo + rise)
        else if k == 3 then Rgb(lo, hi - rise, hi)
        else if k == 4 then Rgb(lo + rise, lo, hi)
        else Rgb(hi, lo, hi - rise)
  {
    var sector := c.h / 60.0;
    assert sector.Floor == k;
    assert sector - k as real == f;
    var chroma := c.v * c.s / 255.0;
    assert chroma * (sector - k as real) == (hi - lo) * f;
  }

  /** Inverting a hue from the red branch: (hi, g, b) comes back. */
  lemma InverseRed(c: Hsv, lo: real, hi: real, g: real, b: real, x: real)
    requires lo < hi && c.v == hi && c.v * c.s / 255.0 == hi - lo
    requires lo <= g <= hi && lo <= b <= hi && (lo == g || lo == b)
    requires x * (hi - lo) == g - b && -1.0 <= x <= 1.0
    requires (x >= 0.0 <==> g >= b) && (x == 1.0 <==> g == hi && b == lo)
    requires c.h == if g >= b then x * 60.0 else x * 60.0 + 360.0
    ensures HsvToRgb(c) == Rgb(hi, g, b)
  {
    if g < b {
      InverseInSector(c, lo, hi, 5, x + 1.0);
      assert (hi - lo) * (x + 1.0) == x * (hi - lo) + (hi - lo);
    } else if x < 1.0 {
      InverseInSector(c, lo, hi, 0, x);
      assert (hi - lo) * x == x * (hi - lo);
    } else {
      InverseInSector(c, lo, hi, 1, 0.0);
    }
  }

  /** Inverting a hue from the green branch: (r, hi, b) comes back. */
  lemma InverseGreen(c: Hsv, lo: real, hi: real, r: real, b: real, x: real)
    requires lo < hi && c.v == hi && c.v * c.s / 255.0 == hi - lo
    requires lo <= r <= hi && lo <= b <= hi && (lo == r || lo == b)
    requires x * (hi - lo) == b - r && -1.0 <= x <= 1.0
    requires (x >= 0.0 <==> b >= r) && (x == 1.0 <==> b == hi && r == lo)
    requires c.h == (x + 2.0) * 60.0
    ensures HsvToRgb(c) == Rgb(r, hi, b)
  {
    if x < 0.0 {
      InverseInSector(c, lo, hi, 1, x + 1.0);
      assert (hi - lo) * (x + 1.0) == x * (hi - lo) + (hi - lo);
    } else if x < 1.0 {
      InverseInSector(c, lo, hi, 2, x);
      assert (hi - lo) * x == x * (hi - lo);
    } else {
      InverseInSector(c, lo, hi, 3, 0.0);
    }
  }

  /** Inverting a hue from the blue branch: (r, g, hi) comes back. */
  lemma InverseBlue(c: Hsv, lo: real, hi: real, r: real, g: real, x: real)
    requires lo < hi && c.v == hi && c.v * c.s / 255.0 == hi - lo
    requires lo <= r <= hi && lo <= g <= hi && (lo == r || lo == g)
    requires x * (hi - lo) == r - g && -1.0 < x < 1.0 && (x >= 0.0 <==> r >= g)
    requires c.h == (x + 4.0) * 60.0
    ensures HsvToRgb(c) == Rgb(r, g, hi)
  {
    if x < 0.0 {
      InverseInSector(c, lo, hi, 3, x + 1.0);
      assert (hi - lo) * (x + 1.0) == x * (hi - lo) + (hi - lo);
    } else {
      InverseInSector(c, lo, hi, 4, x);
      assert (hi - lo) * x == x * (hi - lo);
    }
  }
}
