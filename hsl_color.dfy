/** Integer HSL colours on the 0..240 scale: the conversion from an RGB
    colour, the conversion back, and the luminosity adjustments used to make
    shades darker or lighter. C# integer division truncates towards zero and
    a (byte) cast keeps the low eight bits; both are written out where an
    operand can be negative. */
module HslColors {
  import Arith

  const Range := 240
  const HSLMax := Range
  const RGBMax := 255
  /** The hue of a grey. */
  const Undefined := HSLMax * 2 / 3
  const ShadowAdjustment := -333
  const HighlightAdjustment := 500

  type Channel = x: int | 0 <= x < 256

  datatype Rgb = Rgb(r: Channel, g: Channel, b: Channel)

  /** An HSLColor: hue, saturation and luminosity. */
  datatype Hsl = Hsl(hue: int, saturation: int, luminosity: int)

  /** A (byte) cast: the low eight bits. */
  function Byte(x: int): (r: Channel)
    ensures 0 <= x < 256 ==> r == x
  {
    x % 256
  }

  function Max3(a: int, b: int, c: int): (r: int)
    ensures r >= a && r >= b && r >= c && (r == a || r == b || r == c)
  {
    if a >= b && a >= c then a else if b >= c then b else c
  }

  function Min3(a: int, b: int, c: int): (r: int)
    ensures r <= a && r <= b && r <= c && (r == a || r == b || r == c)
  {
    if a <= b && a <= c then a else if b <= c then b else c
  }

  /** The luminosity of an RGB colour: the mean of its largest and smallest
      channel, rescaled from 0..255 to 0..240 and rounded. */
  function LuminosityOf(c: Rgb): (r: int)
    ensures 0 <= r <= HSLMax
  {
    var sum := Max3(c.r, c.g, c.b) + Min3(c.r, c.g, c.b);
    Arith.DivBetween(sum * HSLMax + RGBMax, 2 * RGBMax, 0, HSLMax);
    (sum * HSLMax + RGBMax) / (2 * RGBMax)
  }

  /** How far a channel is below the largest, as a sixth of the hue circle. */
  function Delta(mx: int, x: int, dif: int): int
    requires dif > 0
  {
    ((mx - x) * (HSLMax / 6) + dif / 2) / dif
  }

  /** HSLColor(color): the luminosity, and for a grey a saturation of 0 and
      the undefined hue; otherwise the saturation relative to the
      luminosity, and the hue from the sector of the largest channel, moved
      into range by one turn. */
  function FromRgb(c: Rgb): (h: Hsl)
    ensures h.luminosity == LuminosityOf(c)
    ensures c.r == c.g == c.b ==> h.saturation == 0 && h.hue == Undefined
  {
    var mx := Max3(c.r, c.g, c.b);
    var mn := Min3(c.r, c.g, c.b);
    var sum := mx + mn;
    var lum := LuminosityOf(c);
    var dif := mx - mn;
    if dif == 0 then Hsl(Undefined, 0, lum)
    else
      var sat := if lum <= HSLMax / 2 then (dif * HSLMax + sum / 2) / sum
                 else (dif * HSLMax + (2 * RGBMax - sum) / 2) / (2 * RGBMax - sum);
      var rd, gd, bd := Delta(mx, c.r, dif), Delta(mx, c.g, dif), Delta(mx, c.b, dif);
      var hue := if c.r == mx then bd - gd
                 else if c.g == mx then HSLMax / 3 + rd - bd
                 else 2 * HSLMax / 3 + gd - rd;
      var hue := if hue < 0 then hue + HSLMax else hue;
      var hue := if hue > HSLMax then hue - HSLMax else hue;
      Hsl(hue, sat, lum)
  }

  /** Each channel delta is a fraction of a sixth of the circle. */
  lemma DeltaRange(mx: int, x: int, dif: int)
    requires dif > 0 && 0 <= mx - x <= dif
    ensures 0 <= Delta(mx, x, dif) <= HSLMax / 6
  {
    Arith.DivBetween((mx - x) * (HSLMax / 6) + dif / 2, dif, 0, HSLMax / 6);
  }

  /** Largest plus smallest channel, below or above the middle luminosity. */
  lemma SumBound(c: Rgb)
    ensures var sum := Max3(c.r, c.g, c.b) + Min3(c.r, c.g, c.b);
      (LuminosityOf(c) <= HSLMax / 2 ==> sum <= 256) && (LuminosityOf(c) > HSLMax / 2 ==> sum >= 257)
  {
    var sum := Max3(c.r, c.g, c.b) + Min3(c.r, c.g, c.b);
    var x := sum * HSLMax + RGBMax;
    if x >= 121 * (2 * RGBMax) {
      Arith.DivBetween(x, 2 * RGBMax, 121, HSLMax);
    } else {
      Arith.DivBetween(x, 2 * RGBMax, 0, 120);
    }
  }

  /** The saturation is on the 0..240 scale and is zero exactly for a grey. */
  lemma FromRgbSaturation(c: Rgb)
    ensures 0 <= FromRgb(c).saturation <= HSLMax
    ensures FromRgb(c).saturation == 0 <==> c.r == c.g == c.b
  {
    var mx := Max3(c.r, c.g, c.b);
    var mn := Min3(c.r, c.g, c.b);
    var sum := mx + mn;
    var dif := mx - mn;
    if dif != 0 {
      SumBound(c);
      if LuminosityOf(c) <= HSLMax / 2 {
        Arith.DivBetween(dif * HSLMax + sum / 2, sum, 1, HSLMax);
      } else {
        var d := 2 * RGBMax - sum;
        Arith.DivBetween(dif * HSLMax + d / 2, d, 1, HSLMax);
      }
    }
  }

  /** The hue is on the 0..240 scale: the sector's base plus or minus at
      most a sixth, moved into range by one turn. */
  lemma FromRgbHue(c: Rgb)
    ensures 0 <= FromRgb(c).hue <= HSLMax
  {
    var mx := Max3(c.r, c.g, c.b);
    var mn := Min3(c.r, c.g, c.b);
    var dif := mx - mn;
    if dif != 0 {
      DeltaRange(mx, c.r, dif);
      DeltaRange(mx, c.g, dif);
      DeltaRange(mx, c.b, dif);
    }
  }

  /** NewLuma(luminosity, n, scale): n in thousandths. Scaled, a positive n
      moves the luminosity that far towards 241 and a negative n that far
      towards 0; unscaled, n thousandths of the range are added and the
      result is clamped to 0..240. */
  function NewLuma(luminosity: int, n: int, scale: bool): (r: int)
    ensures n == 0 ==> r == luminosity
    ensures n != 0 && !scale ==> 0 <= r <= HSLMax
    ensures n != 0 && !scale && 0 <= luminosity + Arith.TruncDiv(n * Range, 1000) <= HSLMax ==>
      r == luminosity + Arith.TruncDiv(n * Range, 1000)
  {
    if n == 0 then luminosity
    else if scale then
      if n > 0 then Arith.TruncDiv(luminosity * (1000 - n) + (Range + 1) * n, 1000)
      else Arith.TruncDiv(luminosity * (n + 1000), 1000)
    else
      var l := luminosity + Arith.TruncDiv(n * Range, 1000);
      if l < 0 then 0 else if l > HSLMax then HSLMax else l
  }

  /** Scaled adjustments stay between the luminosity and their target: a
      darker shade between 0 and the luminosity, a lighter one between the
      luminosity and 241. */
  lemma NewLumaScaled(luminosity: int, n: int)
    requires 0 <= luminosity <= HSLMax + 1 && -1000 <= n <= 1000
    ensures n < 0 ==> 0 <= NewLuma(luminosity, n, true) <= luminosity
    ensures n > 0 ==> luminosity <= NewLuma(luminosity, n, true) <= Range + 1
  {
    if n > 0 {
      var a := luminosity * (1000 - n) + (Range + 1) * n;
      Arith.MulMonotone(1000 - n, 0, luminosity);
      Arith.MulMonotone(Range + 1, luminosity, n);
      Arith.MulMonotone(Range + 1, luminosity, 1000 - n);
      assert luminosity * 1000 <= a <= (Range + 1) * 1000;
      Arith.DivBetween(a, 1000, luminosity, Range + 1);
    } else if n < 0 {
      var a := luminosity * (n + 1000);
      Arith.MulMonotone(1000, n + 1000, luminosity);
      Arith.MulMonotone(n + 1000, 0, luminosity);
      Arith.DivBetween(a, 1000, 0, luminosity);
    }
  }

  /** HueToRGB(n1, n2, hue): the hue moved into range by one turn, then
      rising from n1 to n2 over the first sixth, n2 up to one half, falling
      back to n1 up to two thirds, and n1 after. */
  function HueToRGB(n1: int, n2: int, hue: int): (r: int)
    ensures var h := if hue < 0 then hue + HSLMax else hue;
      var h := if h > HSLMax then h - HSLMax else h;
      (HSLMax / 6 <= h < HSLMax / 2 ==> r == n2) && (HSLMax * 2 / 3 <= h ==> r == n1)
  {
    var hue := if hue < 0 then hue + HSLMax else hue;
    var hue := if hue > HSLMax then hue - HSLMax else hue;
    if hue < HSLMax / 6 then n1 + Arith.TruncDiv((n2 - n1) * hue + HSLMax / 12, HSLMax / 6)
    else if hue < HSLMax / 2 then n2
    else if hue < HSLMax * 2 / 3 then n1 + Arith.TruncDiv((n2 - n1) * (HSLMax * 2 / 3 - hue) + HSLMax / 12, HSLMax / 6)
    else n1
  }

  /** On a ramp segment (0 <= t <= 40) the value lies between n1 and n2. */
  lemma RampBetween(n1: int, n2: int, t: int)
    requires n1 <= n2 && 0 <= t <= HSLMax / 6
    ensures n1 <= n1 + Arith.TruncDiv((n2 - n1) * t + HSLMax / 12, HSLMax / 6) <= n2
  {
    var a := (n2 - n1) * t + HSLMax / 12;
    Arith.MulMonotone(n2 - n1, 0, t);
    Arith.MulMonotone(HSLMax / 6, t, n2 - n1);
    Arith.DivBetween(a, HSLMax / 6, 0, n2 - n1);
  }

  /** For a hue less than a turn out of range, HueToRGB gives a value
      between n1 and n2. */
  lemma HueToRGBBetween(n1: int, n2: int, hue: int)
    requires n1 <= n2 && -HSLMax <= hue <= 2 * HSLMax
    ensures n1 <= HueToRGB(n1, n2, hue) <= n2
  {
    var h0 := if hue < 0 then hue + HSLMax else hue;
    var h := if h0 > HSLMax then h0 - HSLMax else h0;
    if h < HSLMax / 6 {
      RampBetween(n1, n2, h);
    } else if HSLMax / 2 <= h < HSLMax * 2 / 3 {
      RampBetween(n1, n2, HSLMax * 2 / 3 - h);
    }
  }

  /** The two levels the chromatic case interpolates between. */
  function Magic2(saturation: int, luminosity: int): int
  {
    if luminosity <= HSLMax / 2 then (luminosity * (HSLMax + saturation) + HSLMax / 2) / HSLMax
    else luminosity + saturation - (luminosity * saturation + HSLMax / 2) / HSLMax
  }

  /** A level 0..240 rescaled to a channel 0..255, rounded. */
  function Level(v: int): int
  {
    (v * RGBMax + HSLMax / 2) / HSLMax
  }

  /** ColorFromHSL(hue, saturation, luminosity): a grey of the luminosity
      rescaled for saturation 0 (the hue is then ignored); otherwise each
      channel from HueToRGB a third of a turn apart. */
  function ColorFromHSL(hue: int, saturation: int, luminosity: int): (c: Rgb)
    ensures saturation == 0 ==> c.r == c.g == c.b == Byte(Arith.TruncDiv(luminosity * RGBMax, HSLMax))
    ensures saturation == 0 && 0 <= luminosity <= HSLMax ==> c.r == luminosity * RGBMax / HSLMax
  {
    if saturation == 0 then
      var v := Byte(Arith.TruncDiv(luminosity * RGBMax, HSLMax));
      assert 0 <= luminosity <= HSLMax ==> 0 <= luminosity * RGBMax / HSLMax <= RGBMax by {
        if 0 <= luminosity <= HSLMax {
          Arith.DivBetween(luminosity * RGBMax, HSLMax, 0, RGBMax);
        }
      }
      Rgb(v, v, v)
    else
      var magic2 := Magic2(saturation, luminosity);
      var magic1 := 2 * luminosity - magic2;
      Rgb(Byte(Arith.TruncDiv(HueToRGB(magic1, magic2, hue + HSLMax / 3) * RGBMax + HSLMax / 2, HSLMax)),
          Byte(Arith.TruncDiv(HueToRGB(magic1, magic2, hue) * RGBMax + HSLMax / 2, HSLMax)),
          Byte(Arith.TruncDiv(HueToRGB(magic1, magic2, hue - HSLMax / 3) * RGBMax + HSLMax / 2, HSLMax)))
  }

  /** For components on the 0..240 scale the two levels satisfy
      0 <= magic1 <= luminosity <= magic2 <= 240. */
  lemma MagicRange(saturation: int, luminosity: int)
    requires 0 <= saturation <= HSLMax && 0 <= luminosity <= HSLMax
    ensures var m2 := Magic2(saturation, luminosity);
      luminosity <= m2 <= HSLMax && 0 <= 2 * luminosity - m2
  {
    var l, s := luminosity, saturation;
    Arith.MulMonotone(HSLMax, s, l);
    Arith.MulMonotone(s, 0, l);
    if l <= HSLMax / 2 {
      var a := l * (HSLMax + s) + HSLMax / 2;
      assert a == HSLMax * l + l * s + HSLMax / 2;
      Arith.DivBetween(a, HSLMax, l, 2 * l);
    } else {
      var a := l * s + HSLMax / 2;
      Arith.MulMonotone(HSLMax, l, s);
      Arith.MulMonotone(HSLMax - l, 0, HSLMax - s);
      assert (HSLMax - l) * (HSLMax - s) == HSLMax * HSLMax - HSLMax * l - HSLMax * s + l * s;
      Arith.MulMonotone(HSLMax, s, HSLMax - l);
      assert s * (HSLMax - l) <= HSLMax * (HSLMax - l);
      var lo0 := if l + s - HSLMax > s - l then l + s - HSLMax else s - l;
      var lo := if lo0 < 0 then 0 else lo0;
      Arith.DivBetween(a, HSLMax, lo, s);
    }
  }

  /** With hue, saturation and luminosity on the 0..240 scale no (byte)
      cast wraps: each channel is the rounded level. */
  lemma ColorFromHSLInRange(hue: int, saturation: int, luminosity: int)
    requires 0 <= hue <= HSLMax && 0 < saturation <= HSLMax && 0 <= luminosity <= HSLMax
    ensures var m2 := Magic2(saturation, luminosity); var m1 := 2 * luminosity - m2;
      var c := ColorFromHSL(hue, saturation, luminosity);
      c.r == Level(HueToRGB(m1, m2, hue + HSLMax / 3)) && c.g == Level(HueToRGB(m1, m2, hue)) &&
      c.b == Level(HueToRGB(m1, m2, hue - HSLMax / 3))
  {
    var m2 := Magic2(saturation, luminosity);
    var m1 := 2 * luminosity - m2;
    MagicRange(saturation, luminosity);
    HueToRGBBetween(m1, m2, hue + HSLMax / 3);
    HueToRGBBetween(m1, m2, hue);
    HueToRGBBetween(m1, m2, hue - HSLMax / 3);
    LevelRange(HueToRGB(m1, m2, hue + HSLMax / 3));
    LevelRange(HueToRGB(m1, m2, hue));
    LevelRange(HueToRGB(m1, m2, hue - HSLMax / 3));
  }

  lemma LevelRange(v: int)
    requires 0 <= v <= HSLMax
    ensures 0 <= Level(v) <= RGBMax
    ensures Arith.TruncDiv(v * RGBMax + HSLMax / 2, HSLMax) == Level(v)
  {
    Arith.DivBetween(v * RGBMax + HSLMax / 2, HSLMax, 0, RGBMax);
  }

  /** A grey survives the round trip through HSL up to one step of
      rounding: grey v comes back as grey v or v - 1. */
  lemma GreyRoundTrip(v: Channel)
    ensures var h := FromRgb(Rgb(v, v, v)); var c := ColorFromHSL(h.hue, h.saturation, h.luminosity);
      c.r == c.g == c.b && (c.r == v || c.r == v - 1)
  {
    var lum := LuminosityOf(Rgb(v, v, v));
    var x := 2 * v * HSLMax + RGBMax;
    Arith.DivMod(x, 2 * RGBMax);
    assert lum * (2 * RGBMax) <= x < (lum + 1) * (2 * RGBMax);
    var y := lum * RGBMax;
    Arith.DivMod(y, HSLMax);
    var w := y / HSLMax;
    assert w * HSLMax <= y < (w + 1) * HSLMax;
    assert w <= v by {
      if w > v {
        Arith.MulMonotone(w, v + 1, HSLMax);
      }
    }
    assert w >= v - 1 by {
      if w < v - 1 {
        Arith.MulMonotone(v - 1, w + 1, HSLMax);
        Arith.MulMonotone(v, lum + 1, 2 * RGBMax);
      }
    }
  }
}
