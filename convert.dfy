/** The colour-space conversions of `Convert` that use only integer and linear arithmetic:
    the hex channel codec, CMYK <-> RGB, HSL -> RGB, HSB -> RGB, RGB -> HSL and RGB -> HSB.
    Floats are modelled as exact reals; every PHP primitive the formulas use (`round`, `%`
    on floats, `fmod`, `floor`) is written out in module Php. */
module Convert {
  import opened Php

  // ---------------------------------------------------------------------------
  // Hex channel codec
  // ---------------------------------------------------------------------------

  /** `hexChannelToRgbChannel`: `hexdec` of the channel text. */
  function HexChannelToRgbChannel(hex: string): (v: nat)
    ensures |hex| <= 2 ==> v < 256
  {
    HexDecSmall(hex);
    HexDec(hex)
  }

  lemma HexDecSmall(hex: string)
    ensures |hex| <= 2 ==> HexDec(hex) < 256
  {
    if 1 <= |hex| <= 2 {
      assert HexDec(hex[..|hex| - 1]) < 16;
    }
  }

  /** `rgbChannelToHexChannel`: `dechex` left-padded with '0' to two characters. */
  function RgbChannelToHexChannel(v: int): (hex: string)
    requires -TwoTo63 <= v < TwoTo63
    ensures 0 <= v < 256 ==> |hex| == 2 && forall i | 0 <= i < 2 :: IsLowerHexDigit(hex[i])
  {
    if 0 <= v < 256 then PaddedHexDigits(v); StrPadLeft(DecHex(v), 2, '0')
    else StrPadLeft(DecHex(v), 2, '0')
  }

  lemma PaddedHexDigits(v: nat)
    requires v < 256
    ensures StrPadLeft(DecHex(v), 2, '0') == [HexDigitChar(v / 16), HexDigitChar(v % 16)]
  {
    if v < 16 {
      assert DecHex(v) == [HexDigitChar(v)];
      assert HexDigitChar(0) == '0';
    } else {
      assert NatToHex(v / 16) == [HexDigitChar(v / 16)];
    }
  }

  /** The two hex digits of a channel: the high nibble first. */
  lemma HexChannelDigits(v: nat)
    requires v < 256
    ensures RgbChannelToHexChannel(v) == [HexDigitChar(v / 16), HexDigitChar(v % 16)]
  {
    PaddedHexDigits(v);
  }

  /** Printing a channel in hex and reading it back gives the channel. */
  lemma HexChannelRoundTrip(v: nat)
    requires v < 256
    ensures HexChannelToRgbChannel(RgbChannelToHexChannel(v)) == v
  {
    HexChannelDigits(v);
    var hex := RgbChannelToHexChannel(v);
    assert hex[..1] == [HexDigitChar(v / 16)];
    assert hex[..1][..0] == [];
    assert HexDec(hex[..1]) == v / 16;
    assert HexDec(hex) == (v / 16) * 16 + v % 16;
  }

  lemma HexDigitLower(c: char)
    requires IsHexDigit(c)
    ensures HexDigitChar(HexDigitValue(c)) == ToLowerChar(c)
  {
  }

  /** Reading two hex digits and printing the value again gives them in lower case. */
  lemma HexTextRoundTrip(hex: string)
    requires |hex| == 2 && AllHexDigits(hex)
    ensures HexChannelToRgbChannel(hex) < 256
    ensures RgbChannelToHexChannel(HexChannelToRgbChannel(hex)) == ToLower(hex)
  {
    var hi, lo := HexDigitValue(hex[0]), HexDigitValue(hex[1]);
    assert hex[..1][..0] == [];
    assert HexDec(hex[..1]) == hi;
    var v := HexChannelToRgbChannel(hex);
    assert v == hi * 16 + lo;
    assert v / 16 == hi && v % 16 == lo;
    HexChannelDigits(v);
    HexDigitLower(hex[0]);
    HexDigitLower(hex[1]);
  }

  lemma HexChannelExamples()
    ensures RgbChannelToHexChannel(55) == "37"
    ensures RgbChannelToHexChannel(155) == "9b"
    ensures RgbChannelToHexChannel(255) == "ff"
    ensures RgbChannelToHexChannel(5) == "05"
  {
    HexChannelDigits(55);
    HexChannelDigits(155);
    HexChannelDigits(255);
    HexChannelDigits(5);
  }

  // ---------------------------------------------------------------------------
  // CMYK <-> RGB
  // ---------------------------------------------------------------------------

  predicate Unit(x: real) { 0.0 <= x <= 1.0 }

  predicate InByteRange(x: real) { 0.0 <= x <= 255.0 }

  /** `cmykValueToRgb`: each channel is `255 (1 - ink)(1 - key)`. */
  function CmykValueToRgb(cyan: real, magenta: real, yellow: real, key: real): (rgb: (real, real, real))
    ensures Unit(cyan) && Unit(magenta) && Unit(yellow) && Unit(key) ==>
      InByteRange(rgb.0) && InByteRange(rgb.1) && InByteRange(rgb.2)
    ensures key == 1.0 ==> rgb == (0.0, 0.0, 0.0)
    ensures key == 0.0 ==> rgb.0 == 255.0 * (1.0 - cyan)
  {
    InkBounds(cyan, key);
    InkBounds(magenta, key);
    InkBounds(yellow, key);
    (255.0 * (1.0 - cyan) * (1.0 - key),
     255.0 * (1.0 - magenta) * (1.0 - key),
     255.0 * (1.0 - yellow) * (1.0 - key))
  }

  lemma InkBounds(ink: real, key: real)
    ensures Unit(ink) && Unit(key) ==> InByteRange(255.0 * (1.0 - ink) * (1.0 - key))
  {
    if Unit(ink) && Unit(key) {
      var a, b := 1.0 - ink, 1.0 - key;
      assert 0.0 <= a * b <= 1.0 by {
        assert 0.0 <= a * b;
        assert a * b <= 1.0 * b;
      }
      assert 255.0 * a * b == 255.0 * (a * b);
    }
  }

  /** The CMYK of an RGB triple, stated directly: the key is what the brightest channel
      lacks of full intensity, and each ink is the share of the brightest channel that
      its own channel lacks. */
  function CmykOf(red: real, green: real, blue: real): (cmyk: (real, real, real, real))
    requires Max3(red, green, blue) > 0.0
  {
    var top := Max3(red, green, blue);
    ((top - red) / top, (top - green) / top, (top - blue) / top, 1.0 - top / 255.0)
  }

  /** `rgbValueToCmyk`, which divides by zero for black: the precondition excludes it. */
  method RgbValueToCmyk(red: real, green: real, blue: real) returns (cmyk: (real, real, real, real))
    requires Max3(red, green, blue) > 0.0
    ensures cmyk == CmykOf(red, green, blue)
  {
    var r, g, b := red, green, blue;
    r := r / 255.0;
    g := g / 255.0;
    b := b / 255.0;
    var black := 1.0 - Max3(r, g, b);
    var keyNeg := 1.0 - black;
    assert keyNeg == Max3(red, green, blue) / 255.0;
    InkShare(red, Max3(red, green, blue));
    InkShare(green, Max3(red, green, blue));
    InkShare(blue, Max3(red, green, blue));
    cmyk := ((keyNeg - r) / keyNeg, (keyNeg - g) / keyNeg, (keyNeg - b) / keyNeg, black);
  }

  lemma InkShare(x: real, top: real)
    requires top > 0.0
    ensures (top / 255.0 - x / 255.0) / (top / 255.0) == (top - x) / top
  {
    assert top / 255.0 - x / 255.0 == (top - x) / 255.0;
  }

  /** The brightest channel gets no ink, and for channels in 0..255 every value is a
      fraction in [0, 1]. */
  lemma CmykOfBounds(red: real, green: real, blue: real)
    requires Max3(red, green, blue) > 0.0
    ensures var cmyk := CmykOf(red, green, blue);
      (red == Max3(red, green, blue) ==> cmyk.0 == 0.0) &&
      (green == Max3(red, green, blue) ==> cmyk.1 == 0.0) &&
      (blue == Max3(red, green, blue) ==> cmyk.2 == 0.0)
    ensures InByteRange(red) && InByteRange(green) && InByteRange(blue) ==>
      var cmyk := CmykOf(red, green, blue);
      Unit(cmyk.0) && Unit(cmyk.1) && Unit(cmyk.2) && Unit(cmyk.3)
  {
    var top := Max3(red, green, blue);
    if InByteRange(red) && InByteRange(green) && InByteRange(blue) {
      ShareBounds(red, top);
      ShareBounds(green, top);
      ShareBounds(blue, top);
    }
  }

  lemma ShareBounds(x: real, top: real)
    requires 0.0 <= x <= top && top > 0.0
    ensures Unit((top - x) / top)
  {
  }

  /** Converting RGB (not black) to CMYK and back gives the same channels. */
  lemma CmykRoundTrip(red: real, green: real, blue: real)
    requires Max3(red, green, blue) > 0.0
    ensures var cmyk := CmykOf(red, green, blue);
      CmykValueToRgb(cmyk.0, cmyk.1, cmyk.2, cmyk.3) == (red, green, blue)
  {
    var top := Max3(red, green, blue);
    var cmyk := CmykOf(red, green, blue);
    InkBack(red, top);
    InkBack(green, top);
    InkBack(blue, top);
    assert CmykValueToRgb(cmyk.0, cmyk.1, cmyk.2, cmyk.3).0 == red;
    assert CmykValueToRgb(cmyk.0, cmyk.1, cmyk.2, cmyk.3).1 == green;
    assert CmykValueToRgb(cmyk.0, cmyk.1, cmyk.2, cmyk.3).2 == blue;
  }

  lemma InkBack(x: real, top: real)
    requires top > 0.0
    ensures 255.0 * (1.0 - (top - x) / top) * (1.0 - (1.0 - top / 255.0)) == x
  {
  }

  // ---------------------------------------------------------------------------
  // HSL -> RGB
  // ---------------------------------------------------------------------------

  /** A fraction of full intensity as a channel: `round($v * 255)`; a fraction in [0, 1]
      gives a channel in 0..255. */
  function Channel(v: real): (channel: int)
    ensures Unit(v) ==> 0 <= channel <= 255
  {
    Round(v * 255.0)
  }

  /** `(360 + ($hue % 360)) % 360`: the hue truncated to an integer and brought into
      [0, 360) by whole turns. */
  function HueNormal(hue: real): (h: int)
    ensures 0 <= h < 360
    ensures (Truncate(hue) - h) % 360 == 0
  {
    var t := Truncate(hue);
    var u := 360 + FloatRem(hue, 360);
    var q := Turns(t);
    RemTurns(t);
    assert 0 < u < 720;
    var h := Rem(u, 360);
    assert h == if u < 360 then u else u - 360;
    assert t - h == 360 * (if u < 360 then q - 1 else q);
    h
  }

  /** The whole turns PHP's `t % 360` takes off `t`. */
  function Turns(t: int): int
  {
    if t >= 0 then t / 360 else -((-t) / 360)
  }

  lemma RemTurns(t: int)
    ensures t - Rem(t, 360) == 360 * Turns(t)
  {
  }

  /** `$c`: the chroma. */
  function Chroma(saturation: real, lightness: real): real
  {
    (1.0 - Abs(2.0 * (lightness / 100.0) - 1.0)) * (saturation / 100.0)
  }

  /** `$x`: the second-largest component, rising and falling with the hue. */
  function HueSecond(c: real, h: int): real
    requires h >= 0
  {
    c * (1.0 - Abs(Fmod(h as real / 60.0, 2.0) - 1.0))
  }

  /** `$m`: what is added to every component to reach the lightness. */
  function LightOffset(lightness: real, c: real): real
  {
    lightness / 100.0 - c / 2.0
  }

  /** `hslValueToRgb`. The six `if`s cover every normalised hue, so the source never falls
      off the end; for saturation and lightness in [0, 100] every channel is in 0..255, and
      with no saturation the three channels are the same grey. */
  function HslValueToRgb(hue: real, saturation: real, lightness: real): (rgb: (int, int, int))
    ensures 0.0 <= saturation <= 100.0 && 0.0 <= lightness <= 100.0 ==>
      0 <= rgb.0 <= 255 && 0 <= rgb.1 <= 255 && 0 <= rgb.2 <= 255
    ensures saturation == 0.0 ==>
      rgb.0 == rgb.1 == rgb.2 == Round(lightness * 2.55)
  {
    var h := HueNormal(hue);
    var c := Chroma(saturation, lightness);
    var x := HueSecond(c, h);
    var m := LightOffset(lightness, c);
    HslComponentBounds(saturation, lightness, h);
    if 0 <= h <= 60 then (Channel(c + m), Channel(x + m), Channel(m))
    else if 60 < h <= 120 then (Channel(x + m), Channel(c + m), Channel(m))
    else if 120 < h <= 180 then (Channel(m), Channel(c + m), Channel(x + m))
    else if 180 < h <= 240 then (Channel(m), Channel(x + m), Channel(c + m))
    else if 240 < h <= 300 then (Channel(x + m), Channel(m), Channel(c + m))
    else (Channel(c + m), Channel(m), Channel(x + m))
  }

  /** The three components `c + m`, `x + m` and `m` are fractions in [0, 1], and they
      coincide when there is no saturation. */
  lemma HslComponentBounds(saturation: real, lightness: real, h: int)
    requires h >= 0
    ensures var c := Chroma(saturation, lightness);
      var x := HueSecond(c, h);
      var m := LightOffset(lightness, c);
      (0.0 <= saturation <= 100.0 && 0.0 <= lightness <= 100.0 ==>
         Unit(c + m) && Unit(x + m) && Unit(m)) &&
      (saturation == 0.0 ==> c + m == x + m == m && m * 255.0 == lightness * 2.55)
  {
    var c := Chroma(saturation, lightness);
    ChromaBounds(saturation, lightness);
    HueSecondBounds(c, h);
  }

  lemma ChromaBounds(saturation: real, lightness: real)
    ensures var c := Chroma(saturation, lightness);
      (0.0 <= saturation <= 100.0 && 0.0 <= lightness <= 100.0 ==>
         0.0 <= c && 0.0 <= LightOffset(lightness, c) && c + LightOffset(lightness, c) <= 1.0) &&
      (saturation == 0.0 ==> c == 0.0)
  {
    var a := 1.0 - Abs(2.0 * (lightness / 100.0) - 1.0);
    if 0.0 <= saturation <= 100.0 && 0.0 <= lightness <= 100.0 {
      ScaledDown(a, saturation / 100.0);
    }
  }

  lemma HueSecondBounds(c: real, h: int)
    requires h >= 0
    ensures 0.0 <= c ==> 0.0 <= HueSecond(c, h) <= c
    ensures c == 0.0 ==> HueSecond(c, h) == 0.0
  {
    var w := 1.0 - Abs(Fmod(h as real / 60.0, 2.0) - 1.0);
    assert 0.0 <= w <= 1.0;
    if 0.0 <= c {
      ScaledDown(c, w);
    }
  }

  lemma ScaledDown(a: real, f: real)
    requires 0.0 <= a && Unit(f)
    ensures 0.0 <= a * f <= a
  {
  }

  /** Hues whose integer parts differ by whole turns give the same colour; in particular
      0 and 360, and -1 and 359. */
  lemma HslHueTurns(hue1: real, hue2: real, saturation: real, lightness: real)
    requires (Truncate(hue1) - Truncate(hue2)) % 360 == 0
    ensures HslValueToRgb(hue1, saturation, lightness) == HslValueToRgb(hue2, saturation, lightness)
  {
    var h1, h2 := HueNormal(hue1), HueNormal(hue2);
    SameResidue(Truncate(hue1), Truncate(hue2), h1, h2);
  }

  lemma SameResidue(t1: int, t2: int, h1: int, h2: int)
    requires 0 <= h1 < 360 && 0 <= h2 < 360
    requires (t1 - h1) % 360 == 0 && (t2 - h2) % 360 == 0 && (t1 - t2) % 360 == 0
    ensures h1 == h2
  {
    var k1, k2, k := (t1 - h1) / 360, (t2 - h2) / 360, (t1 - t2) / 360;
    assert t1 - h1 == 360 * k1 && t2 - h2 == 360 * k2 && t1 - t2 == 360 * k;
    assert h1 - h2 == 360 * (k - k1 + k2);
  }

  lemma HslHueExamples(saturation: real, lightness: real)
    ensures HslValueToRgb(0.0, saturation, lightness) == HslValueToRgb(360.0, saturation, lightness)
    ensures HslValueToRgb(-1.0, saturation, lightness) == HslValueToRgb(359.0, saturation, lightness)
  {
    HslHueTurns(0.0, 360.0, saturation, lightness);
    HslHueTurns(-1.0, 359.0, saturation, lightness);
  }

  /** hsl(55, 55%, 67%) is rgb(217, 209, 125). */
  lemma HslExample()
    ensures HslValueToRgb(55.0, 55.0, 67.0) == (217, 209, 125)
  {
    assert HueNormal(55.0) == 55;
    var c := Chroma(55.0, 67.0);
    assert c == 0.363;
    Fmod55();
    assert HueSecond(c, 55) == 0.33275;
    assert LightOffset(67.0, c) == 0.4885;
    assert Channel(0.8515) == 217;
    assert Channel(0.82125) == 209;
    assert Channel(0.4885) == 125;
  }

  lemma Fmod55()
    ensures Fmod(55.0 / 60.0, 2.0) == 55.0 / 60.0
  {
    assert Truncate(55.0 / 60.0 / 2.0) == 0;
  }

  /** hsl(55, 0%, 50%) is the grey rgb(128, 128, 128). */
  lemma HslGreyExample()
    ensures HslValueToRgb(55.0, 0.0, 50.0) == (128, 128, 128)
  {
    assert Round(50.0 * 2.55) == 128;
  }

  // ---------------------------------------------------------------------------
  // HSB -> RGB
  // ---------------------------------------------------------------------------

  /** Where the two loops of `hsbValueToRgb` leave the hue: a hue above 360 loses whole
      turns until it is in (0, 360], a negative one gains them until it is in [0, 360),
      and any other hue is kept. */
  function WrappedHue(hue: real): (h: real)
    ensures 0.0 <= h <= 360.0
    ensures hue > 360.0 ==> 0.0 < h
    ensures hue < 0.0 ==> h < 360.0
    ensures 0.0 <= hue <= 360.0 ==> h == hue
  {
    if hue > 360.0 then
      var turns := -((-hue / 360.0).Floor) - 1;
      TurnsDown(hue, turns);
      hue - 360.0 * turns as real
    else if hue < 0.0 then
      var turns := -((hue / 360.0).Floor);
      TurnsUp(hue, turns);
      hue + 360.0 * turns as real
    else hue
  }

  lemma TurnsDown(hue: real, turns: int)
    requires hue > 360.0 && turns == -((-hue / 360.0).Floor) - 1
    ensures 0.0 < hue - 360.0 * turns as real <= 360.0
  {
    var q := -hue / 360.0;
    assert q.Floor as real <= q < q.Floor as real + 1.0;
  }

  lemma TurnsUp(hue: real, turns: int)
    requires hue < 0.0 && turns == -((hue / 360.0).Floor)
    ensures 0.0 <= hue + 360.0 * turns as real < 360.0
  {
    var q := hue / 360.0;
    assert q.Floor as real <= q < q.Floor as real + 1.0;
  }

  /** The same hue as the loops leave it, given how many turns they took. */
  lemma WrappedHueUnique(hue: real, h: real, turns: int)
    requires h == hue - 360.0 * turns as real
    requires hue > 360.0 ==> 0.0 < h <= 360.0
    requires hue < 0.0 ==> 0.0 <= h < 360.0
    requires 0.0 <= hue <= 360.0 ==> turns == 0
    ensures h == WrappedHue(hue)
  {
    if hue > 360.0 {
      assert -hue / 360.0 == -(turns as real) - h / 360.0;
      assert (-hue / 360.0).Floor == -turns - 1;
    } else if hue < 0.0 {
      assert hue / 360.0 == turns as real + h / 360.0;
      assert (hue / 360.0).Floor == turns;
    }
  }

  /** The six sectors of `hsbValueToRgb` as written, for a hue, saturation and brightness
      already scaled to fractions: `floor($hue * 6)` picks the sector, and every sector
      but 0..4 takes the last branch. */
  function HsbSectorsAsWritten(hue: real, saturation: real, brightness: real): (rgb: (int, int, int))
    ensures Unit(hue) && Unit(saturation) && Unit(brightness) ==>
      0 <= rgb.0 <= 255 && 0 <= rgb.1 <= 255 && 0 <= rgb.2 <= 255
    ensures saturation == 0.0 ==> rgb.0 == rgb.1 == rgb.2 == Channel(brightness)
  {
    if saturation == 0.0 then
      (Channel(brightness), Channel(brightness), Channel(brightness))
    else
      var sector := hue * 6.0;
      var i := Floor(sector);
      var v := SectorComponents(i, sector - i as real, saturation, brightness);
      SectorComponentsUnit(i, sector - i as real, saturation, brightness);
      (Channel(v.0), Channel(v.1), Channel(v.2))
  }

  /** `$brightness * (1 - $x)`. */
  function Dim(brightness: real, x: real): real { brightness * (1.0 - x) }

  /** The arrangement of the brightness and the three dimmed components in sector `i`. */
  function Sector(i: int, b: real, v1: real, v2: real, v3: real): (real, real, real)
  {
    if i == 0 then (b, v3, v1)
    else if i == 1 then (v2, b, v1)
    else if i == 2 then (v1, b, v3)
    else if i == 3 then (v1, v2, b)
    else if i == 4 then (v3, v1, b)
    else (b, v1, v2)
  }

  /** `$var_R`, `$var_G`, `$var_B` for sector `i` at offset `f` into it: `$var_1`,
      `$var_2` and `$var_3` are the brightness dimmed by the saturation, by its share `f`
      and by its share `1 - f`. */
  function SectorComponents(i: int, f: real, saturation: real, brightness: real): (real, real, real)
  {
    Sector(i, brightness, Dim(brightness, saturation), Dim(brightness, saturation * f),
      Dim(brightness, saturation * (1.0 - f)))
  }

  lemma SectorComponentsUnit(i: int, f: real, saturation: real, brightness: real)
    ensures Unit(f) && Unit(saturation) && Unit(brightness) ==>
      var v := SectorComponents(i, f, saturation, brightness);
      Unit(v.0) && Unit(v.1) && Unit(v.2)
  {
    if Unit(f) && Unit(saturation) && Unit(brightness) {
      UnitProduct(saturation, f);
      UnitProduct(saturation, 1.0 - f);
      DimUnit(brightness, saturation);
      DimUnit(brightness, saturation * f);
      DimUnit(brightness, saturation * (1.0 - f));
    }
  }

  lemma DimUnit(b: real, x: real)
    requires Unit(b) && Unit(x)
    ensures Unit(Dim(b, x))
  {
    UnitProduct(b, 1.0 - x);
  }

  lemma UnitProduct(a: real, b: real)
    requires Unit(a) && Unit(b)
    ensures Unit(a * b)
  {
    ScaledDown(a, b);
  }

  /** The sectors with the full turn counted as no turn: a hue of exactly 1 (360 degrees)
      is treated as 0, as the conversion's hue range [0, 360] requires. */
  function HsbSectors(hue: real, saturation: real, brightness: real): (rgb: (int, int, int))
    ensures Unit(hue) && Unit(saturation) && Unit(brightness) ==>
      0 <= rgb.0 <= 255 && 0 <= rgb.1 <= 255 && 0 <= rgb.2 <= 255
    ensures saturation == 0.0 ==> rgb.0 == rgb.1 == rgb.2 == Channel(brightness)
    ensures hue != 1.0 ==> rgb == HsbSectorsAsWritten(hue, saturation, brightness)
  {
    HsbSectorsAsWritten(if hue == 1.0 then 0.0 else hue, saturation, brightness)
  }

  /** As written, a full turn lands in the last sector: hsb(360, 100%, 100%) comes out
      magenta, while hsb(0, 100%, 100%) is red. */
  lemma HsbFullTurnAsWritten()
    ensures HsbSectorsAsWritten(1.0, 1.0, 1.0) == (255, 0, 255)
    ensures HsbSectorsAsWritten(0.0, 1.0, 1.0) == (255, 0, 0)
  {
    assert Floor(6.0) == 6;
    assert Floor(0.0) == 0;
  }

  /** Corrected, a full turn is the same colour as no turn, for every saturation and
      brightness. */
  lemma HsbFullTurn(saturation: real, brightness: real)
    ensures HsbSectors(1.0, saturation, brightness) == HsbSectors(0.0, saturation, brightness)
    ensures HsbSectors(1.0, 1.0, 1.0) == (255, 0, 0)
  {
    HsbFullTurnAsWritten();
  }

  /** What `hsbValueToRgb` computes: the hue brought into [0, 360], then hue, saturation
      and brightness scaled to fractions and the sectors applied as written. Every channel
      is a byte, and no saturation gives the grey `round(brightness * 2.55)`. */
  function HsbToRgb(hue: real, saturation: real, brightness: real): (rgb: (int, int, int))
    ensures 0.0 <= saturation <= 100.0 && 0.0 <= brightness <= 100.0 ==>
      0 <= rgb.0 <= 255 && 0 <= rgb.1 <= 255 && 0 <= rgb.2 <= 255
    ensures saturation == 0.0 ==> rgb.0 == rgb.1 == rgb.2 == Round(brightness * 2.55)
  {
    assert brightness / 100.0 * 255.0 == brightness * 2.55;
    HsbSectorsAsWritten(WrappedHue(hue) / 360.0, saturation / 100.0, brightness / 100.0)
  }

  /** The conversion with a full turn counted as no turn: it agrees with `hsbValueToRgb`
      wherever the loops leave the hue short of 360, and where they leave it at exactly
      360 it gives the colour of hue 0. */
  function HsbToRgbCorrected(hue: real, saturation: real, brightness: real): (rgb: (int, int, int))
    ensures 0.0 <= saturation <= 100.0 && 0.0 <= brightness <= 100.0 ==>
      0 <= rgb.0 <= 255 && 0 <= rgb.1 <= 255 && 0 <= rgb.2 <= 255
    ensures WrappedHue(hue) != 360.0 ==> rgb == HsbToRgb(hue, saturation, brightness)
    ensures WrappedHue(hue) == 360.0 ==> rgb == HsbToRgb(0.0, saturation, brightness)
  {
    HsbSectors(WrappedHue(hue) / 360.0, saturation / 100.0, brightness / 100.0)
  }

  /** Every whole number of turns, not only 360 but 720, 1080 and so on, is brought down
      to exactly 360 by the loops, so each of them comes out magenta at full saturation
      and brightness where the corrected conversion gives red. */
  lemma HsbWholeTurnsAsWritten(turns: nat)
    requires turns >= 1
    ensures WrappedHue(360.0 * turns as real) == 360.0
    ensures HsbToRgb(360.0 * turns as real, 100.0, 100.0) == (255, 0, 255)
    ensures HsbToRgbCorrected(360.0 * turns as real, 100.0, 100.0) == (255, 0, 0)
  {
    var hue := 360.0 * turns as real;
    WrappedHueUnique(hue, 360.0, turns - 1);
    HsbFullTurnAsWritten();
    assert HsbToRgb(hue, 100.0, 100.0) == HsbSectorsAsWritten(1.0, 1.0, 1.0);
    assert HsbToRgb(0.0, 100.0, 100.0) == HsbSectorsAsWritten(0.0, 1.0, 1.0);
  }

  /** `hsbValueToRgb`: the loops bring the hue into [0, 360], then hue, saturation and
      brightness are scaled to fractions and the sector formulas applied. */
  method HsbValueToRgb(hue: real, saturation: real, brightness: real) returns (rgb: (int, int, int))
    ensures rgb == HsbToRgb(hue, saturation, brightness)
  {
    var h := hue;
    ghost var turns := 0;
    while h > 360.0
      invariant h == hue - 360.0 * turns as real
      invariant hue > 360.0 ==> 0.0 < h
      invariant hue <= 360.0 ==> turns == 0
      decreases h.Floor
    {
      h := h - 360.0;
      turns := turns + 1;
    }
    while h < 0.0
      invariant h == hue - 360.0 * turns as real
      invariant hue > 360.0 ==> 0.0 < h <= 360.0
      invariant hue < 0.0 ==> h < 360.0
      invariant 0.0 <= hue <= 360.0 ==> turns == 0
      decreases (-h).Floor
    {
      h := h + 360.0;
      turns := turns - 1;
    }
    WrappedHueUnique(hue, h, turns);
    h := h / 360.0;
    var s := saturation / 100.0;
    var b := brightness / 100.0;
    rgb := HsbSectorsAsWritten(h, s, b);
    HsbScaled(hue, saturation, brightness);
  }

  lemma HsbScaled(hue: real, saturation: real, brightness: real)
    ensures HsbToRgb(hue, saturation, brightness) ==
      HsbSectorsAsWritten(WrappedHue(hue) / 360.0, saturation / 100.0, brightness / 100.0)
  {
  }

  /** hsb(50, 50%, 50%) is rgb(128, 117, 64), and no saturation gives the grey
      `round(brightness * 2.55)`. */
  lemma HsbExamples(hue: real, brightness: real)
    ensures HsbSectorsAsWritten(50.0 / 360.0, 0.5, 0.5) == (128, 117, 64)
    ensures var rgb := HsbSectorsAsWritten(hue, 0.0, brightness / 100.0);
      rgb.0 == rgb.1 == rgb.2 == Round(brightness * 2.55)
  {
    assert Floor(50.0 / 360.0 * 6.0) == 0;
    assert Channel(0.5) == 128;
    assert Channel(11.0 / 24.0) == 117;
    assert Channel(0.25) == 64;
    assert brightness / 100.0 * 255.0 == brightness * 2.55;
  }

  // ---------------------------------------------------------------------------
  // RGB -> HSL
  // ---------------------------------------------------------------------------

  /** The hue when red is the brightest channel, as written: `60 * fmod(($g - $b) / $delta, 6)`.
      `fmod` keeps the sign of its dividend, so the hue is negative whenever blue exceeds
      green. */
  function RedSectorHueAsWritten(r: real, g: real, b: real, delta: real): (hue: real)
    requires delta > 0.0
    ensures -delta <= g - b <= delta ==> -60.0 <= hue <= 60.0 && (hue < 0.0 <==> g < b)
  {
    var x := (g - b) / delta;
    FractionOfSpan(g - b, delta);
    QuotientSignOf(g - b, delta);
    FmodWithinTurn(x);
    60.0 * Fmod(x, 6.0)
  }

  lemma QuotientSignOf(x: real, delta: real)
    requires delta > 0.0
    ensures x / delta < 0.0 <==> x < 0.0
  {
  }

  /** `fmod` leaves a dividend smaller than the divisor as it is. */
  lemma FmodWithinTurn(x: real)
    ensures -1.0 <= x <= 1.0 ==> Fmod(x, 6.0) == x
  {
    if -1.0 <= x <= 1.0 {
      assert Truncate(x / 6.0) == 0;
    }
  }

  /** The same hue brought into [0, 360), as the other two sectors' hues already are. */
  function RedSectorHue(r: real, g: real, b: real, delta: real): (hue: real)
    requires delta > 0.0
    ensures -delta <= g - b <= delta ==> 0.0 <= hue < 360.0
  {
    var h := RedSectorHueAsWritten(r, g, b, delta);
    FractionOfSpan(g - b, delta);
    if h < 0.0 then h + 360.0 else h
  }

  lemma FractionOfSpan(x: real, delta: real)
    requires delta > 0.0
    ensures -delta <= x <= delta ==> -1.0 <= x / delta <= 1.0
  {
  }

  /** rgb(220, 53, 69): as written the hue is -5.75..., outside the hue range, where the
      corrected sector gives 354.25... . */
  lemma RedSectorHueExample()
    ensures RedSectorHueAsWritten(220.0 / 255.0, 53.0 / 255.0, 69.0 / 255.0, 167.0 / 255.0) == -960.0 / 167.0
    ensures RedSectorHue(220.0 / 255.0, 53.0 / 255.0, 69.0 / 255.0, 167.0 / 255.0) == 360.0 - 960.0 / 167.0
  {
    var q := (53.0 / 255.0 - 69.0 / 255.0) / (167.0 / 255.0);
    assert q == -16.0 / 167.0;
    assert Truncate(q / 6.0) == 0;
    assert Fmod(q, 6.0) == q;
  }

  /** The HSL hue of fractions `r`, `g`, `b`, in degrees, as written. The source's three
      `if`s run in order and the last that applies wins, so a tie for the brightest
      channel goes to blue, then green, then red. The hue is below 0 exactly when red is
      the only brightest channel and blue exceeds green. */
  function HslHue(r: real, g: real, b: real): (hue: real)
    ensures -60.0 <= hue < 360.0
    ensures hue < 0.0 <==> r > g && r > b && b > g
    ensures r == g == b ==> hue == 0.0
  {
    var top := Max3(r, g, b);
    var delta := top - Min3(r, g, b);
    if delta == 0.0 then 0.0
    else
      FractionOfSpan(r - g, delta);
      FractionOfSpan(b - r, delta);
      FractionOfSpan(g - b, delta);
      if b == top then 60.0 * ((r - g) / delta + 4.0)
      else if g == top then 60.0 * ((b - r) / delta + 2.0)
      else RedSectorHueAsWritten(r, g, b, delta)
  }

  /** Ties for the brightest channel: the later `if` overwrites the earlier, so the green
      formula decides a red–green tie and the blue formula every tie with blue. The order
      matters where red and blue tie: the red formula alone would give `fmod(-1, 6)`
      sixths of a turn, -60, where the blue one gives 300. */
  lemma HslHueTies(r: real, g: real, b: real)
    ensures r == g > b ==> HslHue(r, g, b) == 60.0 * ((b - r) / (r - b) + 2.0) == 60.0
    ensures g == b > r ==> HslHue(r, g, b) == 60.0 * ((r - g) / (g - r) + 4.0) == 180.0
    ensures r == b > g ==> HslHue(r, g, b) == 60.0 * ((r - g) / (r - g) + 4.0) == 300.0
    ensures r == b > g ==> RedSectorHueAsWritten(r, g, b, r - g) == -60.0
  {
    if r == g > b {
      assert Max3(r, g, b) == g && Min3(r, g, b) == b;
      NegatedOverSelf(b - r, r - b);
    } else if g == b > r {
      assert Max3(r, g, b) == b && Min3(r, g, b) == r;
      NegatedOverSelf(r - g, g - r);
    } else if r == b > g {
      assert Max3(r, g, b) == b && Min3(r, g, b) == g;
      NegatedOverSelf(g - b, r - g);
      var x := (g - b) / (r - g);
      assert Truncate(x / 6.0) == 0;
      assert Fmod(x, 6.0) == -1.0;
    }
  }

  lemma NegatedOverSelf(x: real, d: real)
    requires d > 0.0 && x == -d
    ensures x / d == -1.0 && d / d == 1.0
  {
  }

  /** The hue with the red sector brought into [0, 360): it is the hue as written, a whole
      turn higher where that is negative. */
  function HslHueCorrected(r: real, g: real, b: real): (hue: real)
    ensures 0.0 <= hue < 360.0
    ensures hue == if HslHue(r, g, b) < 0.0 then HslHue(r, g, b) + 360.0 else HslHue(r, g, b)
  {
    var top := Max3(r, g, b);
    var delta := top - Min3(r, g, b);
    if delta == 0.0 then 0.0
    else
      FractionOfSpan(r - g, delta);
      FractionOfSpan(b - r, delta);
      if b == top then 60.0 * ((r - g) / delta + 4.0)
      else if g == top then 60.0 * ((b - r) / delta + 2.0)
      else RedSectorHue(r, g, b, delta)
  }

  /** `$lightness`: the mean of the brightest and the darkest channel. */
  function HslLightness(r: real, g: real, b: real): real
  {
    (Max3(r, g, b) + Min3(r, g, b)) / 2.0
  }

  /** `$saturation`: the channel spread relative to what the lightness allows; 0 for
      black and white. */
  function HslSaturation(r: real, g: real, b: real): (saturation: real)
    ensures saturation >= 0.0
  {
    var lightness := HslLightness(r, g, b);
    if 0.0 < lightness < 1.0 then
      SpreadNonNegative(Max3(r, g, b) - Min3(r, g, b), 1.0 - Abs(2.0 * lightness - 1.0));
      (Max3(r, g, b) - Min3(r, g, b)) / (1.0 - Abs(2.0 * lightness - 1.0))
    else 0.0
  }

  lemma ZeroOver(room: real)
    requires room > 0.0
    ensures 0.0 / room == 0.0
  {
  }

  lemma SpreadNonNegative(spread: real, room: real)
    requires spread >= 0.0 && room > 0.0
    ensures spread / room >= 0.0
  {
  }

  /** The HSL of channels `red`, `green`, `blue` (0..255): hue in degrees, saturation and
      lightness in percent, each capped at 100. */
  function RgbToHsl(red: real, green: real, blue: real): (hsl: (real, real, real))
  {
    var r, g, b := red / 255.0, green / 255.0, blue / 255.0;
    (HslHue(r, g, b), MinReal(HslSaturation(r, g, b), 1.0) * 100.0, MinReal(HslLightness(r, g, b), 1.0) * 100.0)
  }

  /** `rgbValueToHsl`. */
  method RgbValueToHsl(red: real, green: real, blue: real) returns (hsl: (real, real, real))
    ensures hsl == RgbToHsl(red, green, blue)
  {
    var r := red / 255.0;
    var g := green / 255.0;
    var b := blue / 255.0;
    var cmax := Max3(r, g, b);
    var cmin := Min3(r, g, b);
    var delta := cmax - cmin;
    var hue := 0.0;
    if delta != 0.0 {
      if r == cmax {
        hue := RedSectorHueAsWritten(r, g, b, delta);
      }
      if g == cmax {
        hue := 60.0 * ((b - r) / delta + 2.0);
      }
      if b == cmax {
        hue := 60.0 * ((r - g) / delta + 4.0);
      }
    }
    var lightness := (cmax + cmin) / 2.0;
    var saturation := 0.0;
    if lightness > 0.0 && lightness < 1.0 {
      saturation := delta / (1.0 - Abs(2.0 * lightness - 1.0));
    }
    assert hue == HslHue(r, g, b);
    assert lightness == HslLightness(r, g, b);
    SaturationSteps(r, g, b, delta, lightness, saturation);
    hsl := (hue, MinReal(saturation, 1.0) * 100.0, MinReal(lightness, 1.0) * 100.0);
    HslAssembled(red, green, blue, r, g, b, hue, saturation, lightness);
  }

  /** The saturation as the method computes it from the spread and the lightness. */
  lemma SaturationSteps(r: real, g: real, b: real, delta: real, lightness: real, saturation: real)
    requires delta == Max3(r, g, b) - Min3(r, g, b) && lightness == HslLightness(r, g, b)
    requires saturation == if 0.0 < lightness < 1.0 then delta / (1.0 - Abs(2.0 * lightness - 1.0)) else 0.0
    ensures saturation == HslSaturation(r, g, b)
  {
  }

  /** The HSL triple from its three parts computed on the channel fractions. */
  lemma HslAssembled(red: real, green: real, blue: real, r: real, g: real, b: real, hue: real, saturation: real, lightness: real)
    requires r == red / 255.0 && g == green / 255.0 && b == blue / 255.0
    requires hue == HslHue(r, g, b) && saturation == HslSaturation(r, g, b) && lightness == HslLightness(r, g, b)
    ensures RgbToHsl(red, green, blue) == (hue, MinReal(saturation, 1.0) * 100.0, MinReal(lightness, 1.0) * 100.0)
  {
  }

  /** For channels in 0..255 the saturation and lightness are in [0, 100], the hue in
      [-60, 360), and the lightness is the mean of the brightest and darkest channel in
      percent. */
  lemma RgbToHslRanges(red: real, green: real, blue: real)
    requires InByteRange(red) && InByteRange(green) && InByteRange(blue)
    ensures var hsl := RgbToHsl(red, green, blue);
      -60.0 <= hsl.0 < 360.0 && 0.0 <= hsl.1 <= 100.0 && 0.0 <= hsl.2 <= 100.0 &&
      hsl.2 == (Max3(red, green, blue) + Min3(red, green, blue)) / 5.1
  {
    var r, g, b := red / 255.0, green / 255.0, blue / 255.0;
    ScaledMax(red, green, blue);
    assert 0.0 <= HslLightness(r, g, b) <= 1.0;
  }

  lemma ScaledMax(red: real, green: real, blue: real)
    ensures Max3(red / 255.0, green / 255.0, blue / 255.0) == Max3(red, green, blue) / 255.0
    ensures Min3(red / 255.0, green / 255.0, blue / 255.0) == Min3(red, green, blue) / 255.0
  {
  }

  /** Equal channels are a grey: no hue and no saturation. */
  lemma RgbToHslGrey(v: real)
    requires InByteRange(v)
    ensures RgbToHsl(v, v, v) == (0.0, 0.0, v / 2.55)
  {
    var f := v / 255.0;
    assert HslLightness(f, f, f) == f;
    if 0.0 < f < 1.0 {
      ZeroOver(1.0 - Abs(2.0 * f - 1.0));
    }
    assert HslSaturation(f, f, f) == 0.0;
    assert f * 100.0 == v / 2.55;
  }

  // ---------------------------------------------------------------------------
  // RGB -> HSB
  // ---------------------------------------------------------------------------

  /** `round($x, 2)` keeps a fraction in [0, 1]. */
  lemma Round2Unit(x: real)
    requires Unit(x)
    ensures Unit(Round2(x))
  {
    var n := Round(x * 100.0);
    assert 0 <= n <= 100;
  }

  /** `rgbValueToHsb`, which divides by zero when the brightest channel is 0 and another
      is negative: the precondition excludes that. The brightness is the brightest channel as a fraction; equal
      channels have neither hue nor saturation; for channels in 0..255 saturation and
      brightness come out in [0, 100]. Each value is rounded to two decimals before it is
      scaled. */
  method RgbValueToHsb(red: real, green: real, blue: real) returns (hsb: (real, real, real))
    requires Max3(red, green, blue) == 0.0 ==> Min3(red, green, blue) == 0.0
    ensures red == green == blue ==> hsb.0 == 0.0 && hsb.1 == 0.0
    ensures hsb.2 == Round2(Max3(red / 255.0, green / 255.0, blue / 255.0)) * 100.0
    ensures InByteRange(red) && InByteRange(green) && InByteRange(blue) ==>
      0.0 <= hsb.1 <= 100.0 && 0.0 <= hsb.2 <= 100.0
  {
    var r := red / 255.0;
    var g := green / 255.0;
    var b := blue / 255.0;
    ScaledMax(red, green, blue);
    var min := Min3(r, g, b);
    var max := Max3(r, g, b);
    var delMax := max - min;
    var brightness := max;
    var hue := 0.0;
    var saturation;
    if delMax == 0.0 {
      hue := 0.0;
      saturation := 0.0;
    } else {
      saturation := delMax / max;
      var delR := ((max - r) / 6.0 + delMax / 2.0) / delMax;
      var delG := ((max - g) / 6.0 + delMax / 2.0) / delMax;
      var delB := ((max - b) / 6.0 + delMax / 2.0) / delMax;
      if r == max {
        hue := delB - delG;
      } else if g == max {
        hue := 1.0 / 3.0 + delR - delB;
      } else if b == max {
        hue := 2.0 / 3.0 + delG - delR;
      }
      if hue < 0.0 {
        hue := hue + 1.0;
      }
      if hue > 1.0 {
        hue := hue - 1.0;
      }
    }
    if InByteRange(red) && InByteRange(green) && InByteRange(blue) {
      assert Unit(brightness);
      if delMax != 0.0 {
        ShareOfTop(delMax, max);
      }
      Round2Unit(saturation);
      Round2Unit(brightness);
    }
    hsb := (Round2(hue) * 360.0, Round2(saturation) * 100.0, Round2(brightness) * 100.0);
  }

  lemma ShareOfTop(spread: real, top: real)
    requires 0.0 < spread <= top
    ensures Unit(spread / top)
  {
  }
}
