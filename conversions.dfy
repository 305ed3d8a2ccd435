/** The `to...` methods that turn a colour of one class into another: each reads the
    channels of its own colour, converts them with `Convert` where the spaces differ and
    hands them to the target class's constructor, so every one of them can fail exactly as
    that constructor fails. They live in one module because the classes call each other
    both ways (`Hex::toRgb` and `Rgb::toHex`). An optional alpha is a parameter; the
    source's default is 1. */
module Conversions {
  import opened Php
  import opened Errors
  import Convert
  import Hex
  import Rgb
  import Rgba
  import Hsl
  import Hsla
  import Hsb
  import Cmyk

  // ---------------------------------------------------------------------------
  // Hex
  // ---------------------------------------------------------------------------

  /** `Hex::toRgb`: each channel read with `hexChannelToRgbChannel`. Two hex digits never
      exceed 255, so a hex colour always converts. */
  function HexToRgb(c: Hex.Color): (r: Result<Rgb.Color>)
    ensures Hex.Valid(c) ==> r.Ok?
  {
    Rgb.New(Convert.HexChannelToRgbChannel(c.red), Convert.HexChannelToRgbChannel(c.green),
      Convert.HexChannelToRgbChannel(c.blue))
  }

  /** `Hex::toRgba($alpha)`: `toRgb()->toRgba($alpha)`. */
  function HexToRgba(c: Hex.Color, alpha: real): (r: Result<Rgba.Color>)
    ensures Hex.Valid(c) ==> (r.Ok? <==> 0.0 <= alpha <= 1.0)
    ensures Hex.Valid(c) && !(0.0 <= alpha <= 1.0) ==>
      r == Err(Invalid(AlphaChannelValueNotInRange(Truncate(alpha))))
    ensures r.Ok? ==> r.value.alpha == alpha && RgbaToRgb(r.value) == HexToRgb(c)
  {
    var rgb :- HexToRgb(c);
    RgbToRgba(rgb, alpha)
  }

  /** Three channels in 0..255 handed to the `Hex` constructor through
      `rgbChannelToHexChannel`: each becomes its high and its low nibble as lower-case
      digits, and reading the colour back gives the channels. */
  function ChannelsToHex(red: int, green: int, blue: int): (r: Result<Hex.Color>)
    requires 0 <= red <= 255 && 0 <= green <= 255 && 0 <= blue <= 255
    ensures r.Ok? && Hex.Valid(r.value)
    ensures r.value.red == [HexDigitChar(red / 16), HexDigitChar(red % 16)]
    ensures r.value.green == [HexDigitChar(green / 16), HexDigitChar(green % 16)]
    ensures r.value.blue == [HexDigitChar(blue / 16), HexDigitChar(blue % 16)]
    ensures HexToRgb(r.value) == Ok(Rgb.Color(red, green, blue))
  {
    Convert.HexChannelDigits(red);
    Convert.HexChannelDigits(green);
    Convert.HexChannelDigits(blue);
    Convert.HexChannelRoundTrip(red);
    Convert.HexChannelRoundTrip(green);
    Convert.HexChannelRoundTrip(blue);
    var hr, hg, hb := Convert.RgbChannelToHexChannel(red), Convert.RgbChannelToHexChannel(green),
      Convert.RgbChannelToHexChannel(blue);
    Hex.LowerIsLower(hr);
    Hex.LowerIsLower(hg);
    Hex.LowerIsLower(hb);
    Hex.New(hr, hg, hb)
  }

  /** Reading a hex colour and writing its channels in hex again gives the colour. */
  lemma HexRgbHex(c: Hex.Color)
    requires Hex.Valid(c)
    ensures HexToRgb(c).Ok? && RgbToHex(HexToRgb(c).value) == Ok(c)
  {
    Convert.HexTextRoundTrip(c.red);
    Convert.HexTextRoundTrip(c.green);
    Convert.HexTextRoundTrip(c.blue);
    Hex.LowerIsLower(c.red);
    Hex.LowerIsLower(c.green);
    Hex.LowerIsLower(c.blue);
    var rgb := HexToRgb(c).value;
    assert ChannelsToHex(rgb.red, rgb.green, rgb.blue).value == c;
  }

  /** #aabbcc is rgb(170, 187, 204). */
  lemma HexToRgbExample(c: Hex.Color)
    requires c == Hex.Color("aa", "bb", "cc")
    ensures HexToRgb(c) == Ok(Rgb.Color(170, 187, 204))
  {
    assert HexDec("a") == 10 && HexDec("b") == 11 && HexDec("c") == 12;
  }

  // ---------------------------------------------------------------------------
  // Rgb
  // ---------------------------------------------------------------------------

  /** `Rgb::toHex`. */
  function RgbToHex(c: Rgb.Color): (r: Result<Hex.Color>)
    requires Rgb.Valid(c)
    ensures r.Ok? && HexToRgb(r.value) == Ok(c)
  {
    ChannelsToHex(c.red, c.green, c.blue)
  }

  /** rgb(55, 155, 255) is #379bff. */
  lemma RgbToHexExample(c: Rgb.Color)
    requires c == Rgb.Color(55, 155, 255)
    ensures RgbToHex(c) == Ok(Hex.Color("37", "9b", "ff"))
  {
    Convert.HexChannelExamples();
    Hex.LowerIsLower("37");
    Hex.LowerIsLower("9b");
    Hex.LowerIsLower("ff");
  }

  /** The hex colour of three channels, given the digit pairs they print as. */
  lemma ChannelsHexText(red: int, green: int, blue: int, x: string, y: string, z: string)
    requires 0 <= red <= 255 && 0 <= green <= 255 && 0 <= blue <= 255
    requires x == [HexDigitChar(red / 16), HexDigitChar(red % 16)]
    requires y == [HexDigitChar(green / 16), HexDigitChar(green % 16)]
    requires z == [HexDigitChar(blue / 16), HexDigitChar(blue % 16)]
    ensures ChannelsToHex(red, green, blue) == Ok(Hex.Color(x, y, z))
  {
  }

  /** `Rgb::toHsl`: the channels through `rgbValueToHsl`. The saturation and the lightness
      always pass the `Hsl` constructor, which does not check the hue; the hue is in
      [-60, 360), below 0 exactly when red is the only brightest channel and blue exceeds
      green; the lightness is the mean of the brightest and darkest channel in percent,
      and a grey has neither hue nor saturation. */
  function RgbToHsl(c: Rgb.Color): (r: Result<Hsl.Color>)
    requires Rgb.Valid(c)
    ensures r.Ok? && -60.0 <= r.value.hue < 360.0
    ensures r.value.hue < 0.0 <==> c.red > c.green && c.red > c.blue && c.blue > c.green
    ensures r.value.lightness ==
      (Max3(c.red as real, c.green as real, c.blue as real) + Min3(c.red as real, c.green as real, c.blue as real)) / 5.1
    ensures c.red == c.green == c.blue ==> r.value.hue == 0.0 && r.value.saturation == 0.0
  {
    var hsl := Convert.RgbToHsl(c.red as real, c.green as real, c.blue as real);
    Convert.RgbToHslRanges(c.red as real, c.green as real, c.blue as real);
    if c.red == c.green == c.blue then
      Convert.RgbToHslGrey(c.red as real);
      Hsl.New(hsl.0, hsl.1, hsl.2)
    else
      Hsl.New(hsl.0, hsl.1, hsl.2)
  }

  /** `Rgb::toHsla($alpha)`: the same values as `toHsl` and the given alpha. */
  function RgbToHsla(c: Rgb.Color, alpha: real): (r: Result<Hsla.Color>)
    requires Rgb.Valid(c)
    ensures r.Ok? <==> 0.0 <= alpha <= 1.0
    ensures !(0.0 <= alpha <= 1.0) ==> r == Err(Invalid(AlphaChannelValueNotInRange(Truncate(alpha))))
    ensures r.Ok? ==> r.value.alpha == alpha && HslaToHsl(r.value) == RgbToHsl(c)
  {
    var hsl := Convert.RgbToHsl(c.red as real, c.green as real, c.blue as real);
    Convert.RgbToHslRanges(c.red as real, c.green as real, c.blue as real);
    Hsla.New(hsl.0, hsl.1, hsl.2, alpha)
  }

  /** `Rgb::toRgba($alpha)`: the same channels and the given alpha. */
  function RgbToRgba(c: Rgb.Color, alpha: real): (r: Result<Rgba.Color>)
    ensures Rgb.Valid(c) ==> (r.Ok? <==> 0.0 <= alpha <= 1.0)
    ensures Rgb.Valid(c) && !(0.0 <= alpha <= 1.0) ==>
      r == Err(Invalid(AlphaChannelValueNotInRange(Truncate(alpha))))
    ensures r.Ok? ==> r.value.alpha == alpha && RgbaToRgb(r.value) == Ok(c)
  {
    Rgba.New(c.red, c.green, c.blue, alpha)
  }

  // ---------------------------------------------------------------------------
  // Rgba
  // ---------------------------------------------------------------------------

  /** `Rgba::toRgb`: alpha dropped, the channels kept. */
  function RgbaToRgb(c: Rgba.Color): (r: Result<Rgb.Color>)
    ensures Rgba.Valid(c) ==> r.Ok?
  {
    Rgb.New(c.red, c.green, c.blue)
  }

  /** Dropping alpha and attaching it again gives the colour back. */
  lemma RgbaRgbRgba(c: Rgba.Color)
    requires Rgba.Valid(c)
    ensures RgbaToRgb(c).Ok? && RgbToRgba(RgbaToRgb(c).value, c.alpha) == Ok(c)
  {
  }

  /** `Rgba::toHex`: `toRgb()->toHex()`, so the hex colour reads back as the channels. */
  function RgbaToHex(c: Rgba.Color): (r: Result<Hex.Color>)
    requires Rgba.Valid(c)
    ensures r.Ok? && HexToRgb(r.value) == RgbaToRgb(c)
  {
    RgbToHex(RgbaToRgb(c).value)
  }

  // ---------------------------------------------------------------------------
  // Hsl
  // ---------------------------------------------------------------------------

  /** `Hsl::toRgb`: the channels `red()`, `green()` and `blue()`. */
  function HslToRgb(c: Hsl.Color): (r: Result<Rgb.Color>)
    ensures Hsl.Valid(c) ==> r.Ok?
    ensures Hsl.Valid(c) && c.saturation == 0.0 ==>
      var v := Round(c.lightness * 2.55); r == Ok(Rgb.Color(v, v, v))
  {
    Rgb.New(Hsl.Red(c), Hsl.Green(c), Hsl.Blue(c))
  }

  /** `Hsl::toRgba($alpha)`: the channels of `toRgb` and the given alpha. */
  function HslToRgba(c: Hsl.Color, alpha: real): (r: Result<Rgba.Color>)
    ensures Hsl.Valid(c) ==> (r.Ok? <==> 0.0 <= alpha <= 1.0)
    ensures r.Ok? ==> r.value.alpha == alpha && RgbaToRgb(r.value) == HslToRgb(c)
  {
    Rgba.New(Hsl.Red(c), Hsl.Green(c), Hsl.Blue(c), alpha)
  }

  /** `Hsl::toHex`: the channels of `toRgb` in hex (the `$alpha` argument it passes on is
      beyond the `Hex` constructor's three parameters and is dropped). */
  function HslToHex(c: Hsl.Color): (r: Result<Hex.Color>)
    requires Hsl.Valid(c)
    ensures r.Ok? && HexToRgb(r.value) == HslToRgb(c)
  {
    ChannelsToHex(Hsl.Red(c), Hsl.Green(c), Hsl.Blue(c))
  }

  /** `Hsl::toHsla($alpha)`: the same values and the given alpha. */
  function HslToHsla(c: Hsl.Color, alpha: real): (r: Result<Hsla.Color>)
    ensures Hsl.Valid(c) ==> (r.Ok? <==> 0.0 <= alpha <= 1.0)
    ensures Hsl.Valid(c) && !(0.0 <= alpha <= 1.0) ==>
      r == Err(Invalid(AlphaChannelValueNotInRange(Truncate(alpha))))
    ensures r.Ok? ==> r.value.alpha == alpha && HslaToHsl(r.value) == Ok(c)
  {
    Hsla.New(c.hue, c.saturation, c.lightness, alpha)
  }

  /** hsl(55, 55%, 67%) is rgb(217, 209, 125), #d9d17d. */
  lemma HslExample(c: Hsl.Color)
    requires c == Hsl.Color(55.0, 55.0, 67.0)
    ensures HslToRgb(c) == Ok(Rgb.Color(217, 209, 125))
    ensures HslToHex(c) == Ok(Hex.Color("d9", "d1", "7d"))
  {
    Hsl.ChannelsExample(c);
    ChannelsHexText(217, 209, 125, "d9", "d1", "7d");
  }

  // ---------------------------------------------------------------------------
  // Hsla
  // ---------------------------------------------------------------------------

  /** `Hsla::toHsl`: alpha dropped, the rest kept. */
  function HslaToHsl(c: Hsla.Color): (r: Result<Hsl.Color>)
    ensures Hsla.Valid(c) ==> r.Ok?
  {
    Hsl.New(c.hue, c.saturation, c.lightness)
  }

  /** Dropping alpha and attaching it again gives the colour back. */
  lemma HslaHslHsla(c: Hsla.Color)
    requires Hsla.Valid(c)
    ensures HslaToHsl(c).Ok? && HslToHsla(HslaToHsl(c).value, c.alpha) == Ok(c)
  {
  }

  /** `Hsla::toRgb`: the channels, which alpha does not enter. */
  function HslaToRgb(c: Hsla.Color): (r: Result<Rgb.Color>)
    ensures Hsla.Valid(c) ==> r.Ok? && r == HslToRgb(HslaToHsl(c).value)
  {
    Rgb.New(Hsla.Red(c), Hsla.Green(c), Hsla.Blue(c))
  }

  /** `Hsla::toRgba($alpha)`: the channels and the given alpha, not the colour's own. */
  function HslaToRgba(c: Hsla.Color, alpha: real): (r: Result<Rgba.Color>)
    ensures Hsla.Valid(c) ==> (r.Ok? <==> 0.0 <= alpha <= 1.0)
    ensures r.Ok? ==> r.value.alpha == alpha && RgbaToRgb(r.value) == HslaToRgb(c)
  {
    Rgba.New(Hsla.Red(c), Hsla.Green(c), Hsla.Blue(c), alpha)
  }

  /** `Hsla::toHex`: the channels in hex. */
  function HslaToHex(c: Hsla.Color): (r: Result<Hex.Color>)
    requires Hsla.Valid(c)
    ensures r.Ok? && HexToRgb(r.value) == HslaToRgb(c)
  {
    ChannelsToHex(Hsla.Red(c), Hsla.Green(c), Hsla.Blue(c))
  }

  // ---------------------------------------------------------------------------
  // Hsb
  // ---------------------------------------------------------------------------

  /** `Hsb::toRgb`: the channels of `hsbValueToRgb`. */
  function HsbToRgb(c: Hsb.Color): (r: Result<Rgb.Color>)
    ensures Hsb.Valid(c) ==> r.Ok?
    ensures Hsb.Valid(c) && c.saturation == 0.0 ==>
      var v := Round(c.brightness * 2.55); r == Ok(Rgb.Color(v, v, v))
  {
    Rgb.New(Hsb.Red(c), Hsb.Green(c), Hsb.Blue(c))
  }

  /** `Hsb::toRgba($alpha)`: the channels and the given alpha. */
  function HsbToRgba(c: Hsb.Color, alpha: real): (r: Result<Rgba.Color>)
    ensures Hsb.Valid(c) ==> (r.Ok? <==> 0.0 <= alpha <= 1.0)
    ensures r.Ok? ==> r.value.alpha == alpha && RgbaToRgb(r.value) == HsbToRgb(c)
  {
    Rgba.New(Hsb.Red(c), Hsb.Green(c), Hsb.Blue(c), alpha)
  }

  /** hsb(50, 50%, 50%) is rgb(128, 117, 64), #807540. */
  lemma HsbExample(c: Hsb.Color)
    requires c == Hsb.Color(50.0, 50.0, 50.0)
    ensures HsbToRgb(c) == Ok(Rgb.Color(128, 117, 64))
    ensures RgbToHex(HsbToRgb(c).value) == Ok(Hex.Color("80", "75", "40"))
  {
    Hsb.ChannelsExample(c);
    ChannelsHexText(128, 117, 64, "80", "75", "40");
  }

  // ---------------------------------------------------------------------------
  // Cmyk
  // ---------------------------------------------------------------------------

  /** `Cmyk::toRgb`: the three values of `cmykValueToRgb`, truncated by the `int`
      parameters of the `Rgb` constructor; full key is black. */
  function CmykToRgb(c: Cmyk.Color): (r: Result<Rgb.Color>)
    ensures Cmyk.Valid(c) ==> r.Ok?
    ensures c.key == 1.0 ==> r == Ok(Rgb.Color(0, 0, 0))
  {
    Rgb.New(Cmyk.Red(c), Cmyk.Green(c), Cmyk.Blue(c))
  }

  /** cmyk(17%, 8%, 0%, 20%) is rgb(169, 187, 204), #a9bbcc. */
  lemma CmykExample(c: Cmyk.Color)
    requires c == Cmyk.Color(0.17, 0.08, 0.0, 0.2)
    ensures CmykToRgb(c) == Ok(Rgb.Color(169, 187, 204))
    ensures RgbToHex(CmykToRgb(c).value) == Ok(Hex.Color("a9", "bb", "cc"))
  {
    Cmyk.ChannelsExample(c);
    ChannelsHexText(169, 187, 204, "a9", "bb", "cc");
  }
}
