/** `Validate`: the range checks for every kind of channel, and the anchored,
    case-insensitive grammars of the colour strings. Each check passes (`Ok(())`) or
    throws the `InvalidColorValue` the library throws. */
module Validate {
  import opened Php
  import opened Errors
  import opened Regex

  // ---------------------------------------------------------------------------
  // Range checks
  // ---------------------------------------------------------------------------

  /** `CIELabValue`: `l` must be in [0, 100], `a` and `b` in [-110, 110]; any other name
      passes unchecked. */
  function CIELabValue(value: real, name: string): (r: Result<()>)
    ensures r.Ok? <==>
      (name == "l" ==> 0.0 <= value <= 100.0) &&
      (name == "a" || name == "b" ==> -110.0 <= value <= 110.0)
    ensures r.Err? && name == "l" ==> r.failure == Invalid(CIELabValueNotInRange(value, name, 0.0, 100.0))
    ensures r.Err? && name != "l" ==> r.failure == Invalid(CIELabValueNotInRange(value, name, -110.0, 110.0))
  {
    if name == "l" && (value < 0.0 || value > 100.0) then
      Err(Invalid(CIELabValueNotInRange(value, name, 0.0, 100.0)))
    else if (name == "a" || name == "b") && (value < -110.0 || value > 110.0) then
      Err(Invalid(CIELabValueNotInRange(value, name, -110.0, 110.0)))
    else Ok(())
  }

  /** `cmykValue`: a fraction in [0, 1]. */
  function CmykValue(value: real, name: string): (r: Result<()>)
    ensures r.Ok? <==> 0.0 <= value <= 1.0
    ensures r.Err? ==> r.failure == Invalid(CmykValueNotInRange(value, name))
  {
    Check(!(value < 0.0 || value > 1.0), CmykValueNotInRange(value, name))
  }

  /** `rgbChannelValue`: an integer in 0..255. */
  function RgbChannelValue(value: int, channel: string): (r: Result<()>)
    ensures r.Ok? <==> 0 <= value <= 255
    ensures r.Err? ==> r.failure == Invalid(RgbChannelValueNotInRange(value, channel))
  {
    Check(!(value < 0 || value > 255), RgbChannelValueNotInRange(value, channel))
  }

  /** `alphaChannelValue`: a fraction in [0, 1]. The exception factory takes an `int`, so
      the value it reports is the alpha truncated. */
  function AlphaChannelValue(value: real): (r: Result<()>)
    ensures r.Ok? <==> 0.0 <= value <= 1.0
    ensures r.Err? ==> r.failure == Invalid(AlphaChannelValueNotInRange(Truncate(value)))
  {
    Check(!(value < 0.0 || value > 1.0), AlphaChannelValueNotInRange(Truncate(value)))
  }

  /** `hexChannelValue`: the length in bytes is checked before the characters, and the
      pattern `/[a-f0-9]{2}/i` on a two-byte string asks for two hex digits in either
      case. A two-byte string that is one non-ASCII character, such as `é`, passes the
      length check and fails the pattern. */
  function HexChannelValue(value: string): (r: Result<()>)
    ensures r.Ok? <==> |value| == 2 && AllHexDigits(value)
    ensures StrLen(value) != 2 ==> r == Err(Invalid(HexChannelValueHasInvalidLength(value)))
    ensures StrLen(value) == 2 && !AllHexDigits(value) ==>
      r == Err(Invalid(HexValueContainsInvalidCharacters(value)))
  {
    if StrLen(value) != 2 then Err(Invalid(HexChannelValueHasInvalidLength(value)))
    else if !(|value| == 2 && IsHexDigit(value[0]) && IsHexDigit(value[1])) then
      Err(Invalid(HexValueContainsInvalidCharacters(value)))
    else Ok(())
  }

  /** `hsbValue` as written: the hue in [0, 360], anything else in [0, 100]. A value out of
      range reaches `InvalidColorValue::hsbValueNotInRange`, a factory the exception class
      does not define, so PHP throws an `Error` rather than an `InvalidColorValue`. */
  function HsbValue(value: real, name: string): (r: Result<()>)
    ensures name == "hue" ==> (r.Ok? <==> 0.0 <= value <= 360.0)
    ensures name != "hue" ==> (r.Ok? <==> 0.0 <= value <= 100.0)
    ensures r.Err? ==> r.failure == UndefinedMethod("InvalidColorValue::hsbValueNotInRange")
  {
    var inRange := if name == "hue" then !(value < 0.0 || value > 360.0) else !(value < 0.0 || value > 100.0);
    if inRange then Ok(()) else Err(UndefinedMethod("InvalidColorValue::hsbValueNotInRange"))
  }

  /** `hsbValue` with the range error the other validators raise: it accepts the same
      values, and refuses the others with an `InvalidColorValue` naming the value. */
  function HsbValueIntended(value: real, name: string): (r: Result<()>)
    ensures r.Ok? <==> HsbValue(value, name).Ok?
    ensures r.Err? ==> r.failure == Invalid(HsbValueNotInRange(value, name))
  {
    if name == "hue" then
      Check(!(value < 0.0 || value > 360.0), HsbValueNotInRange(value, name))
    else
      Check(!(value < 0.0 || value > 100.0), HsbValueNotInRange(value, name))
  }

  /** A hue of 400 shows the difference: as written it raises PHP's `Error`, which no
      `catch (InvalidColorValue $e)` takes; intended, it is the range error. */
  lemma HsbRangeErrorAsWritten()
    ensures HsbValue(400.0, "hue") == Err(UndefinedMethod("InvalidColorValue::hsbValueNotInRange"))
    ensures HsbValueIntended(400.0, "hue") == Err(Invalid(HsbValueNotInRange(400.0, "hue")))
    ensures HsbValue(50.0, "saturation") == HsbValueIntended(50.0, "saturation") == Ok(())
  {
  }

  /** `hslValue`: a percentage in [0, 100]. */
  function HslValue(value: real, name: string): (r: Result<()>)
    ensures r.Ok? <==> 0.0 <= value <= 100.0
    ensures r.Err? ==> r.failure == Invalid(HslValueNotInRange(value, name))
  {
    Check(!(value < 0.0 || value > 100.0), HslValueNotInRange(value, name))
  }

  /** `xyzValue`: x in [0, 95.047], y in [0, 100], z in [0, 108.883] (the D65 white
      point); any other name passes unchecked. */
  function XyzValue(value: real, name: string): (r: Result<()>)
    ensures r.Ok? <==>
      (name == "x" ==> 0.0 <= value <= 95.047) &&
      (name == "y" ==> 0.0 <= value <= 100.0) &&
      (name == "z" ==> 0.0 <= value <= 108.883)
    ensures r.Err? ==> r.failure == Invalid(XyzValueNotInRange(value, name, 0.0,
      if name == "x" then 95.047 else if name == "y" then 100.0 else 108.883))
  {
    if name == "x" && (value < 0.0 || value > 95.047) then
      Err(Invalid(XyzValueNotInRange(value, name, 0.0, 95.047)))
    else if name == "y" && (value < 0.0 || value > 100.0) then
      Err(Invalid(XyzValueNotInRange(value, name, 0.0, 100.0)))
    else if name == "z" && (value < 0.0 || value > 108.883) then
      Err(Invalid(XyzValueNotInRange(value, name, 0.0, 108.883)))
    else Ok(())
  }

  lemma HexChannelValueExamples()
    ensures HexChannelValue("a") == Err(Invalid(HexChannelValueHasInvalidLength("a")))
    ensures HexChannelValue("gg") == Err(Invalid(HexValueContainsInvalidCharacters("gg")))
    ensures HexChannelValue("aF").Ok?
  {
    assert !IsHexDigit("gg"[0]);
    assert IsHexDigit("aF"[0]) && IsHexDigit("aF"[1]);
  }

  /** Lengths are counted in bytes: `é` (two bytes) gets the character error, and `aé`
      (two characters, three bytes) the length error. */
  lemma HexChannelValueBytes()
    ensures HexChannelValue("\U{E9}") == Err(Invalid(HexValueContainsInvalidCharacters("\U{E9}")))
    ensures HexChannelValue("a\U{E9}") == Err(Invalid(HexChannelValueHasInvalidLength("a\U{E9}")))
  {
    assert StrLen("\U{E9}") == 2 by {
      assert "\U{E9}"[1..] == [];
    }
    assert StrLen("a\U{E9}") == 3 by {
      assert "a\U{E9}"[1..] == "\U{E9}";
      assert "\U{E9}"[1..] == [];
    }
    assert !IsHexDigit("\U{E9}"[0]);
  }

  // ---------------------------------------------------------------------------
  // Grammars
  // ---------------------------------------------------------------------------

  /** `/^ *CIELab\( *\d{1,3}\.?\d+? *, *-?\d{1,3}\.?\d+? *, *-?\d{1,3}\.?\d+? *\) *$/i` */
  const CIELabGrammar := Pattern(["cielab("], [Lazy(3, false), Lazy(3, true), Lazy(3, true)], false)

  /** `/^ *cmyk\( *(\d{1,3})%? *, ... *\) *$/i` with four fields. */
  const CmykGrammar := Pattern(["cmyk("],
    [Percent(false, false), Percent(false, false), Percent(false, false), Percent(false, false)], false)

  /** `/^ *rgb\( *\d{1,3} *, *\d{1,3} *, *\d{1,3} *\) *$/i` */
  const RgbGrammar := Pattern(["rgb("], [Int(3, false), Int(3, false), Int(3, false)], false)

  /** `/^ *rgba\( *\d{1,3} *, *\d{1,3} *, *\d{1,3} *, *[0-1](\.\d{1,2})? *\) *$/i` */
  const RgbaGrammar := Pattern(["rgba("], [Int(3, false), Int(3, false), Int(3, false), Alpha], false)

  /** `/^ *hs[vb]\( *-?\d{1,3} *, *\d{1,3}%? *, *\d{1,3}%? *\) *$/i` */
  const HsbGrammar := Pattern(["hsv(", "hsb("],
    [Int(3, true), Percent(false, false), Percent(false, false)], false)

  /** `/^ *hsl\( *-?\d{1,3} *, *\d{1,3}%? *, *\d{1,3}%? *\) *$/i` */
  const HslGrammar := Pattern(["hsl("], [Int(3, true), Percent(false, false), Percent(false, false)], false)

  /** `/^ *hsla\( *\d{1,3} *, *\d{1,3}%? *, *\d{1,3}%? *, *[0-1](\.\d{1,2})? *\) *$/i` */
  const HslaGrammar := Pattern(["hsla("],
    [Int(3, false), Percent(false, false), Percent(false, false), Alpha], false)

  /** `/^ *xyz\( *\d{1,2}\.?\d+? *, *\d{1,3}\.?\d+? *, *\d{1,3}\.?\d+? *\) *$/i` */
  const XyzGrammar := Pattern(["xyz("], [Lazy(2, false), Lazy(3, false), Lazy(3, false)], false)

  /** `/^#(?:[a-f0-9]{3}|[a-f0-9]{4}|[a-f0-9]{6}|[a-f0-9]{8})$/i`: '#' and 3, 4, 6 or 8 hex
      digits of either case, optionally followed by one final newline. */
  predicate IsHexColorString(s: string)
  {
    var body := if |s| >= 1 && s[|s| - 1] == '\n' then s[..|s| - 1] else s;
    |body| in {4, 5, 7, 9} && body[0] == '#' && AllHexDigits(body[1..])
  }

  function CIELabColorString(s: string): (r: Result<()>)
    ensures r.Ok? <==> Matches(CIELabGrammar, s)
    ensures r.Err? ==> r.failure == Invalid(MalformedCIELabColorString(s))
  {
    Check(Matches(CIELabGrammar, s), MalformedCIELabColorString(s))
  }

  function CmykColorString(s: string): (r: Result<()>)
    ensures r.Ok? <==> Matches(CmykGrammar, s)
    ensures r.Err? ==> r.failure == Invalid(MalformedCmykColorString(s))
  {
    Check(Matches(CmykGrammar, s), MalformedCmykColorString(s))
  }

  function RgbColorString(s: string): (r: Result<()>)
    ensures r.Ok? <==> Matches(RgbGrammar, s)
    ensures r.Err? ==> r.failure == Invalid(MalformedRgbColorString(s))
  {
    Check(Matches(RgbGrammar, s), MalformedRgbColorString(s))
  }

  function RgbaColorString(s: string): (r: Result<()>)
    ensures r.Ok? <==> Matches(RgbaGrammar, s)
    ensures r.Err? ==> r.failure == Invalid(MalformedRgbaColorString(s))
  {
    Check(Matches(RgbaGrammar, s), MalformedRgbaColorString(s))
  }

  function HexColorString(s: string): (r: Result<()>)
    ensures r.Ok? <==> IsHexColorString(s)
    ensures r.Err? ==> r.failure == Invalid(MalformedHexColorString(s))
  {
    Check(IsHexColorString(s), MalformedHexColorString(s))
  }

  /** `hsbColorString`, which reports a malformed string with the hsl error kind. */
  function HsbColorString(s: string): (r: Result<()>)
    ensures r.Ok? <==> Matches(HsbGrammar, s)
    ensures r.Err? ==> r.failure == Invalid(MalformedHslColorString(s))
  {
    Check(Matches(HsbGrammar, s), MalformedHslColorString(s))
  }

  function HslColorString(s: string): (r: Result<()>)
    ensures r.Ok? <==> Matches(HslGrammar, s)
    ensures r.Err? ==> r.failure == Invalid(MalformedHslColorString(s))
  {
    Check(Matches(HslGrammar, s), MalformedHslColorString(s))
  }

  function HslaColorString(s: string): (r: Result<()>)
    ensures r.Ok? <==> Matches(HslaGrammar, s)
    ensures r.Err? ==> r.failure == Invalid(MalformedHslaColorString(s))
  {
    Check(Matches(HslaGrammar, s), MalformedHslaColorString(s))
  }

  function XyzColorString(s: string): (r: Result<()>)
    ensures r.Ok? <==> Matches(XyzGrammar, s)
    ensures r.Err? ==> r.failure == Invalid(MalformedXyzColorString(s))
  {
    Check(Matches(XyzGrammar, s), MalformedXyzColorString(s))
  }
}
