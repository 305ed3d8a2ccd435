/** `Hsl`: a colour as a hue in degrees, which is not checked, and a saturation and a
    lightness in percent. */
module Hsl {
  import opened Php
  import opened Errors
  import opened Regex
  import opened Validate
  import opened HsPatterns
  import opened Convert
  import opened HsText

  datatype Color = Color(hue: real, saturation: real, lightness: real)

  predicate Valid(c: Color)
  {
    0.0 <= c.saturation <= 100.0 && 0.0 <= c.lightness <= 100.0
  }

  /** The constructor: saturation, then lightness, are checked; the hue is kept as given. */
  function New(hue: real, saturation: real, lightness: real): (r: Result<Color>)
    ensures r.Ok? <==> 0.0 <= saturation <= 100.0 && 0.0 <= lightness <= 100.0
    ensures !(0.0 <= saturation <= 100.0) ==>
      r == Err(Invalid(HslValueNotInRange(saturation, "saturation")))
    ensures 0.0 <= saturation <= 100.0 && !(0.0 <= lightness <= 100.0) ==>
      r == Err(Invalid(HslValueNotInRange(lightness, "lightness")))
    ensures r.Ok? ==> r.value == Color(hue, saturation, lightness) && Valid(r.value)
  {
    var _ :- HslValue(saturation, "saturation");
    var _ :- HslValue(lightness, "lightness");
    Ok(Color(hue, saturation, lightness))
  }

  /** `fromString`: the grammar, then the `hsl` extraction pattern, each group cast to a
      float. The grammar admits whole numbers only, although the extraction pattern would
      also read decimals. */
  function FromString(s: string): (r: Result<Color>)
    ensures !Matches(HslGrammar, s) ==> r == Err(Invalid(MalformedHslColorString(s)))
    ensures r.Ok? ==> Matches(HslGrammar, s) && Valid(r.value)
  {
    var _ :- HslColorString(s);
    match GetExtractionPattern("hsl")
    case Err(e) => Err(e)
    case Ok(pattern) =>
      var m := Extract(pattern, s);
      New(NumericPrefix(GroupText(m, 0)), NumericPrefix(GroupText(m, 1)), NumericPrefix(GroupText(m, 2)))
  }

  /** What `fromString` does with a string the grammar accepts and the groups the
      extraction pattern finds in it. */
  lemma FromGroups(s: string, g: seq<string>)
    requires Matches(HslGrammar, s) && Extract(HslExtraction, s) == Some(g) && |g| == 3
    ensures FromString(s) == New(NumericPrefix(g[0]), NumericPrefix(g[1]), NumericPrefix(g[2]))
  {
    assert GetExtractionPattern("hsl") == Ok(HslExtraction);
  }

  /** On a string the grammar accepts, the extraction pattern finds the three groups, so
      no group is ever missing. */
  lemma ValidatedGroups(s: string)
    requires Matches(HslGrammar, s)
    ensures Extract(HslExtraction, s).Some? && |Extract(HslExtraction, s).value| == 3
    ensures var g := Extract(HslExtraction, s).value;
      FromString(s) == New(NumericPrefix(g[0]), NumericPrefix(g[1]), NumericPrefix(g[2]))
  {
    assert FieldRefines(HslGrammar.fields[1], HslExtraction.fields[1]);
    assert forall k | 0 <= k < 3 :: FieldRefines(HslGrammar.fields[k], HslExtraction.fields[k]);
    ExtractionFindsValidated(HslGrammar, HslExtraction, s);
    FromGroups(s, Extract(HslExtraction, s).value);
  }

  /** `red()`, `green()` and `blue()`: the channels of the HSL to RGB conversion. */
  function Red(c: Color): (v: int)
    ensures Valid(c) ==> 0 <= v <= 255
    ensures c.saturation == 0.0 ==> v == Round(c.lightness * 2.55)
  {
    HslValueToRgb(c.hue, c.saturation, c.lightness).0
  }

  function Green(c: Color): (v: int)
    ensures Valid(c) ==> 0 <= v <= 255
    ensures c.saturation == 0.0 ==> v == Round(c.lightness * 2.55)
  {
    HslValueToRgb(c.hue, c.saturation, c.lightness).1
  }

  function Blue(c: Color): (v: int)
    ensures Valid(c) ==> 0 <= v <= 255
    ensures c.saturation == 0.0 ==> v == Round(c.lightness * 2.55)
  {
    HslValueToRgb(c.hue, c.saturation, c.lightness).2
  }

  /** hsl(55, 55%, 67%) has the channels 217, 209, 125, and a hue a whole turn away gives
      the same channels. */
  lemma ChannelsExample(c: Color)
    requires c.saturation == 55.0 && c.lightness == 67.0
    requires Truncate(c.hue) == 55 || Truncate(c.hue) == 415 || Truncate(c.hue) == -305
    ensures Red(c) == 217 && Green(c) == 209 && Blue(c) == 125
  {
    HslExample();
    HslHueTurns(c.hue, 55.0, 55.0, 67.0);
  }

  /** `toHsl`: a new value with the same hue, saturation and lightness. */
  function ToHsl(c: Color): (r: Result<Color>)
    ensures Valid(c) ==> r == Ok(c)
  {
    New(c.hue, c.saturation, c.lightness)
  }

  /** `__toString`: each value rounded to a whole number, the last two followed by `%`. */
  function ToString(c: Color): string
  {
    "hsl(" + RoundedToString(c.hue) + "," + RoundedToString(c.saturation) + "%,"
      + RoundedToString(c.lightness) + "%)"
  }

  /** The colour with each value rounded as the printer rounds it. */
  function Rounded(c: Color): Color
  {
    Color(Round(c.hue) as real, Round(c.saturation) as real, Round(c.lightness) as real)
  }

  // ---------------------------------------------------------------------------
  // Parsing a printed colour
  // ---------------------------------------------------------------------------

  lemma KeywordFirst(s: string)
    requires |s| >= 4 && s[..4] == "hsl("
    ensures AfterKeyword(s, 0, ["hsl("]) == Some(4)
  {
    assert ToLower(s[0..4]) == "hsl(";
  }

  /** The grammar accepts a printed text and the extraction pattern captures its hue and
      its two percentages with their `%`. */
  lemma PrintedText(h: string, b: string, d: string)
    requires HueText(h) && PercentText(b) && PercentText(d)
    ensures Matches(HslGrammar, Printed("hsl(", h, b, d))
    ensures Extract(HslExtraction, Printed("hsl(", h, b, d)) == Some([h, b + "%", d + "%"])
  {
    var s := Printed("hsl(", h, b, d);
    PrintedLayout("hsl(", h, b, d);
    KeywordFirst(s);
    PrintedMatches(HslGrammar, "hsl(", h, b, d);
    PrintedGroups(HslExtraction, "hsl(", h, b, d);
  }

  /** A printed text parses to the constructor applied to the numbers it shows. */
  lemma PrintedParses(h: string, b: string, d: string)
    requires HueText(h) && PercentText(b) && PercentText(d)
    ensures FromString(Printed("hsl(", h, b, d)) ==
      New(HueValue(h) as real, DecimalValue(b) as real, DecimalValue(d) as real)
  {
    PrintedText(h, b, d);
    FromGroups(Printed("hsl(", h, b, d), [h, b + "%", d + "%"]);
    HueNumber(h);
    PercentNumber(b);
    PercentNumber(d);
  }

  /** The printed text of a colour whose hue rounds into -999..999, and the numbers it
      shows. */
  lemma PrintedRounded(c: Color) returns (h: string, b: string, d: string)
    requires Valid(c) && -999 <= Round(c.hue) <= 999
    ensures HueText(h) && PercentText(b) && PercentText(d)
    ensures ToString(c) == Printed("hsl(", h, b, d)
    ensures HueValue(h) == Round(c.hue)
    ensures DecimalValue(b) == Round(c.saturation) && DecimalValue(d) == Round(c.lightness)
  {
    h, b, d := RoundedToString(c.hue), RoundedToString(c.saturation), RoundedToString(c.lightness);
    RoundedHue(c.hue);
    RoundedComponent(c.saturation);
    RoundedComponent(c.lightness);
  }

  /** Printing a colour and parsing the text gives the colour with its values rounded to
      whole numbers, provided the hue still fits the grammar's three digits. */
  lemma PrintParse(c: Color)
    requires Valid(c) && -999 <= Round(c.hue) <= 999
    ensures FromString(ToString(c)) == Ok(Rounded(c))
  {
    var h, b, d := PrintedRounded(c);
    PrintedParses(h, b, d);
    assert 0 <= Round(c.saturation) <= 100 && 0 <= Round(c.lightness) <= 100;
    assert New(HueValue(h) as real, DecimalValue(b) as real, DecimalValue(d) as real) == Ok(Rounded(c));
    assert FromString(Printed("hsl(", h, b, d)) == Ok(Rounded(c));
  }

  /** A colour of whole numbers survives printing and parsing unchanged. */
  lemma WholePrintParse(c: Color)
    requires Valid(c) && -999 <= Round(c.hue) <= 999
    requires Rounded(c) == c
    ensures FromString(ToString(c)) == Ok(c)
  {
    PrintParse(c);
  }

  /** A saturation above 100, such as the 150 of `hsl(0,150%,50%)`, passes the grammar
      and fails in the constructor. */
  lemma SaturationOutOfRange(h: string, b: string, d: string)
    requires HueText(h) && PercentText(b) && PercentText(d) && DecimalValue(b) > 100
    ensures Matches(HslGrammar, Printed("hsl(", h, b, d))
    ensures FromString(Printed("hsl(", h, b, d)) ==
      Err(Invalid(HslValueNotInRange(DecimalValue(b) as real, "saturation")))
  {
    PrintedText(h, b, d);
    PrintedParses(h, b, d);
  }
}
