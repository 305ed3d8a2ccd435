/** `Hsb`: a colour as a hue in [0, 360] degrees and a saturation and a brightness in
    percent. */
module Hsb {
  import opened Php
  import opened Errors
  import opened Regex
  import opened Validate
  import opened HsPatterns
  import opened Convert
  import opened HsText

  datatype Color = Color(hue: real, saturation: real, brightness: real)

  predicate Valid(c: Color)
  {
    0.0 <= c.hue <= 360.0 && 0.0 <= c.saturation <= 100.0 && 0.0 <= c.brightness <= 100.0
  }

  /** The constructor: hue, saturation and brightness are checked in that order, and any
      of them out of range ends in the `Error` of the undefined range factory. */
  function New(hue: real, saturation: real, brightness: real): (r: Result<Color>)
    ensures r.Ok? <==> 0.0 <= hue <= 360.0 && 0.0 <= saturation <= 100.0 && 0.0 <= brightness <= 100.0
    ensures r.Err? ==> r == Err(UndefinedMethod("InvalidColorValue::hsbValueNotInRange"))
    ensures r.Ok? ==> r.value == Color(hue, saturation, brightness) && Valid(r.value)
  {
    var _ :- HsbValue(hue, "hue");
    var _ :- HsbValue(saturation, "saturation");
    var _ :- HsbValue(brightness, "brightness");
    Ok(Color(hue, saturation, brightness))
  }

  /** `fromString`: the grammar (keyword `hsb` or `hsv`), then the `hsb` extraction
      pattern, each group cast to a float. */
  function FromString(s: string): (r: Result<Color>)
    ensures !Matches(HsbGrammar, s) ==> r == Err(Invalid(MalformedHslColorString(s)))
    ensures r.Ok? ==> Matches(HsbGrammar, s) && Valid(r.value)
  {
    var _ :- HsbColorString(s);
    match GetExtractionPattern("hsb")
    case Err(e) => Err(e)
    case Ok(pattern) =>
      var m := Extract(pattern, s);
      New(NumericPrefix(GroupText(m, 0)), NumericPrefix(GroupText(m, 1)), NumericPrefix(GroupText(m, 2)))
  }

  /** What `fromString` does with a string the grammar accepts and the groups the
      extraction pattern finds in it. */
  lemma FromGroups(s: string, g: seq<string>)
    requires Matches(HsbGrammar, s) && Extract(HsbExtraction, s) == Some(g) && |g| == 3
    ensures FromString(s) == New(NumericPrefix(g[0]), NumericPrefix(g[1]), NumericPrefix(g[2]))
  {
    assert GetExtractionPattern("hsb") == Ok(HsbExtraction);
  }

  /** On a string the grammar accepts, the extraction pattern finds the three groups, so
      no group is ever missing. */
  lemma ValidatedGroups(s: string)
    requires Matches(HsbGrammar, s)
    ensures Extract(HsbExtraction, s).Some? && |Extract(HsbExtraction, s).value| == 3
    ensures var g := Extract(HsbExtraction, s).value;
      FromString(s) == New(NumericPrefix(g[0]), NumericPrefix(g[1]), NumericPrefix(g[2]))
  {
    assert FieldRefines(HsbGrammar.fields[1], HsbExtraction.fields[1]);
    assert forall k | 0 <= k < 3 :: FieldRefines(HsbGrammar.fields[k], HsbExtraction.fields[k]);
    ExtractionFindsValidated(HsbGrammar, HsbExtraction, s);
    FromGroups(s, Extract(HsbExtraction, s).value);
  }

  /** `red()`, `green()` and `blue()`: the channels of the HSB to RGB conversion. */
  function Red(c: Color): (v: int)
    ensures Valid(c) ==> 0 <= v <= 255
    ensures c.saturation == 0.0 ==> v == Round(c.brightness * 2.55)
  {
    HsbToRgb(c.hue, c.saturation, c.brightness).0
  }

  function Green(c: Color): (v: int)
    ensures Valid(c) ==> 0 <= v <= 255
    ensures c.saturation == 0.0 ==> v == Round(c.brightness * 2.55)
  {
    HsbToRgb(c.hue, c.saturation, c.brightness).1
  }

  function Blue(c: Color): (v: int)
    ensures Valid(c) ==> 0 <= v <= 255
    ensures c.saturation == 0.0 ==> v == Round(c.brightness * 2.55)
  {
    HsbToRgb(c.hue, c.saturation, c.brightness).2
  }

  /** hsb(50, 50%, 50%) has the channels 128, 117, 64. */
  lemma ChannelsExample(c: Color)
    requires c == Color(50.0, 50.0, 50.0)
    ensures Red(c) == 128 && Green(c) == 117 && Blue(c) == 64
  {
    HsbExamples(50.0, 50.0);
    assert HsbToRgb(50.0, 50.0, 50.0) == HsbSectorsAsWritten(50.0 / 360.0, 0.5, 0.5);
  }

  /** As written, a full-saturation colour whose hue is a whole number of turns has
      the magenta channels 255, 0, 255, while hue 0 has the red channels 255, 0, 0. */
  lemma WholeTurnChannels(c: Color, turns: nat)
    requires turns >= 1 && c == Color(360.0 * turns as real, 100.0, 100.0)
    ensures Red(c) == 255 && Green(c) == 0 && Blue(c) == 255
    ensures var z := Color(0.0, 100.0, 100.0); Red(z) == 255 && Green(z) == 0 && Blue(z) == 0
  {
    HsbWholeTurnsAsWritten(turns);
    assert HsbToRgb(c.hue, c.saturation, c.brightness) == (255, 0, 255);
    HsbFullTurnAsWritten();
    assert HsbToRgb(0.0, 100.0, 100.0) == (255, 0, 0) by {
      assert HsbToRgb(0.0, 100.0, 100.0) == HsbSectorsAsWritten(0.0, 1.0, 1.0);
    }
  }

  /** `toHsb`: a new value with the same hue, saturation and brightness. */
  function ToHsb(c: Color): (r: Result<Color>)
    ensures Valid(c) ==> r == Ok(c)
  {
    New(c.hue, c.saturation, c.brightness)
  }

  /** `__toString`: each value rounded to a whole number, the last two followed by `%`. */
  function ToString(c: Color): string
  {
    "hsb(" + RoundedToString(c.hue) + "," + RoundedToString(c.saturation) + "%,"
      + RoundedToString(c.brightness) + "%)"
  }

  /** The colour with each value rounded as the printer rounds it. */
  function Rounded(c: Color): Color
  {
    Color(Round(c.hue) as real, Round(c.saturation) as real, Round(c.brightness) as real)
  }

  // ---------------------------------------------------------------------------
  // Parsing a printed colour
  // ---------------------------------------------------------------------------

  /** `hsb(` is the second alternative of `hs[vb]\(`. */
  lemma KeywordFirst(s: string)
    requires |s| >= 4 && s[..4] == "hsb("
    ensures AfterKeyword(s, 0, ["hsv(", "hsb("]) == Some(4)
  {
    assert ToLower(s[0..4]) == "hsb(";
    assert !KeywordAt(s, 0, "hsv(");
  }

  /** The grammar accepts a printed text and the extraction pattern captures its hue and
      its two percentages with their `%`. */
  lemma PrintedText(h: string, b: string, d: string)
    requires HueText(h) && PercentText(b) && PercentText(d)
    ensures Matches(HsbGrammar, Printed("hsb(", h, b, d))
    ensures Extract(HsbExtraction, Printed("hsb(", h, b, d)) == Some([h, b + "%", d + "%"])
  {
    var s := Printed("hsb(", h, b, d);
    PrintedLayout("hsb(", h, b, d);
    KeywordFirst(s);
    PrintedMatches(HsbGrammar, "hsb(", h, b, d);
    PrintedGroups(HsbExtraction, "hsb(", h, b, d);
  }

  /** A printed text parses to the constructor applied to the numbers it shows. */
  lemma PrintedParses(h: string, b: string, d: string)
    requires HueText(h) && PercentText(b) && PercentText(d)
    ensures FromString(Printed("hsb(", h, b, d)) ==
      New(HueValue(h) as real, DecimalValue(b) as real, DecimalValue(d) as real)
  {
    PrintedText(h, b, d);
    FromGroups(Printed("hsb(", h, b, d), [h, b + "%", d + "%"]);
    HueNumber(h);
    PercentNumber(b);
    PercentNumber(d);
  }

  /** The printed text of a valid colour and the numbers it shows. */
  lemma PrintedRounded(c: Color) returns (h: string, b: string, d: string)
    requires Valid(c)
    ensures HueText(h) && PercentText(b) && PercentText(d)
    ensures ToString(c) == Printed("hsb(", h, b, d)
    ensures HueValue(h) == Round(c.hue)
    ensures DecimalValue(b) == Round(c.saturation) && DecimalValue(d) == Round(c.brightness)
  {
    h, b, d := RoundedToString(c.hue), RoundedToString(c.saturation), RoundedToString(c.brightness);
    RoundedHue(c.hue);
    RoundedComponent(c.saturation);
    RoundedComponent(c.brightness);
  }

  /** Printing a valid colour and parsing the text gives the colour with its values
      rounded to whole numbers. */
  lemma PrintParse(c: Color)
    requires Valid(c)
    ensures FromString(ToString(c)) == Ok(Rounded(c))
  {
    var h, b, d := PrintedRounded(c);
    PrintedParses(h, b, d);
    assert 0 <= Round(c.hue) <= 360;
    assert 0 <= Round(c.saturation) <= 100 && 0 <= Round(c.brightness) <= 100;
    assert New(HueValue(h) as real, DecimalValue(b) as real, DecimalValue(d) as real) == Ok(Rounded(c));
    assert FromString(Printed("hsb(", h, b, d)) == Ok(Rounded(c));
  }

  /** A negative hue, such as the -5 of `hsb(-5,50%,50%)`, passes the grammar and fails in
      the constructor, with PHP's `Error` rather than a range error. */
  lemma NegativeHue(h: string, b: string, d: string)
    requires HueText(h) && PercentText(b) && PercentText(d) && HueValue(h) < 0
    ensures Matches(HsbGrammar, Printed("hsb(", h, b, d))
    ensures FromString(Printed("hsb(", h, b, d)) ==
      Err(UndefinedMethod("InvalidColorValue::hsbValueNotInRange"))
  {
    PrintedText(h, b, d);
    PrintedParses(h, b, d);
  }
}
