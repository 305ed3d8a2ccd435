/** `Hsla`: an hsl colour with an alpha channel in [0, 1]. */
module Hsla {
  import opened Php
  import opened Errors
  import opened Regex
  import opened Validate
  import opened Params
  import opened Convert
  import opened HsText

  datatype Color = Color(hue: real, saturation: real, lightness: real, alpha: real)

  predicate Valid(c: Color)
  {
    0.0 <= c.saturation <= 100.0 && 0.0 <= c.lightness <= 100.0 && 0.0 <= c.alpha <= 1.0
  }

  /** The constructor: saturation, lightness, then alpha are checked; the hue is kept as
      given. Alpha defaults to 1 at the call sites that leave it out. */
  function New(hue: real, saturation: real, lightness: real, alpha: real): (r: Result<Color>)
    ensures r.Ok? <==> 0.0 <= saturation <= 100.0 && 0.0 <= lightness <= 100.0 && 0.0 <= alpha <= 1.0
    ensures !(0.0 <= saturation <= 100.0) ==>
      r == Err(Invalid(HslValueNotInRange(saturation, "saturation")))
    ensures 0.0 <= saturation <= 100.0 && !(0.0 <= lightness <= 100.0) ==>
      r == Err(Invalid(HslValueNotInRange(lightness, "lightness")))
    ensures 0.0 <= saturation <= 100.0 && 0.0 <= lightness <= 100.0 && !(0.0 <= alpha <= 1.0) ==>
      r == Err(Invalid(AlphaChannelValueNotInRange(Truncate(alpha))))
    ensures r.Ok? ==> r.value == Color(hue, saturation, lightness, alpha) && Valid(r.value)
  {
    var _ :- HslValue(saturation, "saturation");
    var _ :- HslValue(lightness, "lightness");
    var _ :- AlphaChannelValue(alpha);
    Ok(Color(hue, saturation, lightness, alpha))
  }

  /** The class's own `/hsla\( *(\d{1,3}) *, *(\d{1,3})%? *, *(\d{1,3})%? *, *([0-1](\.\d{1,2})?) *\)/i`:
      unanchored, the `%` outside the groups, the hue unsigned. Its fifth group, the
      decimals of alpha, is not used. */
  const Extraction := Pattern(["hsla("],
    [Int(3, false), Percent(false, false), Percent(false, false), Alpha], false)

  /** `$matches[k + 1]` passed to the `float` parameter `name`: a missing group is `null`,
      which the parameter refuses. */
  function GroupArg(m: Option<seq<string>>, k: nat, name: string): (r: Result<real>)
    ensures m.Some? && k < |m.value| ==> r == FloatArg(m.value[k], name)
    ensures !(m.Some? && k < |m.value|) ==> r == Err(TypeError(name))
  {
    if m.Some? && k < |m.value| then FloatArg(m.value[k], name) else Err(TypeError(name))
  }

  /** `fromString`: the grammar, then the groups passed uncast to the constructor. */
  function FromString(s: string): (r: Result<Color>)
    ensures !Matches(HslaGrammar, s) ==> r == Err(Invalid(MalformedHslaColorString(s)))
    ensures r.Ok? ==> Matches(HslaGrammar, s) && Valid(r.value)
  {
    var _ :- HslaColorString(s);
    var m := Extract(Extraction, s);
    var hue :- GroupArg(m, 0, "hue");
    var saturation :- GroupArg(m, 1, "saturation");
    var lightness :- GroupArg(m, 2, "lightness");
    var alpha :- GroupArg(m, 3, "alpha");
    New(hue, saturation, lightness, alpha)
  }

  /** On a string the grammar accepts, the extraction pattern finds all four groups. */
  lemma ValidatedGroups(s: string)
    requires Matches(HslaGrammar, s)
    ensures Extract(Extraction, s).Some? && |Extract(Extraction, s).value| == 4
  {
    assert forall k | 0 <= k < 4 :: HslaGrammar.fields[k] == Extraction.fields[k];
    ExtractionFindsValidated(HslaGrammar, Extraction, s);
  }

  /** `red()`, `green()` and `blue()`: the channels of the HSL to RGB conversion, which
      alpha does not enter. */
  function Red(c: Color): (v: int)
    ensures Valid(c) ==> 0 <= v <= 255
    ensures c.saturation == 0.0 ==> v == Round(c.lightness * 2.55)
  {
    HslValueToRgb(c.hue, c.saturation, c.lightness).0
  }

  function Green(c: Color): (v: int)
    ensures Valid(c) ==> 0 <= v <= 255
    ensures c.saturation == 0.0 ==> v == Round(c.lightness * 2.55)
  {
    HslValueToRgb(c.hue, c.saturation, c.lightness).1
  }

  function Blue(c: Color): (v: int)
    ensures Valid(c) ==> 0 <= v <= 255
    ensures c.saturation == 0.0 ==> v == Round(c.lightness * 2.55)
  {
    HslValueToRgb(c.hue, c.saturation, c.lightness).2
  }

  /** Colours that differ only in alpha have the same channels; hsla(55, 55%, 67%, a) is
      rgb(217, 209, 125) for every a. */
  lemma ChannelsIgnoreAlpha(c: Color, alpha: real)
    ensures Red(c.(alpha := alpha)) == Red(c) && Green(c.(alpha := alpha)) == Green(c)
    ensures Blue(c.(alpha := alpha)) == Blue(c)
    ensures c.hue == 55.0 && c.saturation == 55.0 && c.lightness == 67.0 ==>
      Red(c) == 217 && Green(c) == 209 && Blue(c) == 125
  {
    HslExample();
  }

  /** `toHsla($alpha)`: the same hue, saturation and lightness with a new alpha. */
  function ToHsla(c: Color, alpha: real): (r: Result<Color>)
    ensures Valid(c) ==> (r.Ok? <==> 0.0 <= alpha <= 1.0)
    ensures Valid(c) && r.Ok? ==> r.value == c.(alpha := alpha)
  {
    New(c.hue, c.saturation, c.lightness, alpha)
  }

  /** `__toString`: hue, saturation and lightness rounded to whole numbers, alpha to two
      decimals and printed as PHP prints a float. */
  function ToString(c: Color): string
  {
    "hsla(" + RoundedToString(c.hue) + "," + RoundedToString(c.saturation) + "%,"
      + RoundedToString(c.lightness) + "%," + FloatToString(Round2(c.alpha)) + ")"
  }

  /** The colour with each value rounded as the printer rounds it. */
  function Rounded(c: Color): Color
  {
    Color(Round(c.hue) as real, Round(c.saturation) as real, Round(c.lightness) as real, Round2(c.alpha))
  }

  // ---------------------------------------------------------------------------
  // Parsing a printed colour
  // ---------------------------------------------------------------------------

  function Printed(h: string, b: string, d: string, al: string): string
  {
    "hsla(" + h + "," + b + "%," + d + "%," + al + ")"
  }

  lemma PrintedLayout(h: string, b: string, d: string, al: string)
    ensures var s := Printed(h, b, d, al);
      |s| == 11 + |h| + |b| + |d| + |al| && s[..5] == "hsla(" &&
      TextAt(s, 5, h) && s[5 + |h|] == ',' &&
      TextAt(s, 6 + |h|, b) && s[6 + |h| + |b|] == '%' && s[7 + |h| + |b|] == ',' &&
      TextAt(s, 8 + |h| + |b|, d) && s[8 + |h| + |b| + |d|] == '%' && s[9 + |h| + |b| + |d|] == ',' &&
      TextAt(s, 10 + |h| + |b| + |d|, al) && s[10 + |h| + |b| + |d| + |al|] == ')'
  {
  }

  const F := Percent(false, false)

  function Spans(h: string, b: string, d: string, al: string): seq<Span>
  {
    [(5, 5 + |h|)] + LaterSpans(6 + |h|, b, d, al)
  }

  /** The spans of the two percentages and alpha when the first percentage starts at `j`. */
  function LaterSpans(j: nat, b: string, d: string, al: string): seq<Span>
  {
    [(j, j + |b|)] + LastSpans(j + |b| + 2, d, al)
  }

  /** The spans of the last percentage and alpha when the percentage starts at `k`. */
  function LastSpans(k: nat, d: string, al: string): seq<Span>
  {
    [(k, k + |d|), (k + |d| + 2, k + |d| + 2 + |al|)]
  }

  /** A percentage, then alpha closed by `)`. */
  lemma PercentThenAlpha(s: string, k: nat, d: string, al: string)
    requires PercentText(d) && AlphaText(al) && k + |d| + |al| + 2 < |s|
    requires TextAt(s, k, d) && s[k + |d|] == '%' && s[k + |d| + 1] == ','
    requires TextAt(s, k + |d| + 2, al) && s[k + |d| + 2 + |al|] == ')'
    ensures MatchFields(s, k, [F, Alpha]) == Some((LastSpans(k, d, al), k + |d| + |al| + 3))
  {
    var m := k + |d| + 2;
    PercentFieldAt(s, k, d, false, false);
    assert FieldAt(s, k, F) == Some(((k, k + |d|), k + |d| + 1));
    AlphaFieldAt(s, m, al);
    LastField(s, m, Alpha, (m, m + |al|), m + |al|);
    Tail2(F, Alpha);
    FieldThenRest(s, k, [F, Alpha], (k, k + |d|), k + |d| + 1, ([(m, m + |al|)], m + |al| + 1));
    Cons2((k, k + |d|), (m, m + |al|));
  }

  /** The two percentages and alpha. */
  lemma PercentsThenAlpha(s: string, j: nat, b: string, d: string, al: string)
    requires PercentText(b) && PercentText(d) && AlphaText(al) && j + |b| + |d| + |al| + 4 < |s|
    requires TextAt(s, j, b) && s[j + |b|] == '%' && s[j + |b| + 1] == ','
    requires TextAt(s, j + |b| + 2, d) && s[j + |b| + 2 + |d|] == '%' && s[j + |b| + 3 + |d|] == ','
    requires TextAt(s, j + |b| + |d| + 4, al) && s[j + |b| + |d| + 4 + |al|] == ')'
    ensures MatchFields(s, j, [F, F, Alpha]) ==
      Some((LaterSpans(j, b, d, al), j + |b| + |d| + |al| + 5))
  {
    var k := j + |b| + 2;
    PercentFieldAt(s, j, b, false, false);
    assert FieldAt(s, j, F) == Some(((j, j + |b|), j + |b| + 1));
    PercentThenAlpha(s, k, d, al);
    Tail3(F, F, Alpha);
    FieldThenRest(s, j, [F, F, Alpha], (j, j + |b|), j + |b| + 1, (LastSpans(k, d, al), k + |d| + |al| + 3));
  }

  /** All four fields after the keyword. */
  lemma FourFields(s: string, h: string, b: string, d: string, al: string)
    requires PercentText(h) && PercentText(b) && PercentText(d) && AlphaText(al)
    requires |s| == 11 + |h| + |b| + |d| + |al|
    requires TextAt(s, 5, h) && s[5 + |h|] == ','
    requires TextAt(s, 6 + |h|, b) && s[6 + |h| + |b|] == '%' && s[7 + |h| + |b|] == ','
    requires TextAt(s, 8 + |h| + |b|, d) && s[8 + |h| + |b| + |d|] == '%' && s[9 + |h| + |b| + |d|] == ','
    requires TextAt(s, 10 + |h| + |b| + |d|, al) && s[10 + |h| + |b| + |d| + |al|] == ')'
    ensures MatchFields(s, 5, [Int(3, false), F, F, Alpha]) == Some((Spans(h, b, d, al), |s|))
  {
    PercentsThenAlpha(s, 6 + |h|, b, d, al);
    Tail4(Int(3, false), F, F, Alpha);
    DigitsThenRest(s, 5, h, 3, [Int(3, false), F, F, Alpha], (LaterSpans(6 + |h|, b, d, al), |s|));
  }

  lemma KeywordFirst(s: string)
    requires |s| >= 5 && s[..5] == "hsla("
    ensures AfterKeyword(s, 0, ["hsla("]) == Some(5)
  {
    assert ToLower(s[0..5]) == "hsla(";
  }

  /** The grammar and the extraction pattern match the whole printed text. */
  lemma PrintedMatchAt(p: Pattern, h: string, b: string, d: string, al: string)
    requires p.keywords == ["hsla("] && p.fields == [Int(3, false), F, F, Alpha]
    requires PercentText(h) && PercentText(b) && PercentText(d) && AlphaText(al)
    ensures WellFormed(p)
    ensures MatchAt(p, Printed(h, b, d, al), 0) == Some((Spans(h, b, d, al), |Printed(h, b, d, al)|))
  {
    var s := Printed(h, b, d, al);
    PrintedLayout(h, b, d, al);
    KeywordFirst(s);
    FourFields(s, h, b, d, al);
  }

  /** The grammar accepts the printed text and the extraction pattern captures its four
      numbers without the `%`. */
  lemma PrintedText(h: string, b: string, d: string, al: string)
    requires PercentText(h) && PercentText(b) && PercentText(d) && AlphaText(al)
    ensures Matches(HslaGrammar, Printed(h, b, d, al))
    ensures Extract(Extraction, Printed(h, b, d, al)) == Some([h, b, d, al])
  {
    PrintedMatches(h, b, d, al);
    PrintedGroups(h, b, d, al);
  }

  lemma PrintedMatches(h: string, b: string, d: string, al: string)
    requires PercentText(h) && PercentText(b) && PercentText(d) && AlphaText(al)
    ensures Matches(HslaGrammar, Printed(h, b, d, al))
  {
    var s := Printed(h, b, d, al);
    PrintedMatchAt(HslaGrammar, h, b, d, al);
    assert SkipSpaces(s, 0) == 0 by {
      assert s[0] == 'h';
    }
  }

  lemma PrintedGroups(h: string, b: string, d: string, al: string)
    requires PercentText(h) && PercentText(b) && PercentText(d) && AlphaText(al)
    ensures Extract(Extraction, Printed(h, b, d, al)) == Some([h, b, d, al])
  {
    var s := Printed(h, b, d, al);
    var spans := Spans(h, b, d, al);
    PrintedMatchAt(Extraction, h, b, d, al);
    assert Search(Extraction, s, 0) == Some(spans);
    PrintedSlices(h, b, d, al);
    FourGroups(Extraction, s, spans, h, b, d, al);
  }

  lemma PrintedSlices(h: string, b: string, d: string, al: string)
    ensures var s, spans := Printed(h, b, d, al), Spans(h, b, d, al);
      Slice(s, spans[0]) == h && Slice(s, spans[1]) == b &&
      Slice(s, spans[2]) == d && Slice(s, spans[3]) == al
  {
    HeadSlices(h, b, d, al);
    TailSlices(h, b, d, al);
  }

  lemma HeadSlices(h: string, b: string, d: string, al: string)
    ensures var s := Printed(h, b, d, al);
      s[5..5 + |h|] == h && s[6 + |h|..6 + |h| + |b|] == b
  {
    var s := Printed(h, b, d, al);
    assert s == "hsla(" + h + ("," + b + "%," + d + "%," + al + ")");
    assert s == ("hsla(" + h + ",") + b + ("%," + d + "%," + al + ")");
  }

  lemma TailSlices(h: string, b: string, d: string, al: string)
    ensures var s := Printed(h, b, d, al);
      s[8 + |h| + |b|..8 + |h| + |b| + |d|] == d &&
      s[10 + |h| + |b| + |d|..10 + |h| + |b| + |d| + |al|] == al
  {
    var s := Printed(h, b, d, al);
    assert s == ("hsla(" + h + "," + b + "%,") + d + ("%," + al + ")");
    assert s == ("hsla(" + h + "," + b + "%," + d + "%,") + al + ")";
  }

  /** A printed text parses to the constructor applied to the numbers it shows. */
  lemma PrintedParses(h: string, b: string, d: string, al: string)
    requires PercentText(h) && PercentText(b) && PercentText(d) && AlphaText(al)
    ensures FromString(Printed(h, b, d, al)) ==
      New(DecimalValue(h) as real, DecimalValue(b) as real, DecimalValue(d) as real, Decimal1Value(al))
  {
    PrintedText(h, b, d, al);
    GroupNumbers(h, b, d, al);
    FromGroups(Printed(h, b, d, al), [h, b, d, al],
      DecimalValue(h) as real, DecimalValue(b) as real, DecimalValue(d) as real, Decimal1Value(al));
  }

  /** The four printed numbers reach their parameters as their values. */
  lemma GroupNumbers(h: string, b: string, d: string, al: string)
    requires PercentText(h) && PercentText(b) && PercentText(d) && AlphaText(al)
    ensures FloatArg(h, "hue") == Ok(DecimalValue(h) as real)
    ensures FloatArg(b, "saturation") == Ok(DecimalValue(b) as real)
    ensures FloatArg(d, "lightness") == Ok(DecimalValue(d) as real)
    ensures FloatArg(al, "alpha") == Ok(Decimal1Value(al))
  {
    DigitsArg(h, "hue");
    DigitsArg(b, "saturation");
    DigitsArg(d, "lightness");
    AlphaDecimal(al);
    Decimal1Arg(al, "alpha");
  }

  /** An alpha field is a digit with an optional fraction. */
  lemma AlphaDecimal(t: string)
    requires AlphaText(t)
    ensures Decimal1(t)
  {
  }

  /** What `fromString` does with a string the grammar accepts once each group has
      reached its parameter. */
  lemma FromGroups(s: string, g: seq<string>, hue: real, saturation: real, lightness: real, alpha: real)
    requires Matches(HslaGrammar, s) && Extract(Extraction, s) == Some(g) && |g| == 4
    requires FloatArg(g[0], "hue") == Ok(hue) && FloatArg(g[1], "saturation") == Ok(saturation)
    requires FloatArg(g[2], "lightness") == Ok(lightness) && FloatArg(g[3], "alpha") == Ok(alpha)
    ensures FromString(s) == New(hue, saturation, lightness, alpha)
  {
  }

  /** `round($alpha, 2)` printed, for alpha in [0, 1]: an alpha field worth the rounded
      value. */
  lemma RoundedAlpha(alpha: real)
    requires 0.0 <= alpha <= 1.0
    ensures AlphaText(FloatToString(Round2(alpha)))
    ensures Decimal1(FloatToString(Round2(alpha)))
    ensures Decimal1Value(FloatToString(Round2(alpha))) == Round2(alpha)
  {
    var m := Hundredths(alpha);
    CentsAlpha(m);
  }

  /** A number of hundredths in [0, 1] prints as an alpha field worth that number. */
  lemma CentsAlpha(m: nat)
    requires m <= 100
    ensures AlphaText(FloatToString(m as real / 100.0)) && Decimal1(FloatToString(m as real / 100.0))
    ensures Decimal1Value(FloatToString(m as real / 100.0)) == m as real / 100.0
  {
    FloatToStringCents(m);
    CentsValue(m);
  }

  /** The text of `n / 100` is an alpha field worth `n / 100`. */
  lemma CentsValue(n: nat)
    requires n <= 100
    ensures AlphaText(CentsText(n)) && Decimal1(CentsText(n))
    ensures Decimal1Value(CentsText(n)) == n as real / 100.0
  {
    var t := CentsText(n);
    if n == 0 || n == 100 {
    } else if n < 10 {
      DigitCharValue(n);
      FractionOfTwo('0', DigitChar(n));
      assert t[2..] == ['0', DigitChar(n)];
    } else if n % 10 == 0 {
      DigitCharValue(n / 10);
      assert t[2..] == [DigitChar(n / 10)];
      assert [DigitChar(n / 10)][1..] == [];
      assert FractionValue(t[2..]) == (n / 10) as real / 10.0;
    } else {
      DigitCharValue(n / 10);
      DigitCharValue(n % 10);
      FractionOfTwo(DigitChar(n / 10), DigitChar(n % 10));
      assert t[2..] == [DigitChar(n / 10), DigitChar(n % 10)];
    }
  }

  /** The printed text of a valid colour with a hue that rounds into 0..999, and the
      numbers it shows. */
  lemma PrintedRounded(c: Color) returns (h: string, b: string, d: string, al: string)
    requires Valid(c) && 0.0 <= c.hue && Round(c.hue) <= 999
    ensures PercentText(h) && PercentText(b) && PercentText(d) && AlphaText(al)
    ensures ToString(c) == Printed(h, b, d, al)
    ensures DecimalValue(h) == Round(c.hue)
    ensures DecimalValue(b) == Round(c.saturation) && DecimalValue(d) == Round(c.lightness)
    ensures Decimal1Value(al) == Round2(c.alpha)
  {
    h, b, d := RoundedToString(c.hue), RoundedToString(c.saturation), RoundedToString(c.lightness);
    al := FloatToString(Round2(c.alpha));
    RoundedComponent(c.hue);
    RoundedComponent(c.saturation);
    RoundedComponent(c.lightness);
    RoundedAlpha(c.alpha);
  }

  /** Printing a colour and parsing the text gives the colour with hue, saturation and
      lightness rounded to whole numbers and alpha to two decimals, provided the hue is
      not negative (the grammar has no sign for it) and still fits three digits. */
  lemma PrintParse(c: Color)
    requires Valid(c) && 0.0 <= c.hue && Round(c.hue) <= 999
    ensures FromString(ToString(c)) == Ok(Rounded(c))
  {
    var h, b, d, al := PrintedRounded(c);
    PrintedParses(h, b, d, al);
    assert 0 <= Round(c.saturation) <= 100 && 0 <= Round(c.lightness) <= 100;
    var _ := Hundredths(c.alpha);
    assert New(DecimalValue(h) as real, DecimalValue(b) as real, DecimalValue(d) as real,
      Decimal1Value(al)) == Ok(Rounded(c));
    assert FromString(Printed(h, b, d, al)) == Ok(Rounded(c));
  }

  /** An alpha of 1.5 passes the grammar's `[0-1](\.\d{1,2})?` and fails in the
      constructor, which reports it truncated to 1. */
  lemma AlphaOutOfRange(h: string, b: string, d: string, al: string)
    requires PercentText(h) && PercentText(b) && PercentText(d) && AlphaText(al)
    requires DecimalValue(b) <= 100 && DecimalValue(d) <= 100 && Decimal1Value(al) > 1.0
    ensures Matches(HslaGrammar, Printed(h, b, d, al))
    ensures FromString(Printed(h, b, d, al)) ==
      Err(Invalid(AlphaChannelValueNotInRange(Truncate(Decimal1Value(al)))))
    ensures Truncate(Decimal1Value(al)) == 1
  {
    PrintedMatches(h, b, d, al);
    PrintedParses(h, b, d, al);
    var v := Decimal1Value(al);
    assert al[0] == '1' && |al| > 1 ==> FractionValue(al[2..]) < 1.0 by {
      if |al| > 1 {
        FractionBelowOne(al[2..]);
      }
    }
    assert Truncate(v) == 1;
    assert New(DecimalValue(h) as real, DecimalValue(b) as real, DecimalValue(d) as real, v) ==
      Err(Invalid(AlphaChannelValueNotInRange(1)));
  }

  /** The digits after a decimal point are worth less than one. */
  lemma {:induction false} FractionBelowOne(t: string)
    requires AllDigits(t)
    ensures FractionValue(t) < 1.0
  {
    if t != [] {
      FractionBelowOne(t[1..]);
    }
  }
}
