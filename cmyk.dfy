/** `Cmyk`: four ink shares in [0, 1], printed and parsed as whole percentages. */
module Cmyk {
  import opened Php
  import opened Errors
  import opened Regex
  import opened Validate
  import opened Params
  import opened Convert
  import opened HsText

  /** The accessors `cyan()`, `magenta()`, `yellow()` and `key()` are the fields; `black()`
      is `key`. */
  datatype Color = Color(cyan: real, magenta: real, yellow: real, key: real)

  predicate Valid(c: Color)
  {
    Unit(c.cyan) && Unit(c.magenta) && Unit(c.yellow) && Unit(c.key)
  }

  /** The constructor: cyan, magenta, yellow and key are checked in that order. */
  function New(cyan: real, magenta: real, yellow: real, key: real): (r: Result<Color>)
    ensures r.Ok? <==> Unit(cyan) && Unit(magenta) && Unit(yellow) && Unit(key)
    ensures !Unit(cyan) ==> r == Err(Invalid(CmykValueNotInRange(cyan, "cyan")))
    ensures Unit(cyan) && !Unit(magenta) ==> r == Err(Invalid(CmykValueNotInRange(magenta, "magenta")))
    ensures Unit(cyan) && Unit(magenta) && !Unit(yellow) ==>
      r == Err(Invalid(CmykValueNotInRange(yellow, "yellow")))
    ensures Unit(cyan) && Unit(magenta) && Unit(yellow) && !Unit(key) ==>
      r == Err(Invalid(CmykValueNotInRange(key, "key (black)")))
    ensures r.Ok? ==> r.value == Color(cyan, magenta, yellow, key) && Valid(r.value)
  {
    var _ :- CmykValue(cyan, "cyan");
    var _ :- CmykValue(magenta, "magenta");
    var _ :- CmykValue(yellow, "yellow");
    var _ :- CmykValue(key, "key (black)");
    Ok(Color(cyan, magenta, yellow, key))
  }

  const F := Percent(false, false)

  /** The class's own `/cmyk\( *(\d{1,3})%? *, ... *\)/i`: the grammar's four fields,
      unanchored, each group holding the digits without the `%`. */
  const Extraction := Pattern(["cmyk("], [F, F, F, F], false)

  /** A group divided by 100; a missing group is `null`, which counts as 0. */
  function Share(t: string): real
  {
    NumericPrefix(t) / 100.0
  }

  /** A group of digits is its decimal value divided by 100. */
  lemma ShareOfDigits(t: string)
    requires AllDigits(t) && |t| > 0
    ensures Share(t) == DecimalValue(t) as real / 100.0
  {
    IntValueOfDigits(t);
  }

  /** `fromString`: the grammar, then each percentage divided by 100. */
  function FromString(s: string): (r: Result<Color>)
    ensures !Matches(CmykGrammar, s) ==> r == Err(Invalid(MalformedCmykColorString(s)))
    ensures r.Ok? ==> Matches(CmykGrammar, s) && Valid(r.value)
  {
    var _ :- CmykColorString(s);
    var m := Extract(Extraction, s);
    New(Share(GroupText(m, 0)), Share(GroupText(m, 1)), Share(GroupText(m, 2)), Share(GroupText(m, 3)))
  }

  /** On a string the grammar accepts, the extraction pattern finds the four groups. */
  lemma ValidatedGroups(s: string)
    requires Matches(CmykGrammar, s)
    ensures Extract(Extraction, s).Some? && |Extract(Extraction, s).value| == 4
  {
    assert forall k | 0 <= k < 4 :: CmykGrammar.fields[k] == Extraction.fields[k];
    ExtractionFindsValidated(CmykGrammar, Extraction, s);
  }

  /** `red()`, `green()` and `blue()`: the channels of the CMYK to RGB conversion,
      truncated by the `int` return type. */
  function Red(c: Color): (v: int)
    ensures Valid(c) ==> 0 <= v <= 255
    ensures c.key == 1.0 ==> v == 0
    ensures Valid(c) ==> v as real <= CmykValueToRgb(c.cyan, c.magenta, c.yellow, c.key).0 < v as real + 1.0
  {
    Truncate(CmykValueToRgb(c.cyan, c.magenta, c.yellow, c.key).0)
  }

  function Green(c: Color): (v: int)
    ensures Valid(c) ==> 0 <= v <= 255
    ensures c.key == 1.0 ==> v == 0
    ensures Valid(c) ==> v as real <= CmykValueToRgb(c.cyan, c.magenta, c.yellow, c.key).1 < v as real + 1.0
  {
    Truncate(CmykValueToRgb(c.cyan, c.magenta, c.yellow, c.key).1)
  }

  function Blue(c: Color): (v: int)
    ensures Valid(c) ==> 0 <= v <= 255
    ensures c.key == 1.0 ==> v == 0
    ensures Valid(c) ==> v as real <= CmykValueToRgb(c.cyan, c.magenta, c.yellow, c.key).2 < v as real + 1.0
  {
    Truncate(CmykValueToRgb(c.cyan, c.magenta, c.yellow, c.key).2)
  }

  /** cmyk(17%, 8%, 0%, 20%) has the channels 169, 187, 204: green is 187.68 truncated,
      not rounded. */
  lemma ChannelsExample(c: Color)
    requires c == Color(0.17, 0.08, 0.0, 0.2)
    ensures Red(c) == 169 && Green(c) == 187 && Blue(c) == 204
    ensures CmykValueToRgb(c.cyan, c.magenta, c.yellow, c.key).1 == 187.68
  {
    assert CmykValueToRgb(c.cyan, c.magenta, c.yellow, c.key) == (169.32, 187.68, 204.0);
  }

  /** `toCmyk`: a new value with the same four shares. */
  function ToCmyk(c: Color): (r: Result<Color>)
    ensures Valid(c) ==> r == Ok(c)
  {
    New(c.cyan, c.magenta, c.yellow, c.key)
  }

  /** `__toString`: each share as a whole percentage. */
  function ToString(c: Color): string
  {
    "cmyk(" + Percentage(c.cyan) + "%," + Percentage(c.magenta) + "%,"
      + Percentage(c.yellow) + "%," + Percentage(c.key) + "%)"
  }

  /** `round($x * 100)` as PHP prints it. */
  function Percentage(x: real): string
  {
    RoundedToString(x * 100.0)
  }

  /** The colour with each share rounded to whole percent, as the printer rounds it. */
  function Rounded(c: Color): Color
  {
    Color(Round2(c.cyan), Round2(c.magenta), Round2(c.yellow), Round2(c.key))
  }

  // ---------------------------------------------------------------------------
  // Parsing a printed colour
  // ---------------------------------------------------------------------------

  function Printed(a: string, b: string, d: string, e: string): string
  {
    "cmyk(" + a + "%," + b + "%," + d + "%," + e + "%)"
  }

  lemma PrintedLayout(a: string, b: string, d: string, e: string)
    ensures var s := Printed(a, b, d, e);
      |s| == 13 + |a| + |b| + |d| + |e| && s[..5] == "cmyk(" &&
      TextAt(s, 5, a) && s[5 + |a|] == '%' && s[6 + |a|] == ',' &&
      TextAt(s, 7 + |a|, b) && s[7 + |a| + |b|] == '%' && s[8 + |a| + |b|] == ',' &&
      TextAt(s, 9 + |a| + |b|, d) && s[9 + |a| + |b| + |d|] == '%' && s[10 + |a| + |b| + |d|] == ',' &&
      TextAt(s, 11 + |a| + |b| + |d|, e) && s[11 + |a| + |b| + |d| + |e|] == '%' &&
      s[12 + |a| + |b| + |d| + |e|] == ')'
  {
  }

  /** Where a printed text puts its four percentages. */
  function Spans(a: string, b: string, d: string, e: string): seq<Span>
  {
    [(5, 5 + |a|)] + LaterSpans3(7 + |a|, b, d, e)
  }

  function LaterSpans3(j: nat, b: string, d: string, e: string): seq<Span>
  {
    [(j, j + |b|)] + HsText.LaterSpans(false, j + |b| + 2, d, e)
  }

  /** Three percentages closed by `)`. */
  lemma ThreePercents(s: string, j: nat, b: string, d: string, e: string)
    requires PercentText(b) && PercentText(d) && PercentText(e) && j + |b| + |d| + |e| + 5 < |s|
    requires TextAt(s, j, b) && s[j + |b|] == '%' && s[j + |b| + 1] == ','
    requires TextAt(s, j + |b| + 2, d) && s[j + |b| + 2 + |d|] == '%' && s[j + |b| + 3 + |d|] == ','
    requires TextAt(s, j + |b| + |d| + 4, e) && s[j + |b| + |d| + 4 + |e|] == '%'
    requires s[j + |b| + |d| + 5 + |e|] == ')'
    ensures MatchFields(s, j, [F, F, F]) == Some((LaterSpans3(j, b, d, e), j + |b| + |d| + |e| + 6))
  {
    PercentFieldAt(s, j, b, false, false);
    assert FieldAt(s, j, F) == Some(((j, j + |b|), j + |b| + 1));
    TwoPercents(s, j + |b| + 2, d, e, false, false);
    Tail3(F, F, F);
    FieldThenRest(s, j, [F, F, F], (j, j + |b|), j + |b| + 1,
      (HsText.LaterSpans(false, j + |b| + 2, d, e), j + |b| + |d| + |e| + 6));
  }

  /** All four percentages after the keyword. */
  lemma FourPercents(s: string, a: string, b: string, d: string, e: string)
    requires PercentText(a) && PercentText(b) && PercentText(d) && PercentText(e)
    requires |s| == 13 + |a| + |b| + |d| + |e|
    requires TextAt(s, 5, a) && s[5 + |a|] == '%' && s[6 + |a|] == ','
    requires TextAt(s, 7 + |a|, b) && s[7 + |a| + |b|] == '%' && s[8 + |a| + |b|] == ','
    requires TextAt(s, 9 + |a| + |b|, d) && s[9 + |a| + |b| + |d|] == '%' && s[10 + |a| + |b| + |d|] == ','
    requires TextAt(s, 11 + |a| + |b| + |d|, e) && s[11 + |a| + |b| + |d| + |e|] == '%'
    requires s[12 + |a| + |b| + |d| + |e|] == ')'
    ensures MatchFields(s, 5, [F, F, F, F]) == Some((Spans(a, b, d, e), |s|))
  {
    PercentFieldAt(s, 5, a, false, false);
    assert FieldAt(s, 5, F) == Some(((5, 5 + |a|), 6 + |a|));
    ThreePercents(s, 7 + |a|, b, d, e);
    Tail4(F, F, F, F);
    FieldThenRest(s, 5, [F, F, F, F], (5, 5 + |a|), 6 + |a|, (LaterSpans3(7 + |a|, b, d, e), |s|));
  }

  lemma KeywordFirst(s: string)
    requires |s| >= 5 && s[..5] == "cmyk("
    ensures AfterKeyword(s, 0, ["cmyk("]) == Some(5)
  {
    assert ToLower(s[0..5]) == "cmyk(";
  }

  /** The grammar and the extraction pattern, which have the same fields, match the whole
      printed text. */
  lemma PrintedMatchAt(p: Pattern, a: string, b: string, d: string, e: string)
    requires p.keywords == ["cmyk("] && p.fields == [F, F, F, F]
    requires PercentText(a) && PercentText(b) && PercentText(d) && PercentText(e)
    ensures WellFormed(p)
    ensures MatchAt(p, Printed(a, b, d, e), 0) == Some((Spans(a, b, d, e), |Printed(a, b, d, e)|))
  {
    var s := Printed(a, b, d, e);
    PrintedLayout(a, b, d, e);
    KeywordFirst(s);
    FourPercents(s, a, b, d, e);
  }

  lemma PrintedMatches(a: string, b: string, d: string, e: string)
    requires PercentText(a) && PercentText(b) && PercentText(d) && PercentText(e)
    ensures Matches(CmykGrammar, Printed(a, b, d, e))
  {
    var s := Printed(a, b, d, e);
    PrintedMatchAt(CmykGrammar, a, b, d, e);
    assert SkipSpaces(s, 0) == 0 by {
      assert s[0] == 'c';
    }
  }

  lemma PrintedGroups(a: string, b: string, d: string, e: string)
    requires PercentText(a) && PercentText(b) && PercentText(d) && PercentText(e)
    ensures Extract(Extraction, Printed(a, b, d, e)) == Some([a, b, d, e])
  {
    var s := Printed(a, b, d, e);
    var spans := Spans(a, b, d, e);
    PrintedMatchAt(Extraction, a, b, d, e);
    assert Search(Extraction, s, 0) == Some(spans);
    PrintedSlices(a, b, d, e);
    FourGroups(Extraction, s, spans, a, b, d, e);
  }

  lemma PrintedSlices(a: string, b: string, d: string, e: string)
    ensures var s, spans := Printed(a, b, d, e), Spans(a, b, d, e);
      Slice(s, spans[0]) == a && Slice(s, spans[1]) == b &&
      Slice(s, spans[2]) == d && Slice(s, spans[3]) == e
  {
    HeadSlices(a, b, d, e);
    TailSlices(a, b, d, e);
  }

  lemma HeadSlices(a: string, b: string, d: string, e: string)
    ensures var s := Printed(a, b, d, e);
      s[5..5 + |a|] == a && s[7 + |a|..7 + |a| + |b|] == b
  {
    var s := Printed(a, b, d, e);
    assert s == "cmyk(" + a + ("%," + b + "%," + d + "%," + e + "%)");
    assert s == ("cmyk(" + a + "%,") + b + ("%," + d + "%," + e + "%)");
  }

  lemma TailSlices(a: string, b: string, d: string, e: string)
    ensures var s := Printed(a, b, d, e);
      s[9 + |a| + |b|..9 + |a| + |b| + |d|] == d &&
      s[11 + |a| + |b| + |d|..11 + |a| + |b| + |d| + |e|] == e
  {
    var s := Printed(a, b, d, e);
    assert s == ("cmyk(" + a + "%," + b + "%,") + d + ("%," + e + "%)");
    assert s == ("cmyk(" + a + "%," + b + "%," + d + "%,") + e + "%)";
  }

  /** What `fromString` does with a string the grammar accepts and the groups the
      extraction pattern finds in it. */
  lemma FromGroups(s: string, g: seq<string>)
    requires Matches(CmykGrammar, s) && Extract(Extraction, s) == Some(g) && |g| == 4
    ensures FromString(s) == New(Share(g[0]), Share(g[1]), Share(g[2]), Share(g[3]))
  {
  }

  /** A printed text parses to the constructor applied to its percentages divided by 100. */
  lemma PrintedParses(a: string, b: string, d: string, e: string)
    requires PercentText(a) && PercentText(b) && PercentText(d) && PercentText(e)
    ensures FromString(Printed(a, b, d, e)) == New(Share(a), Share(b), Share(d), Share(e))
    ensures Share(a) == DecimalValue(a) as real / 100.0 && Share(b) == DecimalValue(b) as real / 100.0
    ensures Share(d) == DecimalValue(d) as real / 100.0 && Share(e) == DecimalValue(e) as real / 100.0
  {
    PrintedMatches(a, b, d, e);
    PrintedGroups(a, b, d, e);
    FromGroups(Printed(a, b, d, e), [a, b, d, e]);
    ShareOfDigits(a);
    ShareOfDigits(b);
    ShareOfDigits(d);
    ShareOfDigits(e);
  }

  /** The printed text of a valid colour and the whole percentages it shows. */
  lemma PrintedRounded(c: Color) returns (a: string, b: string, d: string, e: string)
    requires Valid(c)
    ensures PercentText(a) && PercentText(b) && PercentText(d) && PercentText(e)
    ensures ToString(c) == Printed(a, b, d, e)
    ensures Share(a) == Round2(c.cyan) && Share(b) == Round2(c.magenta)
    ensures Share(d) == Round2(c.yellow) && Share(e) == Round2(c.key)
  {
    a := PrintedShare(c.cyan);
    b := PrintedShare(c.magenta);
    d := PrintedShare(c.yellow);
    e := PrintedShare(c.key);
    ToStringPrinted(c);
  }

  lemma ToStringPrinted(c: Color)
    ensures ToString(c) == Printed(Percentage(c.cyan), Percentage(c.magenta),
      Percentage(c.yellow), Percentage(c.key))
  {
  }

  /** One share printed as a percentage: digits worth the share rounded to hundredths. */
  lemma PrintedShare(x: real) returns (t: string)
    requires Unit(x)
    ensures t == Percentage(x)
    ensures PercentText(t) && Share(t) == Round2(x)
  {
    var y := x * 100.0;
    var m := Hundredths(x);
    assert Round(y) == m;
    RoundedComponent(y);
    t := RoundedToString(y);
    ShareOfDigits(t);
    assert Round2(x) == Round(y) as real / 100.0;
  }

  /** Printing a valid colour and parsing the text gives the colour with each share
      rounded to whole percent. */
  lemma PrintParse(c: Color)
    requires Valid(c)
    ensures FromString(ToString(c)) == Ok(Rounded(c))
  {
    var a, b, d, e := PrintedRounded(c);
    PrintedParses(a, b, d, e);
    var _ := Hundredths(c.cyan);
    var _ := Hundredths(c.magenta);
    var _ := Hundredths(c.yellow);
    var _ := Hundredths(c.key);
    assert FromString(Printed(a, b, d, e)) == Ok(Rounded(c));
  }

  /** A percentage above 100, such as the 150 of `cmyk(150%,0%,0%,0%)`, passes the grammar
      and fails in the constructor. */
  lemma CyanOutOfRange(a: string, b: string, d: string, e: string)
    requires PercentText(a) && PercentText(b) && PercentText(d) && PercentText(e)
    requires DecimalValue(a) > 100
    ensures Matches(CmykGrammar, Printed(a, b, d, e))
    ensures Share(a) > 1.0
    ensures FromString(Printed(a, b, d, e)) == Err(Invalid(CmykValueNotInRange(Share(a), "cyan")))
  {
    PrintedMatches(a, b, d, e);
    PrintedParses(a, b, d, e);
    assert !Unit(Share(a));
  }
}
