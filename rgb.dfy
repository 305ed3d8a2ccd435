/** `Rgb`: a colour as three integer channels in 0..255. */
module Rgb {
  import opened Php
  import opened Errors
  import opened Regex
  import opened Validate
  import opened Params

  datatype Color = Color(red: int, green: int, blue: int)

  predicate Valid(c: Color)
  {
    0 <= c.red <= 255 && 0 <= c.green <= 255 && 0 <= c.blue <= 255
  }

  /** The constructor: red, green and blue are checked in that order. */
  function New(red: int, green: int, blue: int): (r: Result<Color>)
    ensures r.Ok? <==> 0 <= red <= 255 && 0 <= green <= 255 && 0 <= blue <= 255
    ensures !(0 <= red <= 255) ==> r == Err(Invalid(RgbChannelValueNotInRange(red, "red")))
    ensures 0 <= red <= 255 && !(0 <= green <= 255) ==>
      r == Err(Invalid(RgbChannelValueNotInRange(green, "green")))
    ensures 0 <= red <= 255 && 0 <= green <= 255 && !(0 <= blue <= 255) ==>
      r == Err(Invalid(RgbChannelValueNotInRange(blue, "blue")))
    ensures r.Ok? ==> r.value == Color(red, green, blue) && Valid(r.value)
  {
    var _ :- RgbChannelValue(red, "red");
    var _ :- RgbChannelValue(green, "green");
    var _ :- RgbChannelValue(blue, "blue");
    Ok(Color(red, green, blue))
  }

  /** `/rgb\( *(\d{1,3} *, *\d{1,3} *, *\d{1,3}) *\)/i`: one group around all three
      channels. */
  const Extraction := Pattern(["rgb("], [Int(3, false), Int(3, false), Int(3, false)], true)

  /** `fromString`: the grammar, then the group split on commas and trimmed, each item
      passed to the constructor's `int` parameters in order. */
  function FromString(s: string): (r: Result<Color>)
    ensures !Matches(RgbGrammar, s) ==> r == Err(Invalid(MalformedRgbColorString(s)))
    ensures r.Ok? ==> Matches(RgbGrammar, s) && Valid(r.value)
  {
    var _ :- RgbColorString(s);
    FromItems(Explode(',', Captured(Extraction, s)))
  }

  /** `[$red, $green, $blue] = array_map('trim', $channels)` and the constructor call. */
  function FromItems(items: seq<string>): (r: Result<Color>)
    ensures r.Ok? ==> Valid(r.value)
  {
    var red :- IntItem(items, 0, "red");
    var green :- IntItem(items, 1, "green");
    var blue :- IntItem(items, 2, "blue");
    New(red, green, blue)
  }

  /** Three numeric items reach the constructor as their values, trimmed and truncated. */
  lemma FromItemsValues(items: seq<string>)
    ensures NumericItems(items, 3) ==> FromItems(items) == New(IntAt(items, 0), IntAt(items, 1), IntAt(items, 2))
  {
    NumericItems3(items);
    if NumericItems(items, 3) {
      assert IntItem(items, 0, "red") == Ok(IntAt(items, 0));
      assert IntItem(items, 1, "green") == Ok(IntAt(items, 1));
      assert IntItem(items, 2, "blue") == Ok(IntAt(items, 2));
    }
  }

  /** A missing or non-numeric item is a `TypeError` before the constructor is called. */
  lemma FromItemsTypeError(items: seq<string>)
    ensures !NumericItems(items, 3) ==> FromItems(items).Err? && FromItems(items).failure.TypeError?
  {
    NumericItems3(items);
    if |items| == 0 || !LeadingNumeric(Trim(items[0])) {
      assert IntItem(items, 0, "red").Err?;
    } else if |items| <= 1 || !LeadingNumeric(Trim(items[1])) {
      assert IntItem(items, 1, "green").Err?;
    } else if |items| <= 2 || !LeadingNumeric(Trim(items[2])) {
      assert IntItem(items, 2, "blue").Err?;
    }
  }

  /** On any string the grammar accepts, with or without spaces, the extraction pattern
      finds its one group, and `fromString` is `FromItems` on that group split at its
      commas. */
  lemma ValidatedGroups(s: string)
    requires Matches(RgbGrammar, s)
    ensures Extract(Extraction, s).Some? && |Extract(Extraction, s).value| == 1
    ensures FromString(s) == FromItems(Explode(',', Extract(Extraction, s).value[0]))
  {
    assert Refines(RgbGrammar, Extraction) by {
      assert forall k | 0 <= k < 3 :: FieldRefines(RgbGrammar.fields[k], Extraction.fields[k]);
    }
    CapturedValidated(RgbGrammar, Extraction, s);
    assert RgbColorString(s) == Ok(());
  }

  /** `toRgb`: a new value with the same channels. */
  function ToRgb(c: Color): (r: Result<Color>)
    ensures Valid(c) ==> r == Ok(c)
  {
    New(c.red, c.green, c.blue)
  }

  /** `__toString`: `rgb(r,g,b)` with no spaces. */
  function ToString(c: Color): (s: string)
    ensures Valid(c) ==>
      s == Printed(NatToString(c.red), NatToString(c.green), NatToString(c.blue))
  {
    "rgb(" + IntToString(c.red) + "," + IntToString(c.green) + "," + IntToString(c.blue) + ")"
  }

  // ---------------------------------------------------------------------------
  // Parsing a printed colour
  // ---------------------------------------------------------------------------

  /** One to three decimal digits: the text of a `\d{1,3}` field. */
  predicate Channel(t: string) { 1 <= |t| <= 3 && AllDigits(t) }

  function Printed(a: string, b: string, d: string): string
  {
    "rgb(" + a + "," + b + "," + d + ")"
  }

  lemma PrintedLayout(a: string, b: string, d: string)
    ensures var s := Printed(a, b, d);
      |s| == 7 + |a| + |b| + |d| && s[..4] == "rgb(" &&
      TextAt(s, 4, a) && s[4 + |a|] == ',' &&
      TextAt(s, 5 + |a|, b) && s[5 + |a| + |b|] == ',' &&
      TextAt(s, 6 + |a| + |b|, d) && s[6 + |a| + |b| + |d|] == ')'
  {
  }

  /** The text between the parentheses. */
  lemma PrintedInner(a: string, b: string, d: string)
    ensures Printed(a, b, d)[4..6 + |a| + |b| + |d|] == a + "," + b + "," + d
  {
    assert Printed(a, b, d) == "rgb(" + (a + "," + b + "," + d) + ")";
  }

  const F := Int(3, false)

  /** Where the printed text puts its three channels. */
  function Spans(a: string, b: string, d: string): seq<Span>
  {
    [(4, 4 + |a|)] + LaterSpans(5 + |a|, b, d)
  }

  /** The spans of the last two channels when the second starts at `j`. */
  function LaterSpans(j: nat, b: string, d: string): seq<Span>
  {
    [(j, j + |b|), (j + |b| + 1, j + |b| + 1 + |d|)]
  }

  /** A channel followed by a comma, then a channel closed by `)`. */
  lemma TwoChannels(s: string, j: nat, b: string, d: string)
    requires Channel(b) && Channel(d) && j + |b| + |d| + 1 < |s|
    requires TextAt(s, j, b) && s[j + |b|] == ','
    requires TextAt(s, j + |b| + 1, d) && s[j + |b| + 1 + |d|] == ')'
    ensures MatchFields(s, j, [F, F]) == Some((LaterSpans(j, b, d), j + |b| + |d| + 2))
  {
    var k := j + |b| + 1;
    DigitsFieldAt(s, j, b, 3);
    DigitsFieldAt(s, k, d, 3);
    Tail2(F, F);
    assert MatchFields(s, k, [F]) == Some(([(k, k + |d|)], k + |d| + 1));
    Cons2((j, j + |b|), (k, k + |d|));
  }

  /** Three channels separated by commas and closed by `)` match the three fields. */
  lemma ThreeFields(s: string, a: string, b: string, d: string)
    requires Channel(a) && Channel(b) && Channel(d)
    requires |s| == 7 + |a| + |b| + |d|
    requires TextAt(s, 4, a) && s[4 + |a|] == ','
    requires TextAt(s, 5 + |a|, b) && s[5 + |a| + |b|] == ','
    requires TextAt(s, 6 + |a| + |b|, d) && s[6 + |a| + |b| + |d|] == ')'
    ensures MatchFields(s, 4, [F, F, F]) == Some((Spans(a, b, d), |s|))
  {
    DigitsFieldAt(s, 4, a, 3);
    TwoChannels(s, 5 + |a|, b, d);
    Tail3(F, F, F);
  }

  /** Both the grammar and the extraction pattern match the whole printed text. */
  lemma PrintedMatchAt(p: Pattern, a: string, b: string, d: string)
    requires p.keywords == ["rgb("] && p.fields == [F, F, F]
    requires Channel(a) && Channel(b) && Channel(d)
    ensures MatchAt(p, Printed(a, b, d), 0) == Some((Spans(a, b, d), |Printed(a, b, d)|))
  {
    var s := Printed(a, b, d);
    PrintedLayout(a, b, d);
    KeywordFirst(s);
    ThreeFields(s, a, b, d);
  }

  lemma KeywordFirst(s: string)
    requires |s| >= 4 && s[..4] == "rgb("
    ensures AfterKeyword(s, 0, ["rgb("]) == Some(4)
  {
    assert ToLower(s[0..4]) == "rgb(";
  }

  lemma PrintedMatches(a: string, b: string, d: string)
    requires Channel(a) && Channel(b) && Channel(d)
    ensures Matches(RgbGrammar, Printed(a, b, d))
  {
    var s := Printed(a, b, d);
    PrintedMatchAt(RgbGrammar, a, b, d);
    assert SkipSpaces(s, 0) == 0;
    assert SkipSpaces(s, |s|) == |s|;
  }

  lemma PrintedCaptured(a: string, b: string, d: string)
    requires Channel(a) && Channel(b) && Channel(d)
    ensures Captured(Extraction, Printed(a, b, d)) == a + "," + b + "," + d
  {
    var s := Printed(a, b, d);
    PrintedMatchAt(Extraction, a, b, d);
    assert Search(Extraction, s, 0) == Some(Spans(a, b, d));
    CapturedJoined(Extraction, s, Spans(a, b, d));
    PrintedInner(a, b, d);
  }

  /** The group splits into the three channel texts. */
  lemma SplitChannels(a: string, b: string, d: string)
    requires Channel(a) && Channel(b) && Channel(d)
    ensures Explode(',', a + "," + b + "," + d) == [a, b, d]
  {
    NoComma(a);
    NoComma(b);
    NoComma(d);
    ExplodeThree(',', a, b, d);
  }

  lemma NoComma(t: string)
    requires AllDigits(t)
    ensures ',' !in t
  {
  }

  /** A well-formed printed text parses to the constructor applied to its three decimal
      values; channels above 255 pass the grammar and fail there. */
  lemma PrintedParses(a: string, b: string, d: string)
    requires Channel(a) && Channel(b) && Channel(d)
    ensures FromString(Printed(a, b, d)) == New(DecimalValue(a), DecimalValue(b), DecimalValue(d))
  {
    var s := Printed(a, b, d);
    PrintedMatches(a, b, d);
    PrintedCaptured(a, b, d);
    SplitChannels(a, b, d);
    assert FromString(s) == FromItems([a, b, d]);
    DigitItems(a, b, d);
  }

  lemma DigitItems(a: string, b: string, d: string)
    requires Channel(a) && Channel(b) && Channel(d)
    ensures FromItems([a, b, d]) == New(DecimalValue(a), DecimalValue(b), DecimalValue(d))
  {
    var items := [a, b, d];
    assert items[0] == a && items[1] == b && items[2] == d;
    DigitsItem(items, 0, "red");
    DigitsItem(items, 1, "green");
    DigitsItem(items, 2, "blue");
  }

  /** Printing a colour and parsing the text gives the colour back. */
  lemma PrintParse(c: Color)
    requires Valid(c)
    ensures FromString(ToString(c)) == Ok(c)
  {
    var a, b, d := NatToString(c.red), NatToString(c.green), NatToString(c.blue);
    ChannelText(c.red);
    ChannelText(c.green);
    ChannelText(c.blue);
    PrintedParses(a, b, d);
  }

  lemma ChannelText(v: nat)
    requires v <= 255
    ensures Channel(NatToString(v)) && DecimalValue(NatToString(v)) == v
  {
    NatToStringDigits(v);
    NumDigitsBounds(v);
  }

  /** A channel above 255, such as the 300 of `rgb(300,0,0)`, passes the grammar and
      fails in the constructor. */
  lemma ChannelOutOfRange(a: string, b: string, d: string)
    requires Channel(a) && Channel(b) && Channel(d) && DecimalValue(a) > 255
    ensures Matches(RgbGrammar, Printed(a, b, d))
    ensures FromString(Printed(a, b, d)) == Err(Invalid(RgbChannelValueNotInRange(DecimalValue(a), "red")))
  {
    PrintedMatches(a, b, d);
    PrintedParses(a, b, d);
  }
}
