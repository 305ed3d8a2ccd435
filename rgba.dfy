/** `Rgba`: three integer channels in 0..255 and an alpha in [0, 1]. */
module Rgba {
  import opened Php
  import opened Errors
  import opened Regex
  import opened Validate
  import opened Params
  import Rgb

  datatype Color = Color(red: int, green: int, blue: int, alpha: real)

  predicate Valid(c: Color)
  {
    0 <= c.red <= 255 && 0 <= c.green <= 255 && 0 <= c.blue <= 255 && 0.0 <= c.alpha <= 1.0
  }

  /** The constructor: red, green, blue, then alpha. */
  function New(red: int, green: int, blue: int, alpha: real): (r: Result<Color>)
    ensures r.Ok? <==> 0 <= red <= 255 && 0 <= green <= 255 && 0 <= blue <= 255 && 0.0 <= alpha <= 1.0
    ensures !(0 <= red <= 255) ==> r == Err(Invalid(RgbChannelValueNotInRange(red, "red")))
    ensures 0 <= red <= 255 && !(0 <= green <= 255) ==>
      r == Err(Invalid(RgbChannelValueNotInRange(green, "green")))
    ensures 0 <= red <= 255 && 0 <= green <= 255 && !(0 <= blue <= 255) ==>
      r == Err(Invalid(RgbChannelValueNotInRange(blue, "blue")))
    ensures 0 <= red <= 255 && 0 <= green <= 255 && 0 <= blue <= 255 && !(0.0 <= alpha <= 1.0) ==>
      r == Err(Invalid(AlphaChannelValueNotInRange(Truncate(alpha))))
    ensures r.Ok? ==> r.value == Color(red, green, blue, alpha) && Valid(r.value)
  {
    var _ :- RgbChannelValue(red, "red");
    var _ :- RgbChannelValue(green, "green");
    var _ :- RgbChannelValue(blue, "blue");
    var _ :- AlphaChannelValue(alpha);
    Ok(Color(red, green, blue, alpha))
  }

  /** `/rgba\( *(\d{1,3} *, *\d{1,3} *, *\d{1,3} *, *[0-1](\.\d{1,2})?) *\)/i`: the
      first group spans all four fields. */
  const Extraction := Pattern(["rgba("], [Int(3, false), Int(3, false), Int(3, false), Alpha], true)

  /** `fromString`: the grammar, then the first group split on commas and trimmed. */
  function FromString(s: string): (r: Result<Color>)
    ensures !Matches(RgbaGrammar, s) ==> r == Err(Invalid(MalformedRgbaColorString(s)))
    ensures r.Ok? ==> Matches(RgbaGrammar, s) && Valid(r.value)
  {
    var _ :- RgbaColorString(s);
    FromItems(Explode(',', Captured(Extraction, s)))
  }

  /** `list($red, $green, $blue, $alpha) = array_map('trim', $channels)` and the
      constructor call with its `int`, `int`, `int`, `float` parameters. */
  function FromItems(items: seq<string>): (r: Result<Color>)
    ensures r.Ok? ==> Valid(r.value)
  {
    var red :- IntItem(items, 0, "red");
    var green :- IntItem(items, 1, "green");
    var blue :- IntItem(items, 2, "blue");
    var alpha :- FloatItem(items, 3, "alpha");
    New(red, green, blue, alpha)
  }

  /** Four numeric items reach the constructor as their values, trimmed (the channels truncated). */
  lemma FromItemsValues(items: seq<string>)
    ensures NumericItems(items, 4) ==> FromItems(items) == New(IntAt(items, 0), IntAt(items, 1), IntAt(items, 2), FloatAt(items, 3))
  {
    NumericItems4(items);
    if NumericItems(items, 4) {
      assert IntItem(items, 0, "red") == Ok(IntAt(items, 0));
      assert IntItem(items, 1, "green") == Ok(IntAt(items, 1));
      assert IntItem(items, 2, "blue") == Ok(IntAt(items, 2));
      assert FloatItem(items, 3, "alpha") == Ok(FloatAt(items, 3));
    }
  }

  /** A missing or non-numeric item is a `TypeError` before the constructor is called. */
  lemma FromItemsTypeError(items: seq<string>)
    ensures !NumericItems(items, 4) ==> FromItems(items).Err? && FromItems(items).failure.TypeError?
  {
    NumericItems4(items);
    if |items| == 0 || !LeadingNumeric(Trim(items[0])) {
      assert IntItem(items, 0, "red") == Err(TypeError("red"));
      assert FromItems(items) == Err(TypeError("red"));
    } else if |items| <= 1 || !LeadingNumeric(Trim(items[1])) {
      assert IntItem(items, 0, "red").Ok?;
      assert IntItem(items, 1, "green") == Err(TypeError("green"));
      assert FromItems(items) == Err(TypeError("green"));
    } else if |items| <= 2 || !LeadingNumeric(Trim(items[2])) {
      assert IntItem(items, 0, "red").Ok? && IntItem(items, 1, "green").Ok?;
      assert IntItem(items, 2, "blue") == Err(TypeError("blue"));
      assert FromItems(items) == Err(TypeError("blue"));
    } else if |items| <= 3 || !LeadingNumeric(Trim(items[3])) {
      assert IntItem(items, 0, "red").Ok? && IntItem(items, 1, "green").Ok?;
      assert IntItem(items, 2, "blue").Ok?;
      assert FloatItem(items, 3, "alpha") == Err(TypeError("alpha"));
      assert FromItems(items) == Err(TypeError("alpha"));
    }
  }

  /** On any string the grammar accepts, with or without spaces, the extraction pattern
      finds its one group, and `fromString` is `FromItems` on that group split at its
      commas. */
  lemma ValidatedGroups(s: string)
    requires Matches(RgbaGrammar, s)
    ensures Extract(Extraction, s).Some? && |Extract(Extraction, s).value| == 1
    ensures FromString(s) == FromItems(Explode(',', Extract(Extraction, s).value[0]))
  {
    assert Refines(RgbaGrammar, Extraction) by {
      assert forall k | 0 <= k < 4 :: FieldRefines(RgbaGrammar.fields[k], Extraction.fields[k]);
    }
    CapturedValidated(RgbaGrammar, Extraction, s);
    assert RgbaColorString(s) == Ok(());
  }

  /** `__toString`: the channels, and alpha with exactly two decimals. */
  function ToString(c: Color): (s: string)
    ensures Valid(c) ==> s == Printed(NatToString(c.red), NatToString(c.green),
      NatToString(c.blue), NumberFormat2(c.alpha))
  {
    "rgba(" + IntToString(c.red) + "," + IntToString(c.green) + "," + IntToString(c.blue) + ","
      + NumberFormat2(c.alpha) + ")"
  }

  // ---------------------------------------------------------------------------
  // Parsing a printed colour
  // ---------------------------------------------------------------------------

  function Printed(a: string, b: string, d: string, al: string): string
  {
    "rgba(" + a + "," + b + "," + d + "," + al + ")"
  }

  lemma PrintedLayout(a: string, b: string, d: string, al: string)
    ensures var s := Printed(a, b, d, al);
      |s| == 9 + |a| + |b| + |d| + |al| && s[..5] == "rgba(" &&
      TextAt(s, 5, a) && s[5 + |a|] == ',' &&
      TextAt(s, 6 + |a|, b) && s[6 + |a| + |b|] == ',' &&
      TextAt(s, 7 + |a| + |b|, d) && s[7 + |a| + |b| + |d|] == ',' &&
      TextAt(s, 8 + |a| + |b| + |d|, al) && s[8 + |a| + |b| + |d| + |al|] == ')'
  {
  }

  /** The text between the parentheses. */
  lemma PrintedInner(a: string, b: string, d: string, al: string)
    ensures Printed(a, b, d, al)[5..8 + |a| + |b| + |d| + |al|] == a + "," + b + "," + d + "," + al
  {
    assert Printed(a, b, d, al) == "rgba(" + (a + "," + b + "," + d + "," + al) + ")";
  }

  const F := Int(3, false)

  function Spans(a: string, b: string, d: string, al: string): seq<Span>
  {
    [(5, 5 + |a|)] + LaterSpans(6 + |a|, b, d, al)
  }

  /** The spans of the last three fields when the second starts at `j`. */
  function LaterSpans(j: nat, b: string, d: string, al: string): seq<Span>
  {
    [(j, j + |b|), (j + |b| + 1, j + |b| + 1 + |d|), (j + |b| + |d| + 2, j + |b| + |d| + 2 + |al|)]
  }

  /** The alpha field closed by `)`. */
  lemma AlphaLast(s: string, k: nat, al: string)
    requires AlphaText(al) && TextAt(s, k, al) && k + |al| < |s| && s[k + |al|] == ')'
    ensures MatchFields(s, k, [Alpha]) == Some(([(k, k + |al|)], k + |al| + 1))
  {
    AlphaFieldAt(s, k, al);
  }

  /** Two channels, each followed by a comma, then the alpha field. */
  lemma ChannelsThenAlpha(s: string, j: nat, b: string, d: string, al: string)
    requires Rgb.Channel(b) && Rgb.Channel(d) && AlphaText(al)
    requires j + |b| + |d| + |al| + 2 < |s|
    requires TextAt(s, j, b) && s[j + |b|] == ','
    requires TextAt(s, j + |b| + 1, d) && s[j + |b| + 1 + |d|] == ','
    requires TextAt(s, j + |b| + |d| + 2, al) && s[j + |b| + |d| + 2 + |al|] == ')'
    ensures MatchFields(s, j, [F, F, Alpha]) == Some((LaterSpans(j, b, d, al), j + |b| + |d| + |al| + 3))
  {
    var k, m := j + |b| + 1, j + |b| + |d| + 2;
    AlphaLast(s, m, al);
    Tail2(F, Alpha);
    DigitsThenRest(s, k, d, 3, [F, Alpha], ([(m, m + |al|)], m + |al| + 1));
    Cons2((k, k + |d|), (m, m + |al|));
    Tail3(F, F, Alpha);
    DigitsThenRest(s, j, b, 3, [F, F, Alpha], ([(k, k + |d|), (m, m + |al|)], m + |al| + 1));
    Cons3((j, j + |b|), (k, k + |d|), (m, m + |al|));
  }

  lemma FourFields(s: string, a: string, b: string, d: string, al: string)
    requires Rgb.Channel(a) && Rgb.Channel(b) && Rgb.Channel(d) && AlphaText(al)
    requires |s| == 9 + |a| + |b| + |d| + |al|
    requires TextAt(s, 5, a) && s[5 + |a|] == ','
    requires TextAt(s, 6 + |a|, b) && s[6 + |a| + |b|] == ','
    requires TextAt(s, 7 + |a| + |b|, d) && s[7 + |a| + |b| + |d|] == ','
    requires TextAt(s, 8 + |a| + |b| + |d|, al) && s[8 + |a| + |b| + |d| + |al|] == ')'
    ensures MatchFields(s, 5, [F, F, F, Alpha]) == Some((Spans(a, b, d, al), |s|))
  {
    ChannelsThenAlpha(s, 6 + |a|, b, d, al);
    Tail4(F, F, F, Alpha);
    DigitsThenRest(s, 5, a, 3, [F, F, F, Alpha], (LaterSpans(6 + |a|, b, d, al), |s|));
  }

  lemma KeywordFirst(s: string)
    requires |s| >= 5 && s[..5] == "rgba("
    ensures AfterKeyword(s, 0, ["rgba("]) == Some(5)
  {
    assert ToLower(s[0..5]) == "rgba(";
  }

  /** Both the grammar and the extraction pattern match the whole printed text. */
  lemma PrintedMatchAt(p: Pattern, a: string, b: string, d: string, al: string)
    requires p.keywords == ["rgba("] && p.fields == [F, F, F, Alpha]
    requires Rgb.Channel(a) && Rgb.Channel(b) && Rgb.Channel(d) && AlphaText(al)
    ensures MatchAt(p, Printed(a, b, d, al), 0) == Some((Spans(a, b, d, al), |Printed(a, b, d, al)|))
  {
    var s := Printed(a, b, d, al);
    PrintedLayout(a, b, d, al);
    KeywordFirst(s);
    FourFields(s, a, b, d, al);
  }

  lemma PrintedMatches(a: string, b: string, d: string, al: string)
    requires Rgb.Channel(a) && Rgb.Channel(b) && Rgb.Channel(d) && AlphaText(al)
    ensures Matches(RgbaGrammar, Printed(a, b, d, al))
  {
    var s := Printed(a, b, d, al);
    PrintedMatchAt(RgbaGrammar, a, b, d, al);
    assert SkipSpaces(s, 0) == 0;
    assert SkipSpaces(s, |s|) == |s|;
  }

  lemma PrintedCaptured(a: string, b: string, d: string, al: string)
    requires Rgb.Channel(a) && Rgb.Channel(b) && Rgb.Channel(d) && AlphaText(al)
    ensures Captured(Extraction, Printed(a, b, d, al)) == a + "," + b + "," + d + "," + al
  {
    var s := Printed(a, b, d, al);
    PrintedMatchAt(Extraction, a, b, d, al);
    assert Search(Extraction, s, 0) == Some(Spans(a, b, d, al));
    CapturedJoined(Extraction, s, Spans(a, b, d, al));
    PrintedInner(a, b, d, al);
  }

  lemma SplitFields(a: string, b: string, d: string, al: string)
    requires Rgb.Channel(a) && Rgb.Channel(b) && Rgb.Channel(d) && AlphaText(al)
    ensures Explode(',', a + "," + b + "," + d + "," + al) == [a, b, d, al]
  {
    assert ',' !in al by {
      if |al| > 1 {
        assert forall k | 2 <= k < |al| :: al[k] == al[2..][k - 2];
      }
    }
    Rgb.NoComma(a);
    Rgb.NoComma(b);
    Rgb.NoComma(d);
    ExplodeThree(',', b, d, al);
    assert a + "," + b + "," + d + "," + al == a + [','] + (b + [','] + d + [','] + al);
    ExplodeJoin(',', a, b + [','] + d + [','] + al);
  }

  lemma ItemsValues(a: string, b: string, d: string, al: string)
    requires Rgb.Channel(a) && Rgb.Channel(b) && Rgb.Channel(d) && AlphaText(al)
    ensures FromItems([a, b, d, al]) ==
      New(DecimalValue(a), DecimalValue(b), DecimalValue(d), Decimal1Value(al))
  {
    var items := [a, b, d, al];
    assert items[0] == a && items[1] == b && items[2] == d && items[3] == al;
    DigitsItem(items, 0, "red");
    DigitsItem(items, 1, "green");
    DigitsItem(items, 2, "blue");
    Decimal1Arg(al, "alpha");
    FromItemsOk(items, DecimalValue(a), DecimalValue(b), DecimalValue(d), Decimal1Value(al));
  }

  lemma FromItemsOk(items: seq<string>, red: int, green: int, blue: int, alpha: real)
    requires IntItem(items, 0, "red") == Ok(red) && IntItem(items, 1, "green") == Ok(green)
    requires IntItem(items, 2, "blue") == Ok(blue)
    requires |items| > 3 && FloatArg(items[3], "alpha") == Ok(alpha) && Trim(items[3]) == items[3]
    ensures FromItems(items) == New(red, green, blue, alpha)
  {
    assert FloatItem(items, 3, "alpha") == Ok(alpha);
  }

  /** A well-formed printed text parses to the constructor applied to its values; an
      alpha such as `1.5` passes the grammar and fails there. */
  lemma PrintedParses(a: string, b: string, d: string, al: string)
    requires Rgb.Channel(a) && Rgb.Channel(b) && Rgb.Channel(d) && AlphaText(al)
    ensures FromString(Printed(a, b, d, al)) ==
      New(DecimalValue(a), DecimalValue(b), DecimalValue(d), Decimal1Value(al))
  {
    var s := Printed(a, b, d, al);
    PrintedMatches(a, b, d, al);
    PrintedCaptured(a, b, d, al);
    SplitFields(a, b, d, al);
    assert FromString(s) == FromItems([a, b, d, al]);
    ItemsValues(a, b, d, al);
  }

  /** An alpha such as `1.5` passes the grammar and fails in the constructor. */
  lemma AlphaOutOfRange(a: string, b: string, d: string, al: string)
    requires Rgb.Channel(a) && Rgb.Channel(b) && Rgb.Channel(d) && AlphaText(al)
    requires DecimalValue(a) <= 255 && DecimalValue(b) <= 255 && DecimalValue(d) <= 255
    requires Decimal1Value(al) > 1.0
    ensures Matches(RgbaGrammar, Printed(a, b, d, al))
    ensures FromString(Printed(a, b, d, al)) ==
      Err(Invalid(AlphaChannelValueNotInRange(Truncate(Decimal1Value(al)))))
  {
    PrintedMatches(a, b, d, al);
    PrintedParses(a, b, d, al);
  }

  /** The alpha has at most two decimals, so `number_format` prints it exactly. */
  predicate TwoDecimals(x: real) { (x * 100.0).Floor as real == x * 100.0 }

  /** Alpha `n/100` prints as a text the alpha field accepts and reads back as `n/100`. */
  lemma AlphaCents(n: nat)
    requires n <= 100
    ensures AlphaText(NumberFormat2(n as real / 100.0))
    ensures Decimal1Value(NumberFormat2(n as real / 100.0)) == n as real / 100.0
  {
    NumberFormatCents(n);
    var d0, d1, d2 := n / 100, n / 10 % 10, n % 10;
    DigitCharValue(d0);
    DigitCharValue(d1);
    DigitCharValue(d2);
    CentsText(DigitChar(d0), DigitChar(d1), DigitChar(d2));
    assert n == 100 * d0 + 10 * d1 + d2;
  }

  /** A units digit of 0 or 1, a point and two digits: an alpha text worth its digits. */
  lemma CentsText(x: char, y: char, z: char)
    requires (x == '0' || x == '1') && IsDigit(y) && IsDigit(z)
    ensures AlphaText([x, '.', y, z]) && Decimal1([x, '.', y, z])
    ensures Decimal1Value([x, '.', y, z]) ==
      DigitValue(x) as real + DigitValue(y) as real / 10.0 + DigitValue(z) as real / 100.0
  {
    assert [x, '.', y, z][2..] == [y, z];
    FractionOfTwo(y, z);
  }

  /** Printing a colour whose alpha has at most two decimals and parsing the text gives
      the colour back. */
  lemma PrintParse(c: Color)
    requires Valid(c) && TwoDecimals(c.alpha)
    ensures FromString(ToString(c)) == Ok(c)
  {
    var n := Cents(c.alpha);
    var x := n as real / 100.0;
    AlphaCents(n);
    var a, b, d, al := NatToString(c.red), NatToString(c.green), NatToString(c.blue), NumberFormat2(x);
    Rgb.ChannelText(c.red);
    Rgb.ChannelText(c.green);
    Rgb.ChannelText(c.blue);
    assert ToString(c) == Printed(a, b, d, al);
    PrintedParses(a, b, d, al);
    assert Decimal1Value(al) == c.alpha;
  }

  /** The alpha as a whole number of hundredths. */
  lemma Cents(x: real) returns (n: nat)
    requires 0.0 <= x <= 1.0 && TwoDecimals(x)
    ensures n <= 100 && x == n as real / 100.0
  {
    n := (x * 100.0).Floor;
  }
}
