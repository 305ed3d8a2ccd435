/** `Xyz`: a colour as CIE 1931 XYZ tristimulus values, each bounded by the D65 white
    point. */
module Xyz {
  import opened Php
  import opened Errors
  import opened Regex
  import opened Validate
  import opened Params
  import opened HsText
  import opened LazyText

  datatype Color = Color(x: real, y: real, z: real)

  predicate Valid(c: Color)
  {
    0.0 <= c.x <= 95.047 && 0.0 <= c.y <= 100.0 && 0.0 <= c.z <= 108.883
  }

  /** The constructor: x, y and z are checked in that order. */
  function New(x: real, y: real, z: real): (r: Result<Color>)
    ensures r.Ok? <==> 0.0 <= x <= 95.047 && 0.0 <= y <= 100.0 && 0.0 <= z <= 108.883
    ensures !(0.0 <= x <= 95.047) ==> r == Err(Invalid(XyzValueNotInRange(x, "x", 0.0, 95.047)))
    ensures 0.0 <= x <= 95.047 && !(0.0 <= y <= 100.0) ==>
      r == Err(Invalid(XyzValueNotInRange(y, "y", 0.0, 100.0)))
    ensures 0.0 <= x <= 95.047 && 0.0 <= y <= 100.0 && !(0.0 <= z <= 108.883) ==>
      r == Err(Invalid(XyzValueNotInRange(z, "z", 0.0, 108.883)))
    ensures r.Ok? ==> r.value == Color(x, y, z) && Valid(r.value)
  {
    var _ :- XyzValue(x, "x");
    var _ :- XyzValue(y, "y");
    var _ :- XyzValue(z, "z");
    Ok(Color(x, y, z))
  }

  /** `/xyz\( *(\d{1,2}\.?\d+? *, *\d{1,3}\.?\d+? *, *\d{1,3}\.?\d+?) *\)/i`: one group
      around all three values. */
  const Extraction := Pattern(["xyz("], [Lazy(2, false), Lazy(3, false), Lazy(3, false)], true)

  /** `fromString`: the grammar, then the group split on commas and trimmed, each item
      passed to the constructor's `float` parameters in order. */
  function FromString(s: string): (r: Result<Color>)
    ensures !Matches(XyzGrammar, s) ==> r == Err(Invalid(MalformedXyzColorString(s)))
    ensures r.Ok? ==> Matches(XyzGrammar, s) && Valid(r.value)
  {
    var _ :- XyzColorString(s);
    FromItems(Explode(',', Captured(Extraction, s)))
  }

  /** `[$x, $y, $z] = array_map('trim', $channels)` and the constructor call. */
  function FromItems(items: seq<string>): (r: Result<Color>)
    ensures r.Ok? ==> Valid(r.value)
  {
    var x :- FloatItem(items, 0, "x");
    var y :- FloatItem(items, 1, "y");
    var z :- FloatItem(items, 2, "z");
    New(x, y, z)
  }

  /** Three numeric items reach the constructor as their values, trimmed. */
  lemma FromItemsValues(items: seq<string>)
    ensures NumericItems(items, 3) ==> FromItems(items) == New(FloatAt(items, 0), FloatAt(items, 1), FloatAt(items, 2))
  {
    NumericItems3(items);
    if NumericItems(items, 3) {
      assert FloatItem(items, 0, "x") == Ok(FloatAt(items, 0));
      assert FloatItem(items, 1, "y") == Ok(FloatAt(items, 1));
      assert FloatItem(items, 2, "z") == Ok(FloatAt(items, 2));
    }
  }

  /** A missing or non-numeric item is a `TypeError` before the constructor is called. */
  lemma FromItemsTypeError(items: seq<string>)
    ensures !NumericItems(items, 3) ==> FromItems(items).Err? && FromItems(items).failure.TypeError?
  {
    NumericItems3(items);
    if |items| == 0 || !LeadingNumeric(Trim(items[0])) {
      assert FloatItem(items, 0, "x").Err?;
    } else if |items| <= 1 || !LeadingNumeric(Trim(items[1])) {
      assert FloatItem(items, 1, "y").Err?;
    } else if |items| <= 2 || !LeadingNumeric(Trim(items[2])) {
      assert FloatItem(items, 2, "z").Err?;
    }
  }

  /** On any string the grammar accepts, with or without spaces, the extraction pattern
      finds its one group, and `fromString` is `FromItems` on that group split at its
      commas. */
  lemma ValidatedGroups(s: string)
    requires Matches(XyzGrammar, s)
    ensures Extract(Extraction, s).Some? && |Extract(Extraction, s).value| == 1
    ensures FromString(s) == FromItems(Explode(',', Extract(Extraction, s).value[0]))
  {
    assert Refines(XyzGrammar, Extraction) by {
      assert forall k | 0 <= k < 3 :: FieldRefines(XyzGrammar.fields[k], Extraction.fields[k]);
    }
    CapturedValidated(XyzGrammar, Extraction, s);
    assert XyzColorString(s) == Ok(());
  }

  /** `toXyz`: a new value with the same x, y and z. */
  function ToXyz(c: Color): (r: Result<Color>)
    ensures Valid(c) ==> r == Ok(c)
  {
    New(c.x, c.y, c.z)
  }

  /** `__toString`: the three values as PHP prints floats. */
  function ToString(c: Color): string
  {
    "xyz(" + FloatToString(c.x) + "," + FloatToString(c.y) + "," + FloatToString(c.z) + ")"
  }

  // ---------------------------------------------------------------------------
  // Parsing a printed colour
  // ---------------------------------------------------------------------------

  lemma KeywordFirst(s: string)
    requires |s| >= 4 && s[..4] == "xyz("
    ensures AfterKeyword(s, 0, ["xyz("]) == Some(4)
  {
    assert ToLower(s[0..4]) == "xyz(";
  }

  /** The grammar accepts a text of three unsigned numbers of at least two digits, and
      the extraction pattern captures the numbers with their commas. */
  lemma PrintedText(a: string, b: string, d: string)
    requires Wide(a, false) && Wide(b, false) && Wide(d, false)
    ensures Matches(XyzGrammar, Written("xyz(", a, b, d))
    ensures Captured(Extraction, Written("xyz(", a, b, d)) == a + "," + b + "," + d
  {
    var s := Written("xyz(", a, b, d);
    WrittenLayout("xyz(", a, b, d);
    KeywordFirst(s);
    TextMatches(XyzGrammar, s, 4, a, b, d, 2, false, 3, false, 3, false);
    TextCaptured(Extraction, s, 4, a, b, d, 2, false, 3, false, 3, false);
  }

  /** Such a text parses to the constructor applied to the numbers it shows. */
  lemma PrintedParses(a: string, b: string, d: string)
    requires Wide(a, false) && Wide(b, false) && Wide(d, false)
    ensures FromString(Written("xyz(", a, b, d)) ==
      New(HueValue(a) as real, HueValue(b) as real, HueValue(d) as real)
  {
    var s := Written("xyz(", a, b, d);
    PrintedText(a, b, d);
    SplitNumbers(a, b, d, false, false, false);
    assert FromString(s) == FromItems([a, b, d]);
    NumberItems(a, b, d);
  }

  lemma NumberItems(a: string, b: string, d: string)
    requires Wide(a, false) && Wide(b, false) && Wide(d, false)
    ensures FromItems([a, b, d]) == New(HueValue(a) as real, HueValue(b) as real, HueValue(d) as real)
  {
    NumberArg(a, "x", false);
    NumberArg(b, "y", false);
    NumberArg(d, "z", false);
    ItemValues(a, b, d, HueValue(a) as real, HueValue(b) as real, HueValue(d) as real);
  }

  /** Three items the `float` parameters accept give the constructor their values. */
  lemma ItemValues(a: string, b: string, d: string, x: real, y: real, z: real)
    requires FloatArg(Trim(a), "x") == Ok(x) && FloatArg(Trim(b), "y") == Ok(y)
    requires FloatArg(Trim(d), "z") == Ok(z)
    ensures FromItems([a, b, d]) == New(x, y, z)
  {
    var items := [a, b, d];
    assert items[0] == a && items[1] == b && items[2] == d;
    assert FloatItem(items, 0, "x") == Ok(x);
    assert FloatItem(items, 1, "y") == Ok(y);
    assert FloatItem(items, 2, "z") == Ok(z);
  }

  /** Printing a colour of whole values, each at least 10, and parsing the text gives the
      colour back. */
  lemma PrintParse(c: Color)
    requires Valid(c) && IsWhole(c.x) && IsWhole(c.y) && IsWhole(c.z)
    requires c.x >= 10.0 && c.y >= 10.0 && c.z >= 10.0
    ensures FromString(ToString(c)) == Ok(c)
  {
    WholeText(c.x, false);
    WholeText(c.y, false);
    WholeText(c.z, false);
    PrintedParses(FloatToString(c.x), FloatToString(c.y), FloatToString(c.z));
  }

  /** An x above 95.047, such as the 96 of `xyz(96,50,50)`, passes the grammar and fails
      in the constructor. */
  lemma XOutOfRange(a: string, b: string, d: string)
    requires Wide(a, false) && Wide(b, false) && Wide(d, false) && HueValue(a) > 95
    ensures Matches(XyzGrammar, Written("xyz(", a, b, d))
    ensures FromString(Written("xyz(", a, b, d)) ==
      Err(Invalid(XyzValueNotInRange(HueValue(a) as real, "x", 0.0, 95.047)))
  {
    PrintedText(a, b, d);
    PrintedParses(a, b, d);
  }

  /** The grammar's first field needs two digits, so a valid colour whose x prints as a
      single digit, such as `xyz(5,50,50)`, is refused when its own text is parsed. */
  lemma SingleDigitX(c: Color)
    requires Valid(c) && IsWhole(c.x) && c.x <= 9.0
    ensures !Matches(XyzGrammar, ToString(c))
    ensures FromString(ToString(c)) == Err(Invalid(MalformedXyzColorString(ToString(c))))
  {
    var s := ToString(c);
    var t := FloatToString(c.x);
    OneDigitText(c.x);
    assert s == Written("xyz(", t, FloatToString(c.y), FloatToString(c.z));
    ShortWritten("xyz(", t, FloatToString(c.y), FloatToString(c.z));
    ShortX(s);
  }

  /** A text whose first number is a single digit does not match the grammar. */
  lemma ShortX(s: string)
    requires |s| > 5 && s[..4] == "xyz(" && IsDigit(s[4]) && s[5] == ','
    ensures !Matches(XyzGrammar, s)
  {
    KeywordFirst(s);
    ShortFirstNumber(XyzGrammar, s, 4, 2, false);
    assert SkipSpaces(s, 0) == 0;
  }
}
