/** `CIELab`: a colour as a CIE L*a*b* lightness in [0, 100] and two opponent axes in
    [-110, 110]. */
module CIELab {
  import opened Php
  import opened Errors
  import opened Regex
  import opened Validate
  import opened Params
  import opened HsText
  import opened LazyText

  datatype Color = Color(l: real, a: real, b: real)

  predicate Valid(c: Color)
  {
    0.0 <= c.l <= 100.0 && -110.0 <= c.a <= 110.0 && -110.0 <= c.b <= 110.0
  }

  /** The constructor: l, a and b are checked in that order. */
  function New(l: real, a: real, b: real): (r: Result<Color>)
    ensures r.Ok? <==> 0.0 <= l <= 100.0 && -110.0 <= a <= 110.0 && -110.0 <= b <= 110.0
    ensures !(0.0 <= l <= 100.0) ==> r == Err(Invalid(CIELabValueNotInRange(l, "l", 0.0, 100.0)))
    ensures 0.0 <= l <= 100.0 && !(-110.0 <= a <= 110.0) ==>
      r == Err(Invalid(CIELabValueNotInRange(a, "a", -110.0, 110.0)))
    ensures 0.0 <= l <= 100.0 && -110.0 <= a <= 110.0 && !(-110.0 <= b <= 110.0) ==>
      r == Err(Invalid(CIELabValueNotInRange(b, "b", -110.0, 110.0)))
    ensures r.Ok? ==> r.value == Color(l, a, b) && Valid(r.value)
  {
    var _ :- CIELabValue(l, "l");
    var _ :- CIELabValue(a, "a");
    var _ :- CIELabValue(b, "b");
    Ok(Color(l, a, b))
  }

  /** `/CIELab\( *(\d{1,3}\.?\d+? *, *-?\d{1,3}\.?\d+? *, *-?\d{1,3}\.?\d+?) *\)/i`: one
      group around all three values. */
  const Extraction := Pattern(["cielab("], [Lazy(3, false), Lazy(3, true), Lazy(3, true)], true)

  /** `fromString`: the grammar, then the group split on commas and trimmed, each item
      passed to the constructor's `float` parameters in order. */
  function FromString(s: string): (r: Result<Color>)
    ensures !Matches(CIELabGrammar, s) ==> r == Err(Invalid(MalformedCIELabColorString(s)))
    ensures r.Ok? ==> Matches(CIELabGrammar, s) && Valid(r.value)
  {
    var _ :- CIELabColorString(s);
    FromItems(Explode(',', Captured(Extraction, s)))
  }

  /** `[$l, $a, $b] = array_map('trim', $channels)` and the constructor call. */
  function FromItems(items: seq<string>): (r: Result<Color>)
    ensures r.Ok? ==> Valid(r.value)
  {
    var l :- FloatItem(items, 0, "l");
    var a :- FloatItem(items, 1, "a");
    var b :- FloatItem(items, 2, "b");
    New(l, a, b)
  }

  /** Three numeric items reach the constructor as their values, trimmed. */
  lemma FromItemsValues(items: seq<string>)
    ensures NumericItems(items, 3) ==> FromItems(items) == New(FloatAt(items, 0), FloatAt(items, 1), FloatAt(items, 2))
  {
    NumericItems3(items);
    if NumericItems(items, 3) {
      assert FloatItem(items, 0, "l") == Ok(FloatAt(items, 0));
      assert FloatItem(items, 1, "a") == Ok(FloatAt(items, 1));
      assert FloatItem(items, 2, "b") == Ok(FloatAt(items, 2));
    }
  }

  /** A missing or non-numeric item is a `TypeError` before the constructor is called. */
  lemma FromItemsTypeError(items: seq<string>)
    ensures !NumericItems(items, 3) ==> FromItems(items).Err? && FromItems(items).failure.TypeError?
  {
    NumericItems3(items);
    if |items| == 0 || !LeadingNumeric(Trim(items[0])) {
      assert FloatItem(items, 0, "l").Err?;
    } else if |items| <= 1 || !LeadingNumeric(Trim(items[1])) {
      assert FloatItem(items, 1, "a").Err?;
    } else if |items| <= 2 || !LeadingNumeric(Trim(items[2])) {
      assert FloatItem(items, 2, "b").Err?;
    }
  }

  /** On any string the grammar accepts, with or without spaces, the extraction pattern
      finds its one group, and `fromString` is `FromItems` on that group split at its
      commas. */
  lemma ValidatedGroups(s: string)
    requires Matches(CIELabGrammar, s)
    ensures Extract(Extraction, s).Some? && |Extract(Extraction, s).value| == 1
    ensures FromString(s) == FromItems(Explode(',', Extract(Extraction, s).value[0]))
  {
    assert Refines(CIELabGrammar, Extraction) by {
      assert forall k | 0 <= k < 3 :: FieldRefines(CIELabGrammar.fields[k], Extraction.fields[k]);
    }
    CapturedValidated(CIELabGrammar, Extraction, s);
    assert CIELabColorString(s) == Ok(());
  }

  /** `toCIELab`: a new value with the same l, a and b. */
  function ToCIELab(c: Color): (r: Result<Color>)
    ensures Valid(c) ==> r == Ok(c)
  {
    New(c.l, c.a, c.b)
  }

  /** `__toString`: the three values as PHP prints floats, after the mixed-case keyword. */
  function ToString(c: Color): string
  {
    "CIELab(" + FloatToString(c.l) + "," + FloatToString(c.a) + "," + FloatToString(c.b) + ")"
  }

  // ---------------------------------------------------------------------------
  // Parsing a printed colour
  // ---------------------------------------------------------------------------

  /** The grammar's keyword is matched without regard to case. */
  lemma KeywordFirst(s: string)
    requires |s| >= 7 && s[..7] == "CIELab("
    ensures AfterKeyword(s, 0, ["cielab("]) == Some(7)
  {
    assert ToLower(s[0..7]) == "cielab(";
  }

  /** The grammar accepts a text of an unsigned and two signed numbers of at least two
      digits, and the extraction pattern captures the numbers with their commas. */
  lemma PrintedText(a: string, b: string, d: string)
    requires Wide(a, false) && Wide(b, true) && Wide(d, true)
    ensures Matches(CIELabGrammar, Written("CIELab(", a, b, d))
    ensures Captured(Extraction, Written("CIELab(", a, b, d)) == a + "," + b + "," + d
  {
    var s := Written("CIELab(", a, b, d);
    WrittenLayout("CIELab(", a, b, d);
    KeywordFirst(s);
    TextMatches(CIELabGrammar, s, 7, a, b, d, 3, false, 3, true, 3, true);
    TextCaptured(Extraction, s, 7, a, b, d, 3, false, 3, true, 3, true);
  }

  /** Such a text parses to the constructor applied to the numbers it shows. */
  lemma PrintedParses(a: string, b: string, d: string)
    requires Wide(a, false) && Wide(b, true) && Wide(d, true)
    ensures FromString(Written("CIELab(", a, b, d)) ==
      New(HueValue(a) as real, HueValue(b) as real, HueValue(d) as real)
  {
    var s := Written("CIELab(", a, b, d);
    PrintedText(a, b, d);
    SplitNumbers(a, b, d, false, true, true);
    assert FromString(s) == FromItems([a, b, d]);
    NumberItems(a, b, d);
  }

  lemma NumberItems(a: string, b: string, d: string)
    requires Wide(a, false) && Wide(b, true) && Wide(d, true)
    ensures FromItems([a, b, d]) == New(HueValue(a) as real, HueValue(b) as real, HueValue(d) as real)
  {
    NumberArg(a, "l", false);
    NumberArg(b, "a", true);
    NumberArg(d, "b", true);
    ItemValues(a, b, d, HueValue(a) as real, HueValue(b) as real, HueValue(d) as real);
  }

  /** Three items the `float` parameters accept give the constructor their values. */
  lemma ItemValues(a: string, b: string, d: string, l: real, x: real, y: real)
    requires FloatArg(Trim(a), "l") == Ok(l) && FloatArg(Trim(b), "a") == Ok(x)
    requires FloatArg(Trim(d), "b") == Ok(y)
    ensures FromItems([a, b, d]) == New(l, x, y)
  {
    var items := [a, b, d];
    assert items[0] == a && items[1] == b && items[2] == d;
    assert FloatItem(items, 0, "l") == Ok(l);
    assert FloatItem(items, 1, "a") == Ok(x);
    assert FloatItem(items, 2, "b") == Ok(y);
  }

  /** Printing a colour of whole values, each at least 10 away from zero, and parsing the
      text gives the colour back. */
  lemma PrintParse(c: Color)
    requires Valid(c) && IsWhole(c.l) && IsWhole(c.a) && IsWhole(c.b)
    requires c.l >= 10.0 && (c.a >= 10.0 || c.a <= -10.0) && (c.b >= 10.0 || c.b <= -10.0)
    ensures FromString(ToString(c)) == Ok(c)
  {
    WholeText(c.l, false);
    WholeText(c.a, true);
    WholeText(c.b, true);
    PrintedParses(FloatToString(c.l), FloatToString(c.a), FloatToString(c.b));
  }

  /** An a outside [-110, 110], such as the 120 of `CIELab(50,120,50)`, passes the grammar
      and fails in the constructor. */
  lemma AOutOfRange(a: string, b: string, d: string)
    requires Wide(a, false) && Wide(b, true) && Wide(d, true)
    requires HueValue(a) <= 100 && (HueValue(b) > 110 || HueValue(b) < -110)
    ensures Matches(CIELabGrammar, Written("CIELab(", a, b, d))
    ensures FromString(Written("CIELab(", a, b, d)) ==
      Err(Invalid(CIELabValueNotInRange(HueValue(b) as real, "a", -110.0, 110.0)))
  {
    PrintedText(a, b, d);
    PrintedParses(a, b, d);
  }

  /** The grammar's numbers need two digits, so a valid colour whose l prints as a single
      digit, such as `CIELab(5,20,20)`, is refused when its own text is parsed. */
  lemma SingleDigitL(c: Color)
    requires Valid(c) && IsWhole(c.l) && c.l <= 9.0
    ensures !Matches(CIELabGrammar, ToString(c))
    ensures FromString(ToString(c)) == Err(Invalid(MalformedCIELabColorString(ToString(c))))
  {
    var s := ToString(c);
    var t := FloatToString(c.l);
    OneDigitText(c.l);
    assert s == Written("CIELab(", t, FloatToString(c.a), FloatToString(c.b));
    ShortWritten("CIELab(", t, FloatToString(c.a), FloatToString(c.b));
    ShortL(s);
  }

  /** A text whose first number is a single digit does not match the grammar. */
  lemma ShortL(s: string)
    requires |s| > 8 && s[..7] == "CIELab(" && IsDigit(s[7]) && s[8] == ','
    ensures !Matches(CIELabGrammar, s)
  {
    KeywordFirst(s);
    ShortFirstNumber(CIELabGrammar, s, 7, 3, false);
    assert SkipSpaces(s, 0) == 0;
  }
}
