/** `Factory::fromString`: the colour classes of `getColorClasses` are tried in order and
    the first that parses the string wins. An `InvalidColorValue` from a class is
    swallowed and the next class tried; any other failure (the `TypeError` of a three- or
    four-digit hex string) escapes. When every class refuses the string, the factory
    raises its own `malformedColorString`. As written PHP cannot load `Rgb`
    (`FromStringAsLoaded`); the other members take the classes as loaded. */
module Factory {
  import opened Php
  import opened Errors
  import opened Regex
  import opened Validate
  import Hex
  import Rgb
  import Rgba

  /** The classes the factory knows. */
  datatype ColorClass = HexClass | RgbClass | RgbaClass

  /** A colour of one of those classes. */
  datatype Color =
    | HexColor(hex: Hex.Color)
    | RgbColor(rgb: Rgb.Color)
    | RgbaColor(rgba: Rgba.Color)

  /** `getColorClasses`: Hex, Rgb, Rgba, in that order. */
  const ColorClasses: seq<ColorClass> := [HexClass, RgbClass, RgbaClass]

  /** `$colorClass::fromString($string)`: a colour it parses is of the class asked for. */
  function ParseAs(k: ColorClass, s: string): (r: Result<Color>)
    ensures r.Ok? ==> (r.value.HexColor? <==> k == HexClass) && (r.value.RgbaColor? <==> k == RgbaClass)
  {
    match k
    case HexClass => var c :- Hex.FromString(s); Ok(HexColor(c))
    case RgbClass => var c :- Rgb.FromString(s); Ok(RgbColor(c))
    case RgbaClass => var c :- Rgba.FromString(s); Ok(RgbaColor(c))
  }

  /** An outcome the `catch (InvalidColorValue $e)` block swallows. */
  predicate Caught(r: Result<Color>)
  {
    r.Err? && r.failure.Invalid?
  }

  /** What `$colorClass::fromString($string)` gives for each class in turn. The calls are
      pure, so computing them all leaves the loop's result as it is. */
  function Outcomes(classes: seq<ColorClass>, s: string): (r: seq<Result<Color>>)
    ensures |r| == |classes| && forall k | 0 <= k < |classes| :: r[k] == ParseAs(classes[k], s)
  {
    seq(|classes|, k requires 0 <= k < |classes| => ParseAs(classes[k], s))
  }

  /** The `foreach`/`try` loop over the classes' outcomes and the `throw` after it: the
      result is the first outcome that is not swallowed, every outcome before it having
      been swallowed; when all are swallowed it is the malformed-string error. */
  function FirstSuccess(outcomes: seq<Result<Color>>, s: string): (r: Result<Color>)
    ensures (forall k | 0 <= k < |outcomes| :: Caught(outcomes[k])) ==>
      r == Err(Invalid(MalformedColorString(s)))
    ensures r != Err(Invalid(MalformedColorString(s))) ==>
      exists k | 0 <= k < |outcomes| :: (r == outcomes[k] && !Caught(r) &&
        forall j | 0 <= j < k :: Caught(outcomes[j]))
    decreases |outcomes|
  {
    if outcomes == [] then Err(Invalid(MalformedColorString(s)))
    else if Caught(outcomes[0]) then
      var rest := FirstSuccess(outcomes[1..], s);
      if rest == Err(Invalid(MalformedColorString(s))) then rest
      else
        ShiftWinner(outcomes, rest);
        rest
    else outcomes[0]
  }

  /** The winner among `outcomes[1..]` is a winner among `outcomes` when `outcomes[0]` was
      swallowed. */
  lemma ShiftWinner(outcomes: seq<Result<Color>>, r: Result<Color>)
    requires |outcomes| >= 1 && Caught(outcomes[0])
    requires exists k | 0 <= k < |outcomes| - 1 :: (r == outcomes[1..][k] && !Caught(r) &&
      forall j | 0 <= j < k :: Caught(outcomes[1..][j]))
    ensures exists k | 0 <= k < |outcomes| :: (r == outcomes[k] && !Caught(r) &&
      forall j | 0 <= j < k :: Caught(outcomes[j]))
  {
    var k :| 0 <= k < |outcomes| - 1 && r == outcomes[1..][k] && !Caught(r) &&
      forall j | 0 <= j < k :: Caught(outcomes[1..][j]);
    assert r == outcomes[k + 1];
    forall j | 0 <= j < k + 1
      ensures Caught(outcomes[j])
    {
      if j > 0 {
        assert outcomes[j] == outcomes[1..][j - 1];
      }
    }
  }

  /** The search of `Factory::fromString` with the declared return type left aside, as
      the factory's tests expect it to behave: a colour it returns is one that its own
      class parsed from the string. */
  function FromStringIntended(s: string): (r: Result<Color>)
    ensures r.Ok? ==> ((r.value.HexColor? && Hex.FromString(s) == Ok(r.value.hex)) ||
      (r.value.RgbColor? && Rgb.FromString(s) == Ok(r.value.rgb)) ||
      (r.value.RgbaColor? && Rgba.FromString(s) == Ok(r.value.rgba)))
    ensures Caught(ParseAs(HexClass, s)) && Caught(ParseAs(RgbClass, s)) && Caught(ParseAs(RgbaClass, s)) ==>
      r == Err(Invalid(MalformedColorString(s)))
  {
    InOrder(s);
    FirstSuccess(Outcomes(ColorClasses, s), s)
  }

  /** `Factory::fromString` with the classes loaded: it is declared to return a `Color`,
      and of the three classes it tries only `Rgb` implements that interface, so a `Hex`
      or `Rgba` the search finds is refused by PHP's return type check with a `TypeError`
      the `catch` does not take. A colour it does return is therefore always an rgb
      colour. */
  function FromString(s: string): (r: Result<Color>)
    ensures r.Ok? ==> r.value.RgbColor? && Rgb.FromString(s) == Ok(r.value.rgb)
    ensures Caught(ParseAs(HexClass, s)) && Caught(ParseAs(RgbClass, s)) && Caught(ParseAs(RgbaClass, s)) ==>
      r == Err(Invalid(MalformedColorString(s)))
    ensures r != FromStringIntended(s) ==> FromStringIntended(s).Ok? && !FromStringIntended(s).value.RgbColor?
  {
    ReturnedAsColor(FromStringIntended(s))
  }

  /** The declared `Color` return type applied to what the search found. */
  function ReturnedAsColor(found: Result<Color>): (r: Result<Color>)
    ensures r.Ok? <==> found.Ok? && found.value.RgbColor?
    ensures r != found ==> r == Err(ReturnTypeError("Factory::fromString"))
  {
    if found.Ok? && !found.value.RgbColor? then Err(ReturnTypeError("Factory::fromString"))
    else found
  }

  // ---------------------------------------------------------------------------
  // Loading the classes
  // ---------------------------------------------------------------------------

  /** Whether PHP can declare the class when `call_user_func` first names it. `Rgb`
      implements `Color`, whose `fromString` is declared to return `self`
      (src/Color.php:7), but declares its own `fromString` with no return type
      (src/Rgb.php:23); PHP refuses such a class with a fatal error. `Hex` and `Rgba`
      implement no interface and load. */
  predicate Declarable(k: ColorClass)
  {
    k != RgbClass
  }

  /** How a script calling the factory ends: with the factory's result, or with PHP's
      fatal error for a class it cannot declare, which no `catch` takes. */
  datatype Run = Completed(result: Result<Color>) | Fatal(className: string)

  /** The `foreach`/`try` loop with each class loaded when it is first named: a class PHP
      cannot declare ends the script; otherwise the loop goes on as in `FirstSuccess`. */
  function SearchLoaded(classes: seq<ColorClass>, s: string): (r: Run)
    ensures r.Fatal? ==> r.className == "Rgb" && RgbClass in classes
    ensures (forall k | 0 <= k < |classes| :: Declarable(classes[k])) ==>
      r == Completed(FirstSuccess(Outcomes(classes, s), s))
    decreases |classes|
  {
    if classes == [] then Completed(Err(Invalid(MalformedColorString(s))))
    else if !Declarable(classes[0]) then Fatal("Rgb")
    else
      var found := ParseAs(classes[0], s);
      if Caught(found) then
        var rest := SearchLoaded(classes[1..], s);
        assert Outcomes(classes, s)[1..] == Outcomes(classes[1..], s);
        rest
      else Completed(found)
  }

  /** `Factory::fromString` with the classes loaded as written. `Hex` loads, but the search
      cannot get past `Rgb`: a string `Hex` refuses with `InvalidColorValue` ends the script,
      and any other gets the Hex outcome, which the declared return type turns into a
      `TypeError` when it is a colour. As written the factory never returns a colour. */
  function FromStringAsLoaded(s: string): (r: Run)
    ensures r.Fatal? <==> Caught(ParseAs(HexClass, s))
    ensures r.Completed? ==> r.result.Err?
  {
    assert ColorClasses[1..] == [RgbClass, RgbaClass];
    match SearchLoaded(ColorClasses, s)
    case Fatal(name) => Fatal(name)
    case Completed(found) => Completed(ReturnedAsColor(found))
  }

  /** As written, every string that is not a hex colour string ends in the fatal error of
      loading `Rgb`, and any string `Hex` does not refuse gets what `FromString`, with the
      classes loaded, gives it. */
  lemma LoadFailure(s: string)
    ensures !IsHexColorString(s) ==> FromStringAsLoaded(s) == Fatal("Rgb")
    ensures !Caught(ParseAs(HexClass, s)) ==> FromStringAsLoaded(s) == Completed(FromString(s))
  {
    assert ColorClasses[1..] == [RgbClass, RgbaClass];
    InOrder(s);
  }

  /** As written, a printed rgb colour such as `rgb(55,155,255)` ends in the fatal error of
      loading `Rgb`, where `FromString`, with the classes loaded, returns that colour. */
  lemma PrintedRgbAsWritten(c: Rgb.Color)
    requires Rgb.Valid(c)
    ensures FromStringAsLoaded(Rgb.ToString(c)) == Fatal("Rgb")
    ensures FromString(Rgb.ToString(c)) == Ok(RgbColor(c))
  {
    PrintedRgb(c);
    Rgb.PrintParse(c);
    GrammarsDisjoint(Rgb.ToString(c));
  }

  /** The search over the three classes, spelt out. */
  lemma InOrder(s: string)
    ensures FirstSuccess(Outcomes(ColorClasses, s), s) ==
      if !Caught(ParseAs(HexClass, s)) then ParseAs(HexClass, s)
      else if !Caught(ParseAs(RgbClass, s)) then ParseAs(RgbClass, s)
      else if !Caught(ParseAs(RgbaClass, s)) then ParseAs(RgbaClass, s)
      else Err(Invalid(MalformedColorString(s)))
  {
    var o := Outcomes(ColorClasses, s);
    assert o == [ParseAs(HexClass, s), ParseAs(RgbClass, s), ParseAs(RgbaClass, s)];
    FirstOfThree(ParseAs(HexClass, s), ParseAs(RgbClass, s), ParseAs(RgbaClass, s), s);
  }

  lemma FirstOfThree(a: Result<Color>, b: Result<Color>, c: Result<Color>, s: string)
    ensures FirstSuccess([a, b, c], s) ==
      if !Caught(a) then a else if !Caught(b) then b else if !Caught(c) then c
      else Err(Invalid(MalformedColorString(s)))
  {
    var malformed := Err(Invalid(MalformedColorString(s)));
    assert [c][1..] == [];
    assert FirstSuccess([c], s) == if Caught(c) then malformed else c;
    assert [b, c][1..] == [c];
    assert FirstSuccess([b, c], s) == if Caught(b) then FirstSuccess([c], s) else b;
    assert [a, b, c][1..] == [b, c];
  }

  // ---------------------------------------------------------------------------
  // The three grammars are disjoint
  // ---------------------------------------------------------------------------

  /** An anchored grammar with one keyword finds it after the leading spaces. */
  lemma KeywordOf(p: Pattern, s: string)
    requires WellFormed(p) && |p.keywords| == 1 && Matches(p, s)
    ensures KeywordAt(s, SkipSpaces(s, 0), p.keywords[0])
  {
    assert AfterKeyword(s, SkipSpaces(s, 0), p.keywords).Some?;
  }

  /** A hex colour string starts with `#`. */
  lemma HexStart(s: string)
    requires IsHexColorString(s)
    ensures |s| >= 4 && s[0] == '#' && SkipSpaces(s, 0) == 0
  {
  }

  /** A string that passes a grammar with the single keyword `kw` does not start with `#`. */
  lemma NotHex(p: Pattern, s: string)
    requires WellFormed(p) && |p.keywords| == 1 && |p.keywords[0]| >= 1 && p.keywords[0][0] == 'r'
    requires Matches(p, s)
    ensures !IsHexColorString(s)
  {
    KeywordOf(p, s);
    var p0 := SkipSpaces(s, 0);
    assert ToLower(s[p0..p0 + |p.keywords[0]|])[0] == 'r';
  }

  /** `rgb(` has `(` where `rgba(` has `a`. */
  lemma RgbNotRgba(s: string)
    requires Matches(RgbGrammar, s)
    ensures !Matches(RgbaGrammar, s)
  {
    KeywordOf(RgbGrammar, s);
    if Matches(RgbaGrammar, s) {
      KeywordOf(RgbaGrammar, s);
      KeywordsDiffer(s, SkipSpaces(s, 0));
    }
  }

  lemma KeywordsDiffer(s: string, p0: nat)
    requires KeywordAt(s, p0, "rgb(")
    ensures !KeywordAt(s, p0, "rgba(")
  {
    assert ToLowerChar(s[p0 + 3]) == ToLower(s[p0..p0 + 4])[3] == '(';
    if p0 + 5 <= |s| {
      assert ToLower(s[p0..p0 + 5])[3] == ToLowerChar(s[p0 + 3]);
    }
  }

  /** No string passes two of the factory's grammars: a hex string starts with `#`, an rgb
      or rgba string with its keyword after spaces, and the two keywords differ in their
      fourth character. */
  lemma GrammarsDisjoint(s: string)
    ensures !(IsHexColorString(s) && Matches(RgbGrammar, s))
    ensures !(IsHexColorString(s) && Matches(RgbaGrammar, s))
    ensures !(Matches(RgbGrammar, s) && Matches(RgbaGrammar, s))
  {
    if Matches(RgbGrammar, s) {
      NotHex(RgbGrammar, s);
      RgbNotRgba(s);
    }
    if Matches(RgbaGrammar, s) {
      NotHex(RgbaGrammar, s);
    }
  }

  /** The outcome a class contributes to the factory: its own, unless it is swallowed. */
  function Surfaced(r: Result<Color>, s: string): Result<Color>
  {
    if Caught(r) then Err(Invalid(MalformedColorString(s))) else r
  }

  /** Because the grammars are disjoint the order of the classes does not matter: the
      factory answers with the class whose grammar the string passes, its validation
      errors (such as a channel of 300) turned into the factory's malformed-string error,
      and with that error when no grammar passes. */
  lemma DispatchByGrammar(s: string)
    ensures IsHexColorString(s) ==> FromStringIntended(s) == Surfaced(ParseAs(HexClass, s), s)
    ensures Matches(RgbGrammar, s) ==> FromStringIntended(s) == Surfaced(ParseAs(RgbClass, s), s)
    ensures Matches(RgbaGrammar, s) ==> FromStringIntended(s) == Surfaced(ParseAs(RgbaClass, s), s)
    ensures !IsHexColorString(s) && !Matches(RgbGrammar, s) && !Matches(RgbaGrammar, s) ==>
      FromStringIntended(s) == Err(Invalid(MalformedColorString(s)))
  {
    GrammarsDisjoint(s);
    InOrder(s);
  }

  /** The same dispatch through the declared return type, for the classes that are not a
      `Color`: a hex or rgba string its class accepts ends in the `TypeError`. */
  lemma ReturnTypeRefuses(s: string)
    ensures IsHexColorString(s) && ParseAs(HexClass, s).Ok? ==>
      FromString(s) == Err(ReturnTypeError("Factory::fromString"))
    ensures Matches(RgbaGrammar, s) && ParseAs(RgbaClass, s).Ok? ==>
      FromString(s) == Err(ReturnTypeError("Factory::fromString"))
  {
    DispatchByGrammar(s);
  }

  /** For the rest, the declared return type changes nothing: an rgb string gets the
      search's answer, and any string no grammar takes is malformed. */
  lemma DispatchAsWritten(s: string)
    ensures Matches(RgbGrammar, s) ==> FromString(s) == Surfaced(ParseAs(RgbClass, s), s)
    ensures !IsHexColorString(s) && !Matches(RgbGrammar, s) && !Matches(RgbaGrammar, s) ==>
      FromString(s) == Err(Invalid(MalformedColorString(s)))
  {
    DispatchByGrammar(s);
  }

  // ---------------------------------------------------------------------------
  // What the factory makes of printed colours
  // ---------------------------------------------------------------------------

  /** A printed hex colour, such as `#aabbcc`, comes back as that hex colour from the
      search. */
  lemma PrintedHex(c: Hex.Color)
    requires Hex.Valid(c)
    ensures FromStringIntended(Hex.ToString(c)) == Ok(HexColor(c))
  {
    Hex.PrintParse(c);
    DispatchByGrammar(Hex.ToString(c));
  }

  /** As written, the same string, such as `#aabbcc`, makes the factory throw: the hex
      colour it finds is not a `Color`. `Rgb` is never loaded for it. */
  lemma PrintedHexAsWritten(c: Hex.Color)
    requires Hex.Valid(c)
    ensures FromString(Hex.ToString(c)) == Err(ReturnTypeError("Factory::fromString"))
  {
    PrintedHex(c);
  }

  /** A printed rgb colour, such as `rgb(55,155,255)`, comes back as that rgb colour. */
  lemma PrintedRgb(c: Rgb.Color)
    requires Rgb.Valid(c)
    ensures FromString(Rgb.ToString(c)) == Ok(RgbColor(c))
  {
    Rgb.PrintParse(c);
    DispatchAsWritten(Rgb.ToString(c));
  }

  /** A printed rgba colour, such as `rgba(55,155,255,0.50)`, comes back as that rgba
      colour from the search. */
  lemma PrintedRgba(c: Rgba.Color)
    requires Rgba.Valid(c) && Rgba.TwoDecimals(c.alpha)
    ensures FromStringIntended(Rgba.ToString(c)) == Ok(RgbaColor(c))
  {
    Rgba.PrintParse(c);
    DispatchByGrammar(Rgba.ToString(c));
  }

  /** With the classes loaded, a printed rgba colour makes the factory throw: `Rgba` is
      not a `Color`. */
  lemma PrintedRgbaAsWritten(c: Rgba.Color)
    requires Rgba.Valid(c) && Rgba.TwoDecimals(c.alpha)
    ensures FromString(Rgba.ToString(c)) == Err(ReturnTypeError("Factory::fromString"))
  {
    PrintedRgba(c);
  }

  /** A three- or four-digit hex string passes the hex grammar and then fails in PHP's
      type check, which the factory does not catch: `#abc` raises `TypeError`. */
  lemma ShortHexEscapes(h: string)
    requires |h| in {3, 4} && AllHexDigits(h)
    ensures FromString("#" + h) == Err(TypeError("blue"))
  {
    Hex.ParseShort(h);
    InOrder("#" + h);
  }

  /** `abcd` passes none of the grammars, so the factory reports it as malformed. */
  lemma MalformedExample(s: string)
    requires s == "abcd"
    ensures FromString(s) == Err(Invalid(MalformedColorString(s)))
  {
    assert SkipSpaces(s, 0) == 0;
    if Matches(RgbGrammar, s) {
      KeywordOf(RgbGrammar, s);
    }
    if Matches(RgbaGrammar, s) {
      KeywordOf(RgbaGrammar, s);
    }
    DispatchAsWritten(s);
  }

  /** A channel of 300 passes the rgb grammar and fails in the constructor; the factory
      reports the string as malformed instead. */
  lemma ChannelErrorSwallowed(a: string, b: string, d: string)
    requires Rgb.Channel(a) && Rgb.Channel(b) && Rgb.Channel(d) && DecimalValue(a) > 255
    ensures FromString(Rgb.Printed(a, b, d)) == Err(Invalid(MalformedColorString(Rgb.Printed(a, b, d))))
  {
    Rgb.ChannelOutOfRange(a, b, d);
    DispatchAsWritten(Rgb.Printed(a, b, d));
  }
}
