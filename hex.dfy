/** `Hex`: a colour as three two-digit hex channels, kept in lower case. */
module Hex {
  import opened Php
  import opened Errors
  import opened Validate

  datatype Color = Color(red: string, green: string, blue: string)

  /** Two lower-case hex digits. */
  predicate LowerHexChannel(t: string)
  {
    |t| == 2 && IsLowerHexDigit(t[0]) && IsLowerHexDigit(t[1])
  }

  predicate Valid(c: Color)
  {
    LowerHexChannel(c.red) && LowerHexChannel(c.green) && LowerHexChannel(c.blue)
  }

  /** The constructor: red, green and blue are checked in that order, then stored in
      lower case. */
  function New(red: string, green: string, blue: string): (r: Result<Color>)
    ensures r.Ok? <==> HexChannelValue(red).Ok? && HexChannelValue(green).Ok? && HexChannelValue(blue).Ok?
    ensures HexChannelValue(red).Err? ==> r == HexChannelValue(red).PropagateFailure()
    ensures HexChannelValue(red).Ok? && HexChannelValue(green).Err? ==>
      r == HexChannelValue(green).PropagateFailure()
    ensures HexChannelValue(red).Ok? && HexChannelValue(green).Ok? && HexChannelValue(blue).Err? ==>
      r == HexChannelValue(blue).PropagateFailure()
    ensures r.Ok? ==> r.value == Color(ToLower(red), ToLower(green), ToLower(blue)) && Valid(r.value)
  {
    var _ :- HexChannelValue(red);
    var _ :- HexChannelValue(green);
    var _ :- HexChannelValue(blue);
    LowerChannel(red);
    LowerChannel(green);
    LowerChannel(blue);
    Ok(Color(ToLower(red), ToLower(green), ToLower(blue)))
  }

  lemma LowerChannel(t: string)
    requires |t| == 2 && AllHexDigits(t)
    ensures LowerHexChannel(ToLower(t))
  {
    assert IsHexDigit(t[0]) && IsHexDigit(t[1]);
  }

  /** `fromString`: the string must pass the hex grammar; the `#` is stripped and the rest
      split into two-character pieces, the first three of which are red, green and blue.
      A missing piece is a `null` reaching the constructor, which PHP rejects with
      `TypeError`. */
  function FromString(s: string): (r: Result<Color>)
    ensures !IsHexColorString(s) ==> r == Err(Invalid(MalformedHexColorString(s)))
    ensures r.Ok? ==> IsHexColorString(s) && Valid(r.value)
  {
    var _ :- HexColorString(s);
    var pieces := StrSplit2(LTrim(s, '#'));
    if |pieces| < 1 then Err(TypeError("red"))
    else if |pieces| < 2 then Err(TypeError("green"))
    else if |pieces| < 3 then Err(TypeError("blue"))
    else New(pieces[0], pieces[1], pieces[2])
  }

  function Red(c: Color): string { c.red }
  function Green(c: Color): string { c.green }
  function Blue(c: Color): string { c.blue }

  /** `__toString`: `#` and the three channels. */
  function ToString(c: Color): (s: string)
    ensures |s| == 1 + |c.red| + |c.green| + |c.blue| && s[0] == '#'
  {
    "#" + c.red + c.green + c.blue
  }

  // ---------------------------------------------------------------------------
  // Parsing and printing
  // ---------------------------------------------------------------------------

  /** The digits after the `#` of `"#" + h`, split in pairs. */
  lemma Pieces(h: string)
    requires |h| >= 3 && AllHexDigits(h)
    ensures LTrim("#" + h, '#') == h
    ensures var p := StrSplit2(h);
      |p| == (|h| + 1) / 2 && p[0] == h[..2] && (|h| >= 4 ==> p[1] == h[2..4])
      && (|h| == 3 ==> p[1] == h[2..])
      && (|h| >= 6 ==> p[2] == h[4..6])
  {
    assert IsHexDigit(h[0]);
    assert ("#" + h)[1..] == h;
    StrSplit2Piece(h, 0);
    StrSplit2Piece(h, 1);
    if |h| >= 6 {
      StrSplit2Piece(h, 2);
    }
  }

  lemma HexPair(h: string, i: nat)
    requires i + 2 <= |h| && AllHexDigits(h)
    ensures HexChannelValue(h[i..i + 2]).Ok?
  {
    assert h[i..i + 2][0] == h[i] && h[i..i + 2][1] == h[i + 1];
    assert IsHexDigit(h[i]) && IsHexDigit(h[i + 1]);
  }

  lemma HexGrammar(h: string)
    requires |h| in {3, 4, 6, 8} && AllHexDigits(h)
    ensures IsHexColorString("#" + h)
  {
    var s := "#" + h;
    assert s[|s| - 1] == h[|h| - 1] && IsHexDigit(h[|h| - 1]);
    assert s[1..] == h;
  }

  /** A six- or eight-digit string parses to its first three pairs in lower case. */
  lemma ParseSixOrEight(h: string)
    requires |h| in {6, 8} && AllHexDigits(h)
    ensures FromString("#" + h) == Ok(Color(ToLower(h[..2]), ToLower(h[2..4]), ToLower(h[4..6])))
  {
    HexGrammar(h);
    Pieces(h);
    HexPair(h, 0);
    HexPair(h, 2);
    HexPair(h, 4);
    assert h[..2] == h[0..2];
  }

  /** Printing a parsed six-digit string gives back the input in lower case. */
  lemma ParsePrintSix(h: string)
    requires |h| == 6 && AllHexDigits(h)
    ensures FromString("#" + h).Ok? && ToString(FromString("#" + h).value) == ToLower("#" + h)
  {
    ParseSixOrEight(h);
    LowerPrint(h);
  }

  lemma LowerPrint(h: string)
    requires |h| == 6
    ensures ToString(Color(ToLower(h[..2]), ToLower(h[2..4]), ToLower(h[4..6]))) == ToLower("#" + h)
  {
    var a, b, d := h[..2], h[2..4], h[4..6];
    assert "#" + h == "#" + a + b + d;
    LowerConcat(a, b, d);
  }

  lemma LowerConcat(a: string, b: string, c: string)
    ensures ToLower("#" + a + b + c) == "#" + ToLower(a) + ToLower(b) + ToLower(c)
  {
  }

  /** The three- and four-digit forms the grammar admits leave the blue channel without a
      piece: they never give a colour. */
  lemma ParseShort(h: string)
    requires |h| in {3, 4} && AllHexDigits(h)
    ensures FromString("#" + h) == Err(TypeError("blue"))
  {
    HexGrammar(h);
    Pieces(h);
  }

  /** Printing a colour and parsing the text gives the colour back. */
  lemma PrintParse(c: Color)
    requires Valid(c)
    ensures FromString(ToString(c)) == Ok(c)
  {
    var h := Digits(c);
    ParseSixOrEight(h);
    LowerIsLower(c.red);
    LowerIsLower(c.green);
    LowerIsLower(c.blue);
  }

  /** The six digits a colour prints after the `#`. */
  lemma Digits(c: Color) returns (h: string)
    requires Valid(c)
    ensures ToString(c) == "#" + h && |h| == 6 && AllHexDigits(h)
    ensures h[..2] == c.red && h[2..4] == c.green && h[4..6] == c.blue
  {
    h := c.red + c.green + c.blue;
    forall i | 0 <= i < 6
      ensures IsHexDigit(h[i])
    {
      if i < 2 { assert h[i] == c.red[i]; }
      else if i < 4 { assert h[i] == c.green[i - 2]; }
      else { assert h[i] == c.blue[i - 4]; }
    }
  }

  lemma LowerIsLower(t: string)
    requires LowerHexChannel(t)
    ensures ToLower(t) == t
  {
  }
}
