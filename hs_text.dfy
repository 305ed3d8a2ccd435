/** The text `keyword(h,s%,l%)` that the hsl and hsb printers produce, and how the
    grammars and extraction patterns of those colour strings read it back. */
module HsText {
  import opened Php
  import opened Errors
  import opened Regex

  /** A printed hue: one to three digits, optionally after a minus sign. */
  predicate HueText(t: string)
  {
    |t| >= 1 && var u := if t[0] == '-' then t[1..] else t;
    1 <= |u| <= 3 && AllDigits(u)
  }

  function HueValue(t: string): int
    requires HueText(t)
  {
    if t[0] == '-' then -(DecimalValue(t[1..]) as int) else DecimalValue(t)
  }

  /** One to three decimal digits: a printed saturation, lightness or brightness. */
  predicate PercentText(t: string) { 1 <= |t| <= 3 && AllDigits(t) }

  function Printed(kw: string, h: string, b: string, d: string): string
  {
    kw + h + "," + b + "%," + d + "%)"
  }

  lemma PrintedLayout(kw: string, h: string, b: string, d: string)
    requires |kw| == 4
    ensures var s := Printed(kw, h, b, d);
      |s| == 9 + |h| + |b| + |d| && s[..4] == kw &&
      TextAt(s, 4, h) && s[4 + |h|] == ',' &&
      TextAt(s, 5 + |h|, b) && s[5 + |h| + |b|] == '%' && s[6 + |h| + |b|] == ',' &&
      TextAt(s, 7 + |h| + |b|, d) && s[7 + |h| + |b| + |d|] == '%' &&
      s[8 + |h| + |b| + |d|] == ')'
  {
  }

  /** A percentage field: `\d{1,3}` and a `%`, with or without decimals allowed and
      with or without the `%` inside the group. */
  function P(decimals: bool, captured: bool): Shape { Percent(decimals, captured) }

  /** Where a printed text puts its hue and the two percentages; the spans of the
      percentages take their `%` in when the group captures it. */
  function Spans(captured: bool, h: string, b: string, d: string): seq<Span>
  {
    [(4, 4 + |h|)] + LaterSpans(captured, 5 + |h|, b, d)
  }

  function LaterSpans(captured: bool, j: nat, b: string, d: string): seq<Span>
  {
    var c := if captured then 1 else 0;
    [(j, j + |b| + c), (j + |b| + 2, j + |b| + 2 + |d| + c)]
  }

  /** A hue followed by a comma is a signed `-?\d{1,3}` field spanning exactly the hue. */
  lemma HueFieldAt(s: string, i: nat, t: string)
    requires TextAt(s, i, t) && HueText(t) && i + |t| < |s| && s[i + |t|] == ','
    ensures FieldAt(s, i, Int(3, true)) == Some(((i, i + |t|), i + |t|))
  {
    assert s[i + 0] == t[0];
    assert SkipSpaces(s, i) == i;
    if t[0] == '-' {
      assert forall j | i + 1 <= j < i + |t| :: s[j] == t[1..][j - i - 1];
      DigitRunOver(s, i + 1, |t| - 1);
    } else {
      assert forall j | i <= j < i + |t| :: s[j] == t[j - i];
      DigitRunOver(s, i, |t|);
    }
  }

  /** Digits, then `%`, then a comma or `)` make a percentage field ending after the `%`. */
  lemma PercentFieldAt(s: string, i: nat, t: string, decimals: bool, captured: bool)
    requires TextAt(s, i, t) && PercentText(t) && i + |t| + 1 < |s|
    requires s[i + |t|] == '%' && (s[i + |t| + 1] == ',' || s[i + |t| + 1] == ')')
    ensures FieldAt(s, i, P(decimals, captured)) ==
      Some(((i, if captured then i + |t| + 1 else i + |t|), i + |t| + 1))
  {
    assert s[i + 0] == t[0];
    assert SkipSpaces(s, i) == i;
    assert forall j | i <= j < i + |t| :: s[j] == t[j - i];
    DigitRunOver(s, i, |t|);
  }

  /** The two percentages, separated by a comma and closed by `)`. */
  lemma TwoPercents(s: string, j: nat, b: string, d: string, decimals: bool, captured: bool)
    requires PercentText(b) && PercentText(d) && j + |b| + |d| + 3 < |s|
    requires TextAt(s, j, b) && s[j + |b|] == '%' && s[j + |b| + 1] == ','
    requires TextAt(s, j + |b| + 2, d) && s[j + |b| + 2 + |d|] == '%' && s[j + |b| + 3 + |d|] == ')'
    ensures MatchFields(s, j, [P(decimals, captured), P(decimals, captured)]) ==
      Some((LaterSpans(captured, j, b, d), j + |b| + |d| + 4))
  {
    var f := P(decimals, captured);
    var k := j + |b| + 2;
    var c := if captured then 1 else 0;
    PercentFieldAt(s, j, b, decimals, captured);
    PercentFieldAt(s, k, d, decimals, captured);
    LastField(s, k, f, (k, k + |d| + c), k + |d| + 1);
    Tail2(f, f);
    FieldThenRest(s, j, [f, f], (j, j + |b| + c), j + |b| + 1, ([(k, k + |d| + c)], k + |d| + 2));
    Cons2((j, j + |b| + c), (k, k + |d| + c));
  }

  /** The hue and the two percentages after the keyword. */
  lemma ThreeFields(s: string, h: string, b: string, d: string, decimals: bool, captured: bool)
    requires HueText(h) && PercentText(b) && PercentText(d)
    requires |s| == 9 + |h| + |b| + |d|
    requires TextAt(s, 4, h) && s[4 + |h|] == ','
    requires TextAt(s, 5 + |h|, b) && s[5 + |h| + |b|] == '%' && s[6 + |h| + |b|] == ','
    requires TextAt(s, 7 + |h| + |b|, d) && s[7 + |h| + |b| + |d|] == '%'
    requires s[8 + |h| + |b| + |d|] == ')'
    ensures MatchFields(s, 4, [Int(3, true), P(decimals, captured), P(decimals, captured)]) ==
      Some((Spans(captured, h, b, d), |s|))
  {
    var f := P(decimals, captured);
    HueFieldAt(s, 4, h);
    TwoPercents(s, 5 + |h|, b, d, decimals, captured);
    Tail3(Int(3, true), f, f);
    FieldThenRest(s, 4, [Int(3, true), f, f], (4, 4 + |h|), 4 + |h|,
      (LaterSpans(captured, 5 + |h|, b, d), |s|));
  }

  /** A pattern whose keyword is found at the start of a printed text matches all of it. */
  lemma PrintedMatchAt(p: Pattern, kw: string, h: string, b: string, d: string, decimals: bool, captured: bool)
    requires WellFormed(p) && |kw| == 4
    requires p.fields == [Int(3, true), P(decimals, captured), P(decimals, captured)]
    requires AfterKeyword(Printed(kw, h, b, d), 0, p.keywords) == Some(4)
    requires HueText(h) && PercentText(b) && PercentText(d)
    ensures MatchAt(p, Printed(kw, h, b, d), 0) == Some((Spans(captured, h, b, d), |Printed(kw, h, b, d)|))
  {
    var s := Printed(kw, h, b, d);
    PrintedLayout(kw, h, b, d);
    ThreeFields(s, h, b, d, decimals, captured);
  }

  /** The anchored grammar accepts the printed text. */
  lemma PrintedMatches(p: Pattern, kw: string, h: string, b: string, d: string)
    requires WellFormed(p) && |kw| == 4
    requires p.fields == [Int(3, true), P(false, false), P(false, false)]
    requires AfterKeyword(Printed(kw, h, b, d), 0, p.keywords) == Some(4)
    requires HueText(h) && PercentText(b) && PercentText(d)
    ensures Matches(p, Printed(kw, h, b, d))
  {
    var s := Printed(kw, h, b, d);
    PrintedMatchAt(p, kw, h, b, d, false, false);
    assert SkipSpaces(s, 0) == 0 by {
      PrintedLayout(kw, h, b, d);
      assert s[0] == kw[0];
    }
  }

  /** The extraction pattern finds the printed text at its start and captures the hue
      and the two percentages with their `%`. */
  lemma PrintedGroups(p: Pattern, kw: string, h: string, b: string, d: string)
    requires WellFormed(p) && !p.joined && |kw| == 4
    requires p.fields == [Int(3, true), P(true, true), P(true, true)]
    requires AfterKeyword(Printed(kw, h, b, d), 0, p.keywords) == Some(4)
    requires HueText(h) && PercentText(b) && PercentText(d)
    ensures Extract(p, Printed(kw, h, b, d)) == Some([h, b + "%", d + "%"])
  {
    var s := Printed(kw, h, b, d);
    var spans := Spans(true, h, b, d);
    PrintedMatchAt(p, kw, h, b, d, true, true);
    assert Search(p, s, 0) == Some(spans);
    PrintedSlices(kw, h, b, d);
    ThreeGroups(p, s, spans, h, b + "%", d + "%");
  }

  lemma PrintedSlices(kw: string, h: string, b: string, d: string)
    requires |kw| == 4
    ensures var s, spans := Printed(kw, h, b, d), Spans(true, h, b, d);
      Slice(s, spans[0]) == h && Slice(s, spans[1]) == b + "%" && Slice(s, spans[2]) == d + "%"
  {
    HueSlice(kw, h, b, d);
    SaturationSlice(kw, h, b, d);
    LastSlice(kw, h, b, d);
  }

  lemma HueSlice(kw: string, h: string, b: string, d: string)
    requires |kw| == 4
    ensures Printed(kw, h, b, d)[4..4 + |h|] == h
  {
    assert Printed(kw, h, b, d) == kw + h + ("," + b + "%," + d + "%)");
  }

  lemma SaturationSlice(kw: string, h: string, b: string, d: string)
    requires |kw| == 4
    ensures 6 + |h| + |b| <= |Printed(kw, h, b, d)|
    ensures Printed(kw, h, b, d)[5 + |h|..6 + |h| + |b|] == b + "%"
  {
    assert Printed(kw, h, b, d) == (kw + h + ",") + (b + "%") + ("," + d + "%)");
  }

  lemma LastSlice(kw: string, h: string, b: string, d: string)
    requires |kw| == 4
    ensures 8 + |h| + |b| + |d| <= |Printed(kw, h, b, d)|
    ensures Printed(kw, h, b, d)[7 + |h| + |b|..8 + |h| + |b| + |d|] == d + "%"
  {
    assert Printed(kw, h, b, d) == (kw + h + "," + b + "%,") + (d + "%") + ")";
  }

  // ---------------------------------------------------------------------------
  // The numbers PHP reads back
  // ---------------------------------------------------------------------------

  /** `(float)` of a printed hue. */
  lemma HueNumber(h: string)
    requires HueText(h)
    ensures LeadingNumeric(h) && NumericPrefix(h) == HueValue(h) as real
  {
    if h[0] == '-' {
      IntValueOfDigits(h[1..]);
      assert IsDigit(h[1..][0]);
      SignedNumber(h);
    } else {
      IntValueOfDigits(h);
    }
  }

  /** `(float)` of digits followed by `%`: the `%` ends the number. */
  lemma PercentNumber(b: string)
    requires PercentText(b)
    ensures NumericPrefix(b + "%") == DecimalValue(b) as real
  {
    var t := b + "%";
    assert t[..|b|] == b && t[|b|] == '%';
    PlainNumber(t, |b|);
  }

  // ---------------------------------------------------------------------------
  // What the printer writes
  // ---------------------------------------------------------------------------

  /** `round($hue)` printed, for a hue that rounds into -999..999, is a hue text worth
      the rounded value (a small negative hue prints `-0`, worth 0). */
  lemma RoundedHue(x: real)
    requires -999 <= Round(x) <= 999
    ensures HueText(RoundedToString(x)) && HueValue(RoundedToString(x)) == Round(x)
  {
    Pow10Monotone(3, 14);
    RoundedToStringWhole(x);
    if Round(x) == 0 && x < 0.0 {
      MinusZeroHue();
    } else {
      IntHueText(Round(x));
    }
  }

  /** `-0` is a hue text worth 0. */
  lemma MinusZeroHue()
    ensures HueText("-0") && HueValue("-0") == 0
  {
    assert "-0"[1..] == "0";
    assert DecimalValue("0") == 0 by {
      assert "0"[..0] == [];
    }
  }

  /** A whole number in -999..999 prints as a hue text worth that number. */
  lemma IntHueText(n: int)
    requires -999 <= n <= 999
    ensures HueText(IntToString(n)) && HueValue(IntToString(n)) == n
  {
    if n < 0 {
      NumberText(-n);
      assert IntToString(n)[1..] == NatToString(-n);
    } else {
      NumberText(n);
    }
  }

  /** `round($x)` printed, for a non-negative value that rounds to at most 999, is one to
      three digits worth the rounded value. */
  lemma RoundedComponent(x: real)
    requires 0.0 <= x && Round(x) <= 999
    ensures PercentText(RoundedToString(x)) && RoundedToString(x) == NatToString(Round(x))
    ensures DecimalValue(RoundedToString(x)) == Round(x)
  {
    Pow10Monotone(3, 14);
    RoundedToStringWhole(x);
    NumberText(Round(x));
  }

  lemma NumberText(n: nat)
    requires n <= 999
    ensures PercentText(NatToString(n)) && DecimalValue(NatToString(n)) == n
  {
    NatToStringDigits(n);
    NumDigitsBounds(n);
  }
}
