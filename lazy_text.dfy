/** The text `keyword(a,b,c)` that the xyz and CIELab printers produce for whole numbers,
    and how the grammars and extraction patterns of those colour strings, whose fields
    are `\d{1,n}\.?\d+?` (optionally signed), read it back. */
module LazyText {
  import opened Php
  import opened Errors
  import opened Regex
  import opened Params
  import opened HsText

  /** A value with no fractional part. */
  predicate IsWhole(v: real) { v == v.Floor as real }

  /** A printed whole number that a lazy field reads: two or three digits, after a minus
      sign only where the field allows one. A single digit is too short for
      `\d{1,n}\.?\d+?`, which needs at least two. */
  predicate Wide(t: string, signed: bool)
  {
    HueText(t) && (if t[0] == '-' then signed && |t| >= 3 else |t| >= 2)
  }

  /** Such a text followed by `,` or `)` is a lazy field spanning exactly that text. */
  lemma LazyFieldAt(s: string, i: nat, t: string, n: nat, signed: bool)
    requires TextAt(s, i, t) && Wide(t, signed)
    requires i + |t| < |s| && (s[i + |t|] == ',' || s[i + |t|] == ')')
    ensures FieldAt(s, i, Lazy(n, signed)) == Some(((i, i + |t|), i + |t|))
  {
    assert s[i + 0] == t[0];
    assert SkipSpaces(s, i) == i;
    if t[0] == '-' {
      assert forall j | i + 1 <= j < i + |t| :: s[j] == t[1..][j - i - 1];
      DigitRunOver(s, i + 1, |t| - 1);
    } else {
      assert forall j | i <= j < i + |t| :: s[j] == t[j - i];
      DigitRunOver(s, i, |t|);
    }
  }

  function Written(kw: string, a: string, b: string, d: string): string
  {
    kw + a + "," + b + "," + d + ")"
  }

  /** Where `a,b,d)` lies in `s` after position `k`. */
  predicate Layout(s: string, k: nat, a: string, b: string, d: string)
  {
    |s| == k + |a| + |b| + |d| + 3 &&
    s[k..k + |a|] == a && s[k + |a|] == ',' &&
    s[k + |a| + 1..k + |a| + 1 + |b|] == b && s[k + |a| + 1 + |b|] == ',' &&
    s[k + |a| + |b| + 2..k + |a| + |b| + 2 + |d|] == d && s[k + |a| + |b| + 2 + |d|] == ')'
  }

  lemma WrittenLayout(kw: string, a: string, b: string, d: string)
    ensures Layout(Written(kw, a, b, d), |kw|, a, b, d)
    ensures Written(kw, a, b, d)[..|kw|] == kw
    ensures Written(kw, a, b, d)[|kw|..|Written(kw, a, b, d)| - 1] == a + "," + b + "," + d
  {
    var s := Written(kw, a, b, d);
    assert s == kw + (a + "," + b + "," + d) + ")";
  }

  /** A number at `i` followed by `,` or `)` is a lazy field spanning exactly that
      number, whatever the field's bound on leading digits. */
  lemma NumberAt(s: string, i: nat, t: string, n: nat, signed: bool)
    requires Wide(t, signed) && i + |t| < |s| && s[i..i + |t|] == t
    requires s[i + |t|] == ',' || s[i + |t|] == ')'
    ensures FieldAt(s, i, Lazy(n, signed)) == Some(((i, i + |t|), i + |t|))
  {
    assert TextAt(s, i, t) by {
      forall j | 0 <= j < |t|
        ensures s[i + j] == t[j]
      {
        assert s[i..i + |t|][j] == s[i + j];
      }
    }
    LazyFieldAt(s, i, t, n, signed);
  }

  /** Where the three fields lie: each spans its number, the first two are followed by a
      comma and the last by `)` at the end of the text. */
  predicate LaidOut(s: string, k: nat, a: string, b: string, d: string,
                    n1: nat, s1: bool, n2: nat, s2: bool, n3: nat, s3: bool)
  {
    |s| == k + |a| + |b| + |d| + 3 &&
    FieldAt(s, k, Lazy(n1, s1)) == Some(((k, k + |a|), k + |a|)) &&
    s[k + |a|] == ',' &&
    FieldAt(s, k + |a| + 1, Lazy(n2, s2)) == Some(((k + |a| + 1, k + |a| + 1 + |b|), k + |a| + 1 + |b|)) &&
    s[k + |a| + 1 + |b|] == ',' &&
    FieldAt(s, k + |a| + |b| + 2, Lazy(n3, s3)) ==
      Some(((k + |a| + |b| + 2, k + |a| + |b| + 2 + |d|), k + |a| + |b| + 2 + |d|)) &&
    s[k + |a| + |b| + 2 + |d|] == ')'
  }

  /** The three numbers are fields, the first two followed by a comma and the last by
      `)`. */
  lemma NumbersAt(s: string, k: nat, a: string, b: string, d: string,
                  n1: nat, s1: bool, n2: nat, s2: bool, n3: nat, s3: bool)
    requires Layout(s, k, a, b, d) && Wide(a, s1) && Wide(b, s2) && Wide(d, s3)
    ensures LaidOut(s, k, a, b, d, n1, s1, n2, s2, n3, s3)
  {
    FirstAt(s, k, a, b, d, n1, s1);
    SecondAt(s, k, a, b, d, n2, s2);
    ThirdAt(s, k, a, b, d, n3, s3);
  }

  lemma FirstAt(s: string, k: nat, a: string, b: string, d: string, n: nat, signed: bool)
    requires Layout(s, k, a, b, d) && Wide(a, signed)
    ensures FieldAt(s, k, Lazy(n, signed)) == Some(((k, k + |a|), k + |a|))
  {
    NumberAt(s, k, a, n, signed);
  }

  lemma SecondAt(s: string, k: nat, a: string, b: string, d: string, n: nat, signed: bool)
    requires Layout(s, k, a, b, d) && Wide(b, signed)
    ensures FieldAt(s, k + |a| + 1, Lazy(n, signed)) ==
      Some(((k + |a| + 1, k + |a| + 1 + |b|), k + |a| + 1 + |b|))
  {
    NumberAt(s, k + |a| + 1, b, n, signed);
  }

  lemma ThirdAt(s: string, k: nat, a: string, b: string, d: string, n: nat, signed: bool)
    requires Layout(s, k, a, b, d) && Wide(d, signed)
    ensures FieldAt(s, k + |a| + |b| + 2, Lazy(n, signed)) ==
      Some(((k + |a| + |b| + 2, k + |a| + |b| + 2 + |d|), k + |a| + |b| + 2 + |d|))
  {
    NumberAt(s, k + |a| + |b| + 2, d, n, signed);
  }

  lemma LaidOutFields(s: string, k: nat, a: string, b: string, d: string,
                      n1: nat, s1: bool, n2: nat, s2: bool, n3: nat, s3: bool)
    requires LaidOut(s, k, a, b, d, n1, s1, n2, s2, n3, s3)
    ensures MatchFields(s, k, [Lazy(n1, s1), Lazy(n2, s2), Lazy(n3, s3)]) ==
      Some(([(k, k + |a|), (k + |a| + 1, k + |a| + 1 + |b|), (k + |a| + |b| + 2, k + |a| + |b| + 2 + |d|)], |s|))
  {
    FieldTriple(s, k, Lazy(n1, s1), Lazy(n2, s2), Lazy(n3, s3),
      (k, k + |a|), k + |a|, (k + |a| + 1, k + |a| + 1 + |b|), k + |a| + 1 + |b|,
      (k + |a| + |b| + 2, k + |a| + |b| + 2 + |d|), k + |a| + |b| + 2 + |d|);
  }

  lemma LaidOutMatch(p: Pattern, s: string, k: nat, a: string, b: string, d: string,
                     n1: nat, s1: bool, n2: nat, s2: bool, n3: nat, s3: bool)
    requires WellFormed(p) && p.fields == [Lazy(n1, s1), Lazy(n2, s2), Lazy(n3, s3)]
    requires LaidOut(s, k, a, b, d, n1, s1, n2, s2, n3, s3) && AfterKeyword(s, 0, p.keywords) == Some(k)
    ensures MatchAt(p, s, 0) ==
      Some(([(k, k + |a|), (k + |a| + 1, k + |a| + 1 + |b|), (k + |a| + |b| + 2, k + |a| + |b| + 2 + |d|)], |s|))
  {
    LaidOutFields(s, k, a, b, d, n1, s1, n2, s2, n3, s3);
  }

  /** A pattern of three lazy fields whose keyword ends at `k` matches all of a text
      laid out as `a,b,d)` from there. */
  lemma TextMatchAt(p: Pattern, s: string, k: nat, a: string, b: string, d: string,
                    n1: nat, s1: bool, n2: nat, s2: bool, n3: nat, s3: bool)
    requires WellFormed(p) && p.fields == [Lazy(n1, s1), Lazy(n2, s2), Lazy(n3, s3)]
    requires Layout(s, k, a, b, d) && Wide(a, s1) && Wide(b, s2) && Wide(d, s3)
    requires AfterKeyword(s, 0, p.keywords) == Some(k)
    ensures MatchAt(p, s, 0) ==
      Some(([(k, k + |a|), (k + |a| + 1, k + |a| + 1 + |b|), (k + |a| + |b| + 2, k + |a| + |b| + 2 + |d|)], |s|))
  {
    NumbersAt(s, k, a, b, d, n1, s1, n2, s2, n3, s3);
    LaidOutMatch(p, s, k, a, b, d, n1, s1, n2, s2, n3, s3);
  }

  /** The anchored grammar accepts such a text when it does not start with a space. */
  lemma TextMatches(p: Pattern, s: string, k: nat, a: string, b: string, d: string,
                    n1: nat, s1: bool, n2: nat, s2: bool, n3: nat, s3: bool)
    requires WellFormed(p) && p.fields == [Lazy(n1, s1), Lazy(n2, s2), Lazy(n3, s3)]
    requires Layout(s, k, a, b, d) && Wide(a, s1) && Wide(b, s2) && Wide(d, s3)
    requires AfterKeyword(s, 0, p.keywords) == Some(k) && s[0] != ' '
    ensures Matches(p, s)
  {
    TextMatchAt(p, s, k, a, b, d, n1, s1, n2, s2, n3, s3);
    assert SkipSpaces(s, 0) == 0;
    assert SkipSpaces(s, |s|) == |s|;
  }

  /** The joined extraction group of such a text runs from its first number to its last,
      commas included. */
  lemma TextCaptured(p: Pattern, s: string, k: nat, a: string, b: string, d: string,
                     n1: nat, s1: bool, n2: nat, s2: bool, n3: nat, s3: bool)
    requires WellFormed(p) && p.joined && p.fields == [Lazy(n1, s1), Lazy(n2, s2), Lazy(n3, s3)]
    requires Layout(s, k, a, b, d) && Wide(a, s1) && Wide(b, s2) && Wide(d, s3)
    requires AfterKeyword(s, 0, p.keywords) == Some(k)
    ensures Captured(p, s) == s[k..|s| - 1]
  {
    var spans := [(k, k + |a|), (k + |a| + 1, k + |a| + 1 + |b|), (k + |a| + |b| + 2, k + |a| + |b| + 2 + |d|)];
    TextMatchAt(p, s, k, a, b, d, n1, s1, n2, s2, n3, s3);
    assert Search(p, s, 0) == Some(spans);
    CapturedJoined(p, s, spans);
  }

  /** A single digit followed by `,` is too short for a lazy field. */
  lemma ShortNumber(s: string, i: nat, n: nat, signed: bool)
    requires i + 1 < |s| && IsDigit(s[i]) && s[i + 1] == ','
    ensures FieldAt(s, i, Lazy(n, signed)) == None
  {
    assert SkipSpaces(s, i) == i;
    assert SkipSign(s, i, signed) == i;
    assert DigitRun(s, i + 1) == i + 1;
  }

  /** Where a text written with a one-character first number puts that number. */
  lemma ShortWritten(kw: string, a: string, b: string, d: string)
    requires |a| == 1
    ensures var s := Written(kw, a, b, d);
      |s| > |kw| + 1 && s[..|kw|] == kw && s[|kw|] == a[0] && s[|kw| + 1] == ','
  {
    var s := Written(kw, a, b, d);
    assert s == kw + a + ("," + b + "," + d + ")");
  }

  /** A pattern whose first field is lazy does not match a text whose first number, after
      the keyword, is a single digit. */
  lemma ShortFirstNumber(p: Pattern, s: string, k: nat, n: nat, signed: bool)
    requires WellFormed(p) && |p.fields| >= 2 && p.fields[0] == Lazy(n, signed)
    requires AfterKeyword(s, 0, p.keywords) == Some(k)
    requires k + 1 < |s| && IsDigit(s[k]) && s[k + 1] == ','
    ensures MatchAt(p, s, 0) == None
  {
    ShortNumber(s, k, n, signed);
  }

  /** PHP prints a whole number below 10 as one digit. */
  lemma OneDigitText(v: real)
    requires IsWhole(v) && 0.0 <= v <= 9.0
    ensures |FloatToString(v)| == 1 && IsDigit(FloatToString(v)[0])
  {
    var n := v.Floor;
    RoundWhole(n);
    Pow10Monotone(1, 14);
    RoundedToStringWhole(v);
    assert RoundedToString(v) == FloatToString(v);
    assert FloatToString(v) == NatToString(n);
  }

  /** The group splits into the three number texts. */
  lemma SplitNumbers(a: string, b: string, d: string, sa: bool, sb: bool, sd: bool)
    requires Wide(a, sa) && Wide(b, sb) && Wide(d, sd)
    ensures Explode(',', a + "," + b + "," + d) == [a, b, d]
  {
    NoComma(a, sa);
    NoComma(b, sb);
    NoComma(d, sd);
    ExplodeThree(',', a, b, d);
  }

  lemma NoComma(t: string, signed: bool)
    requires Wide(t, signed)
    ensures ',' !in t
  {
    if t[0] == '-' {
      assert t == [t[0]] + t[1..];
    }
  }

  /** A printed number reaches a `float` parameter, trimmed, as its value. */
  lemma NumberArg(t: string, name: string, signed: bool)
    requires Wide(t, signed)
    ensures FloatArg(Trim(t), name) == Ok(HueValue(t) as real)
  {
    assert IsDigit(t[|t| - 1]) by {
      if t[0] == '-' {
        assert t[|t| - 1] == t[1..][|t| - 2];
      }
    }
    TrimUnblank(t);
    HueNumber(t);
  }

  /** PHP prints a whole number of two or three digits as those digits, after a minus
      sign when it is negative. */
  lemma WholeText(v: real, signed: bool)
    requires IsWhole(v) && (10.0 <= v <= 999.0 || (signed && -999.0 <= v <= -10.0))
    ensures Wide(FloatToString(v), signed) && HueValue(FloatToString(v)) as real == v
  {
    var n := v.Floor;
    RoundWhole(n);
    assert Round(v) == n;
    assert -999 <= n <= 999;
    assert RoundedToString(v) == FloatToString(v);
    RoundedHue(v);
    var t := FloatToString(v);
    var u := if t[0] == '-' then t[1..] else t;
    if |u| == 1 {
      OneDigit(u);
    }
  }

  /** A single digit is worth at most 9. */
  lemma OneDigit(u: string)
    requires |u| == 1 && AllDigits(u)
    ensures DecimalValue(u) <= 9
  {
    assert u[..0] == [];
  }
}
