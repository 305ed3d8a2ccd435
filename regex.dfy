/** A matcher for the family of regular expressions the colour grammars are written in:
    `keyword( field , field , ... )`, case-insensitive, with spaces allowed after `(`,
    around each comma and before `)`. A validation pattern is anchored
    (`/^ *keyword\( ... *\) *$/i`); an extraction pattern is searched for anywhere in the
    string and yields the capture groups.

    Every field is followed in these patterns by ` *` and then `,` or `)`, so a field can
    never end in front of a digit, `.`, `%` or `-`. Scanning each field as the longest
    run of its characters therefore accepts exactly the strings PCRE's backtracking
    accepts, and finds the same groups. */
module Regex {
  import opened Php
  import opened Errors

  /** The field shapes that occur in the library's patterns. */
  datatype Shape =
    | Int(maxDigits: nat, signed: bool)         // `\d{1,n}`, or `-?\d{1,n}` when signed
    | Percent(decimals: bool, percentCaptured: bool)
      // `\d{1,3}%?`, or `\d{1,3}(?:\.\d+)?%?` with decimals; the `%` is inside the
      // capture group only when percentCaptured
    | Alpha                                      // `[0-1](?:\.\d{1,2})?`
    | Lazy(maxLead: nat, signed: bool)          // `\d{1,n}\.?\d+?`, or `-?\d{1,n}\.?\d+?`

  /** `keywords` are the lower-case alternatives for `keyword(` (`hs[vb]\(` has two);
      `joined` is set when a single capture group spans all the fields. */
  datatype Pattern = Pattern(keywords: seq<string>, fields: seq<Shape>, joined: bool)

  /** A span `(start, end)` of captured text. */
  type Span = (nat, nat)

  predicate WellFormed(p: Pattern)
  {
    |p.fields| >= 1 &&
    forall k | 0 <= k < |p.keywords| :: |p.keywords[k]| >= 1 && p.keywords[k][0] != ' '
  }

  // ---------------------------------------------------------------------------
  // Scanning
  // ---------------------------------------------------------------------------

  /** End of the run of spaces starting at `i`. */
  function SkipSpaces(s: string, i: nat): (j: nat)
    requires i <= |s|
    ensures i <= j <= |s| && (j == |s| || s[j] != ' ')
    decreases |s| - i
  {
    if i < |s| && s[i] == ' ' then SkipSpaces(s, i + 1) else i
  }

  lemma {:induction false} SkippedAreSpaces(s: string, i: nat, k: nat)
    requires i <= k && k < |s| && k < SkipSpaces(s, i)
    ensures s[k] == ' '
    decreases k - i
  {
    if i < k {
      SkippedAreSpaces(s, i + 1, k);
    }
  }

  /** End of the run of decimal digits starting at `i`. */
  function DigitRun(s: string, i: nat): (j: nat)
    requires i <= |s|
    ensures i <= j <= |s| && (j == |s| || !IsDigit(s[j]))
    decreases |s| - i
  {
    if i < |s| && IsDigit(s[i]) then DigitRun(s, i + 1) else i
  }

  /** Position after an optional minus sign at `a`. */
  function SkipSign(s: string, a: nat, signed: bool): (b: nat)
    requires a <= |s|
    ensures a <= b <= a + 1 && b <= |s|
  {
    if signed && a < |s| && s[a] == '-' then a + 1 else a
  }

  /** Scans one field starting at `a`: the end of its capture group and the end of the
      field, or None when no text of this shape starts at `a`. */
  function ScanField(s: string, a: nat, f: Shape): (r: Option<Span>)
    requires a <= |s|
    ensures r.Some? ==> a <= r.value.0 <= r.value.1 <= |s|
  {
    match f
    case Int(n, signed) =>
      var b := SkipSign(s, a, signed);
      var e := DigitRun(s, b);
      if 1 <= e - b <= n then Some((e, e)) else None
    case Percent(decimals, percentCaptured) =>
      var e := DigitRun(s, a);
      if !(1 <= e - a <= 3) then None
      else
        var ne := if decimals && e + 1 < |s| && s[e] == '.' && IsDigit(s[e + 1]) then DigitRun(s, e + 1) else e;
        var fe := if ne < |s| && s[ne] == '%' then ne + 1 else ne;
        Some((if percentCaptured then fe else ne, fe))
    case Alpha =>
      if a < |s| && (s[a] == '0' || s[a] == '1') then
        if a + 2 < |s| && s[a + 1] == '.' && IsDigit(s[a + 2]) && DigitRun(s, a + 2) - (a + 2) <= 2 then
          var f := DigitRun(s, a + 2);
          Some((f, f))
        else Some((a + 1, a + 1))
      else None
    case Lazy(n, signed) =>
      var b := SkipSign(s, a, signed);
      var e := DigitRun(s, b);
      if e < |s| && s[e] == '.' then
        var f := DigitRun(s, e + 1);
        if 1 <= e - b <= n && f > e + 1 then Some((f, f)) else None
      else if e - b >= 2 then Some((e, e))
      else None
  }

  /** A field after optional spaces at `i`: its capture span and the position of the
      first non-space after it, which must be a character of the subject. */
  function FieldAt(s: string, i: nat, f: Shape): (r: Option<(Span, nat)>)
    requires i <= |s|
    ensures r.Some? ==> i <= r.value.0.0 <= r.value.0.1 <= r.value.1 < |s|
  {
    var a := SkipSpaces(s, i);
    match ScanField(s, a, f)
    case None => None
    case Some(ends) =>
      var b := SkipSpaces(s, ends.1);
      if b == |s| then None else Some(((a, ends.0), b))
  }

  /** Matches ` *field( *, *field)* *\)` from `i` (just after the opening parenthesis):
      the capture span of each field and the position after `)`. */
  function MatchFields(s: string, i: nat, fields: seq<Shape>): (r: Option<(seq<Span>, nat)>)
    requires i <= |s| && |fields| >= 1
    ensures r.Some? ==> |r.value.0| == |fields| && i < r.value.1 <= |s|
    decreases |fields|
  {
    match FieldAt(s, i, fields[0])
    case None => None
    case Some(fb) =>
      var b := fb.1;
      if |fields| == 1 then
        if s[b] == ')' then Some(([fb.0], b + 1)) else None
      else if s[b] != ',' then None
      else
        match MatchFields(s, b + 1, fields[1..])
        case None => None
        case Some(rest) => Some(([fb.0] + rest.0, rest.1))
  }

  /** Case-insensitive match of the lower-case keyword `kw` at `p`. */
  predicate KeywordAt(s: string, p: nat, kw: string)
  {
    p + |kw| <= |s| && ToLower(s[p..p + |kw|]) == kw
  }

  /** Position after the first keyword alternative found at `p`. */
  function AfterKeyword(s: string, p: nat, keywords: seq<string>): (r: Option<nat>)
    requires p <= |s|
    ensures r.Some? ==> p <= r.value <= |s|
    ensures r.Some? <==> exists k | 0 <= k < |keywords| :: KeywordAt(s, p, keywords[k])
  {
    if keywords == [] then None
    else if KeywordAt(s, p, keywords[0]) then Some(p + |keywords[0]|)
    else
      var r := AfterKeyword(s, p, keywords[1..]);
      assert forall k | 1 <= k < |keywords| :: keywords[k] == keywords[1..][k - 1];
      r
  }

  /** The pattern matched starting exactly at `pos`. */
  function MatchAt(p: Pattern, s: string, pos: nat): (r: Option<(seq<Span>, nat)>)
    requires pos <= |s| && WellFormed(p)
    ensures r.Some? ==> |r.value.0| == |p.fields| && pos < r.value.1 <= |s|
  {
    match AfterKeyword(s, pos, p.keywords)
    case None => None
    case Some(j) => MatchFields(s, j, p.fields)
  }

  /** PCRE's `$` without the multiline flag: the end of the subject, or just before a
      newline that ends it. */
  predicate AtEnd(s: string, t: nat)
  {
    t == |s| || (t + 1 == |s| && s[t] == '\n')
  }

  /** `preg_match('/^ *keyword\( ... *\) *$/i', s)`. */
  predicate Matches(p: Pattern, s: string)
    requires WellFormed(p)
  {
    var p0 := SkipSpaces(s, 0);
    match MatchAt(p, s, p0)
    case None => false
    case Some(m) => AtEnd(s, SkipSpaces(s, m.1))
  }

  /** The leftmost position at or after `from` where the unanchored pattern matches,
      with its spans. */
  function Search(p: Pattern, s: string, from: nat): (r: Option<seq<Span>>)
    requires from <= |s| && WellFormed(p)
    ensures r.Some? ==> |r.value| == |p.fields|
    decreases |s| - from
  {
    match MatchAt(p, s, from)
    case Some(m) => Some(m.0)
    case None => if from == |s| then None else Search(p, s, from + 1)
  }

  /** The text of a span of `s` (every span a match reports lies inside `s`). */
  function Slice(s: string, sp: Span): string
  {
    if sp.0 <= sp.1 <= |s| then s[sp.0..sp.1] else ""
  }

  /** The capture groups for the spans of a match: one per field, or a single group from
      the start of the first field to the end of the last when the pattern is joined. */
  function Groups(p: Pattern, s: string, spans: seq<Span>): (g: seq<string>)
    requires |spans| >= 1
    ensures !p.joined ==> |g| == |spans| && forall k | 0 <= k < |spans| :: g[k] == Slice(s, spans[k])
    ensures p.joined ==> g == [Slice(s, (spans[0].0, spans[|spans| - 1].1))]
  {
    if p.joined then [Slice(s, (spans[0].0, spans[|spans| - 1].1))]
    else seq(|spans|, k requires 0 <= k < |spans| => Slice(s, spans[k]))
  }

  /** `preg_match($pattern, $s, $matches)` for an unanchored pattern: the groups
      `$matches[1..]`, or None when nothing matches. */
  function Extract(p: Pattern, s: string): (r: Option<seq<string>>)
    requires WellFormed(p)
    ensures r.Some? && !p.joined ==> |r.value| == |p.fields|
    ensures r.Some? && p.joined ==> |r.value| == 1
  {
    match Search(p, s, 0)
    case None => None
    case Some(spans) => Some(Groups(p, s, spans))
  }

  /** `$matches[1]` as the library goes on to use it: the first group, or the empty
      string `explode` makes of the `null` a failed match leaves there. */
  function Captured(p: Pattern, s: string): (g: string)
    requires WellFormed(p)
    ensures Extract(p, s).Some? && |Extract(p, s).value| >= 1 ==> g == Extract(p, s).value[0]
    ensures Extract(p, s).None? ==> g == ""
  {
    match Extract(p, s)
    case Some(groups) => if |groups| >= 1 then groups[0] else ""
    case None => ""
  }

  /** `$matches[k + 1]` as a `(float)` cast reads it: the group's text, or the empty
      string for the `null` that a failed match leaves there. */
  function GroupText(m: Option<seq<string>>, k: nat): (g: string)
    ensures m.Some? && k < |m.value| ==> g == m.value[k]
    ensures m.None? ==> g == ""
  {
    if m.Some? && k < |m.value| then m.value[k] else ""
  }

  // Small facts about list displays, kept out of the larger proofs that use them.

  lemma Tail2<T>(a: T, b: T)
    ensures [a, b][1..] == [b]
  {
  }

  lemma Tail3<T>(a: T, b: T, c: T)
    ensures [a, b, c][1..] == [b, c]
  {
  }

  lemma Tail4<T>(a: T, b: T, c: T, d: T)
    ensures [a, b, c, d][1..] == [b, c, d]
  {
  }

  lemma Cons2<T>(a: T, b: T)
    ensures [a] + [b] == [a, b]
  {
  }

  lemma Cons3<T>(a: T, b: T, c: T)
    ensures [a] + [b, c] == [a, b, c]
  {
  }

  /** The groups of an unjoined pattern for three spans, given their texts. */
  lemma ThreeGroups(p: Pattern, s: string, spans: seq<Span>, a: string, b: string, d: string)
    requires !p.joined && |spans| == 3
    requires Slice(s, spans[0]) == a && Slice(s, spans[1]) == b && Slice(s, spans[2]) == d
    ensures Groups(p, s, spans) == [a, b, d]
  {
  }

  /** The groups of an unjoined pattern for four spans, given their texts. */
  lemma FourGroups(p: Pattern, s: string, spans: seq<Span>, a: string, b: string, d: string, e: string)
    requires !p.joined && |spans| == 4
    requires Slice(s, spans[0]) == a && Slice(s, spans[1]) == b
    requires Slice(s, spans[2]) == d && Slice(s, spans[3]) == e
    ensures Groups(p, s, spans) == [a, b, d, e]
  {
  }

  /** What a joined pattern captures once the search has found its spans. */
  lemma CapturedJoined(p: Pattern, s: string, spans: seq<Span>)
    requires WellFormed(p) && p.joined && |spans| >= 1 && Search(p, s, 0) == Some(spans)
    ensures Captured(p, s) == Slice(s, (spans[0].0, spans[|spans| - 1].1))
  {
  }

  /** A field followed by a comma and then the rest of the list. */
  lemma FieldThenRest(s: string, i: nat, fields: seq<Shape>, sp: Span, b: nat, r: (seq<Span>, nat))
    requires i <= |s| && |fields| >= 2
    requires FieldAt(s, i, fields[0]) == Some((sp, b)) && s[b] == ','
    requires MatchFields(s, b + 1, fields[1..]) == Some(r)
    ensures MatchFields(s, i, fields) == Some(([sp] + r.0, r.1))
  {
  }

  /** The last field of the list, closed by `)`. */
  lemma LastField(s: string, i: nat, f: Shape, sp: Span, b: nat)
    requires i <= |s| && FieldAt(s, i, f) == Some((sp, b)) && s[b] == ')'
    ensures MatchFields(s, i, [f]) == Some(([sp], b + 1))
  {
  }

  /** A digits field followed by a comma and then the rest of the list. */
  lemma DigitsThenRest(s: string, i: nat, t: string, n: nat, fields: seq<Shape>, r: (seq<Span>, nat))
    requires TextAt(s, i, t) && 1 <= |t| <= n && AllDigits(t) && i + |t| < |s| && s[i + |t|] == ','
    requires |fields| >= 2 && fields[0] == Int(n, false)
    requires MatchFields(s, i + |t| + 1, fields[1..]) == Some(r)
    ensures MatchFields(s, i, fields) == Some(([(i, i + |t|)] + r.0, r.1))
  {
    DigitsFieldAt(s, i, t, n);
    FieldThenRest(s, i, fields, (i, i + |t|), i + |t|, r);
  }

  /** Two fields, the first followed by a comma and the second by `)`. */
  lemma FieldPair(s: string, i: nat, f: Shape, g: Shape, sf: Span, bf: nat, sg: Span, bg: nat)
    requires i <= |s| && FieldAt(s, i, f) == Some((sf, bf)) && s[bf] == ','
    requires FieldAt(s, bf + 1, g) == Some((sg, bg)) && s[bg] == ')'
    ensures MatchFields(s, i, [f, g]) == Some(([sf, sg], bg + 1))
  {
    LastField(s, bf + 1, g, sg, bg);
    Tail2(f, g);
    FieldThenRest(s, i, [f, g], sf, bf, ([sg], bg + 1));
    Cons2(sf, sg);
  }

  /** Three fields, each of the first two followed by a comma and the last by `)`. */
  lemma FieldTriple(s: string, i: nat, f: Shape, g: Shape, h: Shape, sf: Span, bf: nat, sg: Span, bg: nat, sh: Span, bh: nat)
    requires i <= |s| && FieldAt(s, i, f) == Some((sf, bf)) && s[bf] == ','
    requires FieldAt(s, bf + 1, g) == Some((sg, bg)) && s[bg] == ','
    requires FieldAt(s, bg + 1, h) == Some((sh, bh)) && s[bh] == ')'
    ensures MatchFields(s, i, [f, g, h]) == Some(([sf, sg, sh], bh + 1))
  {
    FieldPair(s, bf + 1, g, h, sg, bg, sh, bh);
    Tail3(f, g, h);
    FieldThenRest(s, i, [f, g, h], sf, bf, ([sg, sh], bh + 1));
    Cons3(sf, sg, sh);
  }

  /** `t` occurs in `s` at `i`. */
  predicate TextAt(s: string, i: nat, t: string)
  {
    i + |t| <= |s| && forall j | 0 <= j < |t| :: s[i + j] == t[j]
  }

  lemma {:induction false} DigitRunOver(s: string, a: nat, k: nat)
    requires a + k <= |s|
    requires forall j | a <= j < a + k :: IsDigit(s[j])
    requires a + k == |s| || !IsDigit(s[a + k])
    ensures DigitRun(s, a) == a + k
    decreases k
  {
    if k > 0 {
      DigitRunOver(s, a + 1, k - 1);
    }
  }

  /** A run of one to `n` digits followed by `,` or `)` is an unsigned `\d{1,n}` field
      spanning exactly those digits. */
  lemma DigitsFieldAt(s: string, i: nat, t: string, n: nat)
    requires TextAt(s, i, t) && 1 <= |t| <= n && AllDigits(t)
    requires i + |t| < |s| && (s[i + |t|] == ',' || s[i + |t|] == ')')
    ensures FieldAt(s, i, Int(n, false)) == Some(((i, i + |t|), i + |t|))
  {
    assert s[i + 0] == t[0];
    assert SkipSpaces(s, i) == i;
    assert forall j | i <= j < i + |t| :: s[j] == t[j - i];
    DigitRunOver(s, i, |t|);
  }

  /** The text of an `[0-1](?:\.\d{1,2})?` field. */
  predicate AlphaText(t: string)
  {
    (|t| == 1 || |t| == 3 || |t| == 4) && (t[0] == '0' || t[0] == '1') &&
    (|t| > 1 ==> t[1] == '.' && AllDigits(t[2..]))
  }

  /** Such a text followed by `,` or `)` is an alpha field spanning exactly that text. */
  lemma AlphaFieldAt(s: string, i: nat, t: string)
    requires TextAt(s, i, t) && AlphaText(t)
    requires i + |t| < |s| && (s[i + |t|] == ',' || s[i + |t|] == ')')
    ensures FieldAt(s, i, Alpha) == Some(((i, i + |t|), i + |t|))
  {
    assert s[i + 0] == t[0];
    assert SkipSpaces(s, i) == i;
    if |t| > 1 {
      assert s[i + 1] == t[1] && s[i + 2] == t[2] && IsDigit(t[2 + 0]);
      assert forall j | i + 2 <= j < i + |t| :: s[j] == t[2..][j - i - 2];
      DigitRunOver(s, i + 2, |t| - 2);
    }
  }

  // ---------------------------------------------------------------------------
  // A validated string is found again by the extraction pattern
  // ---------------------------------------------------------------------------

  /** A field of a validation pattern and the corresponding field of an extraction
      pattern that accepts at least the same texts. */
  predicate FieldRefines(v: Shape, x: Shape)
  {
    match v
    case Percent(vd, _) => x.Percent? && (vd ==> x.decimals)
    case _ => v == x
  }

  predicate Refines(v: Pattern, x: Pattern)
  {
    v.keywords == x.keywords && |v.fields| == |x.fields| &&
    forall k | 0 <= k < |v.fields| :: FieldRefines(v.fields[k], x.fields[k])
  }

  /** Where a field is followed by ` *,` or ` *)`, the wider shape scans it to the same end. */
  lemma ScanFieldRefines(s: string, a: nat, v: Shape, x: Shape)
    requires a <= |s| && FieldRefines(v, x)
    requires ScanField(s, a, v).Some?
    requires var b := SkipSpaces(s, ScanField(s, a, v).value.1); b < |s| && (s[b] == ',' || s[b] == ')')
    ensures ScanField(s, a, x).Some? && ScanField(s, a, x).value.1 == ScanField(s, a, v).value.1
  {
  }

  /** Where a field is followed by ` *,` or ` *)`, the wider shape finds the same
      separator after it. */
  lemma FieldAtRefines(s: string, i: nat, v: Shape, x: Shape)
    requires i <= |s| && FieldRefines(v, x)
    requires FieldAt(s, i, v).Some?
    requires var b := FieldAt(s, i, v).value.1; s[b] == ',' || s[b] == ')'
    ensures FieldAt(s, i, x).Some? && FieldAt(s, i, x).value.1 == FieldAt(s, i, v).value.1
  {
    ScanFieldRefines(s, SkipSpaces(s, i), v, x);
  }

  /** A successful match of several fields starts with a first field, ending at `b`,
      followed by a comma and a match of the others, and ends where they end. */
  lemma MatchFieldsSplit(s: string, i: nat, fields: seq<Shape>) returns (b: nat)
    requires i <= |s| && |fields| >= 2 && MatchFields(s, i, fields).Some?
    ensures FieldAt(s, i, fields[0]).Some? && FieldAt(s, i, fields[0]).value.1 == b
    ensures b < |s| && s[b] == ',' && MatchFields(s, b + 1, fields[1..]).Some?
    ensures MatchFields(s, i, fields).value.1 == MatchFields(s, b + 1, fields[1..]).value.1
  {
    b := FieldAt(s, i, fields[0]).value.1;
  }

  /** The converse of MatchFieldsSplit. */
  lemma MatchFieldsJoin(s: string, i: nat, fields: seq<Shape>, b: nat)
    requires i <= |s| && |fields| >= 2 && b < |s|
    requires FieldAt(s, i, fields[0]).Some? && FieldAt(s, i, fields[0]).value.1 == b
    requires s[b] == ',' && MatchFields(s, b + 1, fields[1..]).Some?
    ensures MatchFields(s, i, fields).Some?
    ensures MatchFields(s, i, fields).value.1 == MatchFields(s, b + 1, fields[1..]).value.1
  {
  }

  lemma {:induction false} MatchFieldsRefines(s: string, i: nat, vf: seq<Shape>, xf: seq<Shape>)
    requires i <= |s| && |vf| >= 1 && |vf| == |xf|
    requires forall k | 0 <= k < |vf| :: FieldRefines(vf[k], xf[k])
    requires MatchFields(s, i, vf).Some?
    ensures MatchFields(s, i, xf).Some?
    ensures MatchFields(s, i, xf).value.1 == MatchFields(s, i, vf).value.1
    decreases |vf|
  {
    if |vf| == 1 {
      FieldAtRefines(s, i, vf[0], xf[0]);
    } else {
      var b := MatchFieldsSplit(s, i, vf);
      FieldAtRefines(s, i, vf[0], xf[0]);
      var vt, xt := vf[1..], xf[1..];
      forall k | 0 <= k < |vt|
        ensures FieldRefines(vt[k], xt[k])
      {
        assert vt[k] == vf[k + 1] && xt[k] == xf[k + 1];
      }
      MatchFieldsRefines(s, b + 1, vt, xt);
      MatchFieldsJoin(s, i, xf, b);
    }
  }

  /** No keyword starts with a space, so none is found at a space. */
  lemma NoKeywordAtSpace(p: Pattern, s: string, q: nat)
    requires WellFormed(p) && q < |s| && s[q] == ' '
    ensures AfterKeyword(s, q, p.keywords).None?
  {
  }

  lemma {:induction false} SearchSkipsSpaces(p: Pattern, s: string, from: nat, p0: nat)
    requires WellFormed(p) && p0 == SkipSpaces(s, 0) && from <= p0
    ensures Search(p, s, from) == Search(p, s, p0)
    decreases p0 - from
  {
    if from < p0 {
      SkippedAreSpaces(s, 0, from);
      NoKeywordAtSpace(p, s, from);
      var next := from + 1;
      assert Search(p, s, from) == Search(p, s, next);
      SearchSkipsSpaces(p, s, next, p0);
    }
  }

  /** A joined extraction pattern that a validating grammar refines finds its one group
      in every string the grammar accepts, and `$matches[1]` is that group. */
  lemma CapturedValidated(v: Pattern, x: Pattern, s: string)
    requires WellFormed(v) && WellFormed(x) && Refines(v, x) && x.joined
    requires Matches(v, s)
    ensures Extract(x, s).Some? && |Extract(x, s).value| == 1
    ensures Captured(x, s) == Extract(x, s).value[0]
  {
    ExtractionFindsValidated(v, x, s);
  }

  /** A string the anchored validation pattern accepts is found by the unanchored
      extraction pattern right after its leading spaces. */
  lemma ExtractionFindsValidated(v: Pattern, x: Pattern, s: string)
    requires WellFormed(v) && WellFormed(x) && Refines(v, x)
    requires Matches(v, s)
    ensures MatchAt(x, s, SkipSpaces(s, 0)).Some?
    ensures Search(x, s, 0) == Some(MatchAt(x, s, SkipSpaces(s, 0)).value.0)
  {
    var p0 := SkipSpaces(s, 0);
    var j := AfterKeyword(s, p0, v.keywords).value;
    MatchFieldsRefines(s, j, v.fields, x.fields);
    SearchSkipsSpaces(x, s, 0, p0);
  }
}
