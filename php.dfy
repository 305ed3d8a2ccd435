/** The PHP primitives the colour library is built from, stated over exact reals and
    character strings: rounding, float-to-int coercion, the two remainder operators,
    number <-> string conversions and the way PHP prints a float. */
module Php {

  // ---------------------------------------------------------------------------
  // Numbers
  // ---------------------------------------------------------------------------

  function Abs(x: real): (r: real)
    ensures r >= 0.0 && (r == x || r == -x)
  {
    if x < 0.0 then -x else x
  }

  function Max3(a: real, b: real, c: real): (r: real)
    ensures r >= a && r >= b && r >= c
    ensures r == a || r == b || r == c
  {
    if a >= b && a >= c then a else if b >= c then b else c
  }

  function Min3(a: real, b: real, c: real): (r: real)
    ensures r <= a && r <= b && r <= c
    ensures r == a || r == b || r == c
  {
    if a <= b && a <= c then a else if b <= c then b else c
  }

  function MinReal(a: real, b: real): (r: real)
    ensures r <= a && r <= b && (r == a || r == b)
  {
    if a <= b then a else b
  }

  /** `round($x)`: the nearest integer, halves rounded away from zero. */
  function Round(x: real): (r: int)
    ensures x >= 0.0 ==> (r as real) - 0.5 <= x < (r as real) + 0.5
    ensures x < 0.0 ==> (r as real) - 0.5 < x <= (r as real) + 0.5
  {
    if x >= 0.0 then (x + 0.5).Floor else -((-x + 0.5).Floor)
  }

  /** `round($x, 2)`. */
  function Round2(x: real): (r: real)
    ensures Abs(r - x) <= 0.005
  {
    (Round(x * 100.0) as real) / 100.0
  }

  /** A value in [0, 1] rounds to a whole number of hundredths. */
  lemma Hundredths(x: real) returns (m: nat)
    requires 0.0 <= x <= 1.0
    ensures m <= 100 && Round2(x) == m as real / 100.0
    ensures 0.0 <= Round2(x) <= 1.0
  {
    var n := Round(x * 100.0);
    assert 0 <= n <= 100;
    m := n;
  }

  /** PHP's coercion of a float to an `int` parameter or return value: truncation toward zero. */
  function Truncate(x: real): (r: int)
    ensures x >= 0.0 ==> 0.0 <= r as real <= x < r as real + 1.0
    ensures x < 0.0 ==> r as real - 1.0 < x <= r as real <= 0.0
  {
    if x >= 0.0 then x.Floor else -((-x).Floor)
  }

  /** `floor($x)`. */
  function Floor(x: real): (r: int)
    ensures r as real <= x < r as real + 1.0
  {
    x.Floor
  }

  /** PHP's `%` on integers: the remainder takes the sign of the dividend and is smaller
      than the divisor in magnitude. */
  function Rem(a: int, b: int): (r: int)
    requires b != 0
    ensures a >= 0 ==> 0 <= r < (if b > 0 then b else -b)
    ensures a < 0 ==> -(if b > 0 then b else -b) < r <= 0
  {
    var m := if b > 0 then b else -b;
    if a >= 0 then a % m else -((-a) % m)
  }

  /** PHP's `%` with a float left operand: both operands are first truncated to integers. */
  function FloatRem(x: real, b: int): (r: int)
    requires b != 0
    ensures Truncate(x) >= 0 ==> 0 <= r < (if b > 0 then b else -b)
  {
    Rem(Truncate(x), b)
  }

  /** C's `fmod($x, $y)`: `x - n*y` for the integer `n` that truncates `x/y`. */
  function Fmod(x: real, y: real): (r: real)
    requires y > 0.0
    ensures x >= 0.0 ==> 0.0 <= r < y
    ensures x < 0.0 ==> -y < r <= 0.0
  {
    var t := x / y;
    var q := Truncate(t);
    QuotientSign(x, y);
    FmodBounds(x, y, t, q as real);
    x - y * (q as real)
  }

  lemma QuotientSign(x: real, y: real)
    requires y > 0.0
    ensures y * (x / y) == x
    ensures (x >= 0.0) == (x / y >= 0.0)
  {
    var t := x / y;
    if t < 0.0 {
      assert y * (-t) > 0.0;
    } else {
      assert y * t >= 0.0;
    }
  }

  lemma FmodBounds(x: real, y: real, t: real, q: real)
    requires y > 0.0 && y * t == x && (x >= 0.0) == (t >= 0.0)
    requires t >= 0.0 ==> q <= t < q + 1.0
    requires t < 0.0 ==> q - 1.0 < t <= q
    ensures x >= 0.0 ==> 0.0 <= x - y * q < y
    ensures x < 0.0 ==> -y < x - y * q <= 0.0
  {
    var d := t - q;
    assert x - y * q == y * d;
    if x >= 0.0 {
      ScaleBounds(y, d);
    } else {
      ScaleBoundsNegative(y, d);
    }
  }

  lemma ScaleBounds(y: real, d: real)
    requires y > 0.0 && 0.0 <= d < 1.0
    ensures 0.0 <= y * d < y
  {
    assert y * (1.0 - d) > 0.0;
  }

  lemma ScaleBoundsNegative(y: real, d: real)
    requires y > 0.0 && -1.0 < d <= 0.0
    ensures -y < y * d <= 0.0
  {
    assert y * (1.0 + d) > 0.0;
    assert y * (-d) >= 0.0;
  }

  function Pow10(k: nat): (p: nat)
    ensures p >= 1
  {
    if k == 0 then 1 else 10 * Pow10(k - 1)
  }

  /** The number of decimal digits of `n` (1 for 0). */
  function NumDigits(n: nat): (d: nat)
    ensures d >= 1
  {
    if n < 10 then 1 else 1 + NumDigits(n / 10)
  }

  lemma {:induction false} NumDigitsBounds(n: nat)
    ensures n < Pow10(NumDigits(n))
    ensures n >= 1 ==> Pow10(NumDigits(n) - 1) <= n
  {
    if n >= 10 {
      NumDigitsBounds(n / 10);
    }
  }

  // ---------------------------------------------------------------------------
  // Characters and strings (a PHP string is a sequence of single-byte characters)
  // ---------------------------------------------------------------------------

  predicate IsDigit(c: char) { '0' <= c <= '9' }

  predicate IsHexDigit(c: char) { IsDigit(c) || 'a' <= c <= 'f' || 'A' <= c <= 'F' }

  predicate IsLowerHexDigit(c: char) { IsDigit(c) || 'a' <= c <= 'f' }

  predicate AllDigits(s: string) { forall i | 0 <= i < |s| :: IsDigit(s[i]) }

  predicate AllHexDigits(s: string) { forall i | 0 <= i < |s| :: IsHexDigit(s[i]) }

  predicate IsAscii(c: char) { c as int < 0x80 }

  /** The number of bytes a character takes in UTF-8. */
  function Utf8Width(c: char): (n: nat)
    ensures 1 <= n <= 4
    ensures n == 1 <==> IsAscii(c)
  {
    if c as int < 0x80 then 1
    else if c as int < 0x800 then 2
    else if c as int < 0x1_0000 then 3
    else 4
  }

  /** `strlen`: PHP strings are bytes, so a string counts the UTF-8 bytes of its
      characters. It is the number of characters exactly when every character is ASCII. */
  function StrLen(s: string): (n: nat)
    ensures |s| <= n <= 4 * |s|
    ensures n == |s| <==> forall i | 0 <= i < |s| :: IsAscii(s[i])
  {
    if s == [] then 0
    else
      var n := Utf8Width(s[0]) + StrLen(s[1..]);
      assert forall i | 1 <= i < |s| :: s[i] == s[1..][i - 1];
      n
  }

  /** `strtolower` on one character: only ASCII letters change. */
  function ToLowerChar(c: char): (r: char)
    ensures 'A' <= c <= 'Z' ==> 'a' <= r <= 'z' && r as int == c as int + 32
    ensures !('A' <= c <= 'Z') ==> r == c
  {
    if 'A' <= c <= 'Z' then (c as int + 32) as char else c
  }

  /** `strtolower`. */
  function ToLower(s: string): (r: string)
    ensures |r| == |s| && forall i | 0 <= i < |s| :: r[i] == ToLowerChar(s[i])
  {
    seq(|s|, i requires 0 <= i < |s| => ToLowerChar(s[i]))
  }

  function DigitChar(d: nat): (c: char)
    requires d < 10
    ensures IsDigit(c)
  {
    ('0' as int + d) as char
  }

  function DigitValue(c: char): (d: nat)
    requires IsDigit(c)
    ensures d < 10 && DigitChar(d) == c
  {
    c as int - '0' as int
  }

  /** PHP's string form of a non-negative integer. */
  function NatToString(n: nat): (s: string)
    ensures |s| == NumDigits(n)
  {
    if n < 10 then [DigitChar(n)] else NatToString(n / 10) + [DigitChar(n % 10)]
  }

  /** PHP's string form of an integer. */
  function IntToString(n: int): string
  {
    if n < 0 then "-" + NatToString(-n) else NatToString(n)
  }

  /** The value of a string of decimal digits (leading zeros allowed). */
  function DecimalValue(s: string): nat
    requires AllDigits(s)
  {
    if s == [] then 0 else DecimalValue(s[..|s| - 1]) * 10 + DigitValue(s[|s| - 1])
  }

  lemma DigitCharValue(d: nat)
    requires d < 10
    ensures DigitValue(DigitChar(d)) == d
  {
  }

  /** The fraction `0.xy`. */
  lemma FractionOfTwo(x: char, y: char)
    requires IsDigit(x) && IsDigit(y)
    ensures FractionValue([x, y]) == DigitValue(x) as real / 10.0 + DigitValue(y) as real / 100.0
  {
    assert [x, y][1..] == [y] && [y][1..] == [];
    assert FractionValue([y]) == DigitValue(y) as real / 10.0;
  }

  /** The value of one, two or three given digits. */
  lemma DecimalValueOfDigits(x: char, y: char, z: char)
    requires IsDigit(x) && IsDigit(y) && IsDigit(z)
    ensures DecimalValue([x]) == DigitValue(x)
    ensures DecimalValue([x, y]) == 10 * DigitValue(x) + DigitValue(y)
    ensures DecimalValue([x, y, z]) == 100 * DigitValue(x) + 10 * DigitValue(y) + DigitValue(z)
  {
    assert [x, y, z][..2] == [x, y] && [x, y][..1] == [x] && [x][..0] == [];
  }

  lemma {:induction false} NatToStringDigits(n: nat)
    ensures AllDigits(NatToString(n))
    ensures DecimalValue(NatToString(n)) == n
    ensures NatToString(n)[0] != '0' || n == 0
  {
    if n >= 10 {
      NatToStringDigits(n / 10);
      var s := NatToString(n);
      assert s[..|s| - 1] == NatToString(n / 10);
    }
  }

  /** The value of the fraction `0.d1d2...` written by a string of digits. */
  function FractionValue(s: string): (r: real)
    requires AllDigits(s)
    ensures 0.0 <= r <= 1.0
  {
    if s == [] then 0.0 else (DigitValue(s[0]) as real + FractionValue(s[1..])) / 10.0
  }

  /** Length of the run of decimal digits at the start of `s`. */
  function LeadingDigits(s: string): (n: nat)
    ensures n <= |s| && AllDigits(s[..n]) && (n == |s| || !IsDigit(s[n]))
  {
    if s != [] && IsDigit(s[0]) then
      var k := 1 + LeadingDigits(s[1..]);
      assert s[..k] == [s[0]] + s[1..][..k - 1];
      k
    else 0
  }

  /** The white space PHP allows before a number: space, `\t`, `\n`, `\r`, `\v` and `\f`. */
  predicate IsNumericSpace(c: char)
  {
    c == ' ' || c == '\t' || c == '\n' || c == '\r' || c == 11 as char || c == 12 as char
  }

  /** The string without its leading white space. */
  function SkipNumericSpace(t: string): (u: string)
    ensures |u| <= |t| && (u == [] || !IsNumericSpace(u[0]))
  {
    if t != [] && IsNumericSpace(t[0]) then SkipNumericSpace(t[1..]) else t
  }

  /** The string after an optional `+` or `-` sign. */
  function Unsigned(u: string): string
  {
    if |u| > 0 && (u[0] == '-' || u[0] == '+') then u[1..] else u
  }

  /** Length of the mantissa at the start of `v`: digits with an optional `.` and digits, or
      a `.` and at least one digit; 0 where there is none. */
  function MantissaLength(v: string): (n: nat)
    ensures n <= |v|
  {
    var k := LeadingDigits(v);
    if |v| > k && v[k] == '.' then
      var d := LeadingDigits(v[k + 1..]);
      if k == 0 && d == 0 then 0 else k + 1 + d
    else k
  }

  /** The value of the mantissa at the start of `v`, 0 where there is none. */
  function MantissaValue(v: string): real
  {
    var k := LeadingDigits(v);
    var whole := DecimalValue(v[..k]) as real;
    var rest := v[k..];
    var frac :=
      if |rest| > 0 && rest[0] == '.' then
        var d := LeadingDigits(rest[1..]);
        FractionValue(rest[1..][..d])
      else 0.0;
    whole + frac
  }

  /** The exponent at the start of `w`: `e` or `E`, an optional sign and at least one digit;
      0 where there is none. */
  function ExponentOf(w: string): int
  {
    if |w| >= 2 && (w[0] == 'e' || w[0] == 'E') then
      var x := if w[1] == '-' || w[1] == '+' then w[2..] else w[1..];
      var d := LeadingDigits(x);
      var e: int := DecimalValue(x[..d]);
      if w[1] == '-' then -e else e
    else 0
  }

  /** `x` times ten to the power `e`, for any integer `e`. */
  function Scaled(x: real, e: int): real
    decreases if e < 0 then -e else e
  {
    if e == 0 then x else if e > 0 then Scaled(x, e - 1) * 10.0 else Scaled(x, e + 1) / 10.0
  }

  /** The string starts like a number, as PHP's numeric strings do: white space, an optional
      sign, then a mantissa (`5`, `5.`, `.5`, `5.25`). */
  predicate LeadingNumeric(t: string)
  {
    MantissaLength(Unsigned(SkipNumericSpace(t))) > 0
  }

  /** The number PHP reads from the start of a numeric string such as `-055`, ` +0.5`, `1e2`
      or `55%`: white space, an optional sign, a mantissa and an optional exponent; anything
      after them is ignored, and a string that does not start like a number reads as 0. */
  function NumericPrefix(t: string): real
  {
    SignedValue(SkipNumericSpace(t))
  }

  /** The value of an optional sign followed by an unsigned number. */
  function SignedValue(u: string): real
  {
    if |u| > 0 && u[0] == '-' then -UnsignedValue(Unsigned(u)) else UnsignedValue(Unsigned(u))
  }

  /** The value of a mantissa and its optional exponent. */
  function UnsignedValue(v: string): real
  {
    Scaled(MantissaValue(v), ExponentOf(v[MantissaLength(v)..]))
  }

  /** An `int` parameter receiving a numeric string. */
  function IntValue(t: string): int
  {
    Truncate(NumericPrefix(t))
  }

  lemma DigitsPrefix(s: string)
    requires AllDigits(s)
    ensures LeadingDigits(s) == |s|
  {
  }

  lemma {:induction false} LeadingDigitsUpTo(t: string, k: nat)
    requires k <= |t| && AllDigits(t[..k]) && (k == |t| || !IsDigit(t[k]))
    ensures LeadingDigits(t) == k
  {
    if k > 0 {
      assert t[1..][..k - 1] == t[..k][1..];
      LeadingDigitsUpTo(t[1..], k - 1);
    }
  }

  /** A string starting with a digit has no white space or sign to skip. */
  lemma StartsWithDigit(t: string)
    requires |t| > 0 && IsDigit(t[0])
    ensures SkipNumericSpace(t) == t && Unsigned(t) == t
    ensures NumericPrefix(t) == UnsignedValue(t)
    ensures LeadingNumeric(t) <==> MantissaLength(t) > 0
  {
    assert !IsNumericSpace(t[0]) && t[0] != '-' && t[0] != '+';
    assert SkipNumericSpace(t) == t;
    assert Unsigned(t) == t;
  }

  lemma PlainMantissa(t: string, k: nat)
    requires 0 < k <= |t| && AllDigits(t[..k])
    requires k == |t| || (!IsDigit(t[k]) && t[k] != '.')
    ensures MantissaLength(t) == k && MantissaValue(t) == DecimalValue(t[..k]) as real
  {
    LeadingDigitsUpTo(t, k);
  }

  lemma NoExponent(w: string)
    requires w == [] || (w[0] != 'e' && w[0] != 'E')
    ensures ExponentOf(w) == 0
  {
  }

  /** Digits ended by the end of the string or by a character that cannot continue a number
      are read as their decimal value. */
  lemma PlainNumber(t: string, k: nat)
    requires 0 < k <= |t| && AllDigits(t[..k])
    requires k == |t| || (!IsDigit(t[k]) && t[k] != '.' && t[k] != 'e' && t[k] != 'E')
    ensures LeadingNumeric(t) && NumericPrefix(t) == DecimalValue(t[..k]) as real
  {
    assert IsDigit(t[..k][0]);
    StartsWithDigit(t);
    PlainMantissa(t, k);
    NoExponent(t[k..]);
    assert UnsignedValue(t) == Scaled(DecimalValue(t[..k]) as real, 0);
  }

  lemma IntValueOfDigits(t: string)
    requires AllDigits(t) && |t| > 0
    ensures LeadingNumeric(t) && NumericPrefix(t) == DecimalValue(t) as real
    ensures IntValue(t) == DecimalValue(t)
  {
    assert t[..|t|] == t;
    PlainNumber(t, |t|);
  }

  /** White space before a number is skipped. */
  lemma SpaceBeforeNumber(c: char, t: string)
    requires IsNumericSpace(c)
    ensures LeadingNumeric([c] + t) <==> LeadingNumeric(t)
    ensures NumericPrefix([c] + t) == NumericPrefix(t)
  {
    assert ([c] + t)[1..] == t;
    assert SkipNumericSpace([c] + t) == SkipNumericSpace(t);
  }

  /** A sign directly before a number: `+` keeps its value and `-` negates it. */
  lemma SignedNumber(t: string)
    requires |t| > 1 && (t[0] == '-' || t[0] == '+')
    requires !IsNumericSpace(t[1]) && t[1] != '-' && t[1] != '+'
    ensures LeadingNumeric(t) <==> LeadingNumeric(t[1..])
    ensures NumericPrefix(t) == if t[0] == '-' then -NumericPrefix(t[1..]) else NumericPrefix(t[1..])
  {
    var v := t[1..];
    assert !IsNumericSpace(t[0]) && v[0] == t[1];
    assert SkipNumericSpace(t) == t;
    assert SkipNumericSpace(v) == v;
    assert Unsigned(t) == v && Unsigned(v) == v;
    assert NumericPrefix(v) == UnsignedValue(v);
  }

  /** `e`, `E`, then digits: the exponent is the digits' value. */
  lemma ExponentDigits(w: string)
    requires |w| > 1 && (w[0] == 'e' || w[0] == 'E') && AllDigits(w[1..])
    ensures ExponentOf(w) == DecimalValue(w[1..])
  {
    assert IsDigit(w[1..][0]);
    DigitsPrefix(w[1..]);
    assert w[1..][..|w| - 1] == w[1..];
  }

  lemma ExponentText(m: string, e: string)
    requires |m| > 0 && AllDigits(m) && |e| > 0 && AllDigits(e)
    ensures LeadingNumeric(m + "e" + e)
    ensures NumericPrefix(m + "e" + e) == Scaled(DecimalValue(m) as real, DecimalValue(e))
  {
    var t := m + "e" + e;
    var w := "e" + e;
    assert t == m + w;
    assert t[..|m|] == m && t[|m|..] == w && w[1..] == e;
    assert t[0] == m[0] && t[|m|] == 'e';
    StartsWithDigit(t);
    PlainMantissa(t, |m|);
    ExponentDigits(w);
    assert t[MantissaLength(t)..] == w;
  }

  lemma {:induction false} ScaledUp(n: nat, k: nat)
    ensures Scaled(n as real, k) == (n * Pow10(k)) as real
  {
    if k > 0 {
      ScaledUp(n, k - 1);
      assert n * Pow10(k) == n * Pow10(k - 1) * 10;
    }
  }

  /** A whole mantissa followed by an exponent is scaled by that power of ten. */
  lemma ExponentNumber(m: string, e: string)
    requires |m| > 0 && AllDigits(m) && |e| > 0 && AllDigits(e)
    ensures LeadingNumeric(m + "e" + e)
    ensures NumericPrefix(m + "e" + e) == (DecimalValue(m) * Pow10(DecimalValue(e))) as real
  {
    ExponentText(m, e);
    ScaledUp(DecimalValue(m), DecimalValue(e));
  }

  // ---------------------------------------------------------------------------
  // Hexadecimal
  // ---------------------------------------------------------------------------

  function HexDigitValue(c: char): (d: nat)
    requires IsHexDigit(c)
    ensures d < 16
  {
    if IsDigit(c) then c as int - '0' as int
    else if 'a' <= c <= 'f' then c as int - 'a' as int + 10
    else c as int - 'A' as int + 10
  }

  /** Lower-case hex digit for `d`. */
  function HexDigitChar(d: nat): (c: char)
    requires d < 16
    ensures IsLowerHexDigit(c) && HexDigitValue(c) == d
  {
    if d < 10 then ('0' as int + d) as char else ('a' as int + d - 10) as char
  }

  /** `hexdec`: the value of the hex digits of `s`, any other character being ignored. */
  function HexDec(s: string): nat
  {
    if s == [] then 0
    else if IsHexDigit(s[|s| - 1]) then HexDec(s[..|s| - 1]) * 16 + HexDigitValue(s[|s| - 1])
    else HexDec(s[..|s| - 1])
  }

  /** Lower-case hex digits of `n`, without leading zeros ("0" for 0). */
  function NatToHex(n: nat): (s: string)
    ensures |s| >= 1 && forall i | 0 <= i < |s| :: IsLowerHexDigit(s[i])
  {
    if n < 16 then [HexDigitChar(n)] else NatToHex(n / 16) + [HexDigitChar(n % 16)]
  }

  const TwoTo63: int := 0x8000_0000_0000_0000

  /** `dechex`: a negative 64-bit integer is printed as its unsigned two's-complement value. */
  function DecHex(n: int): string
    requires -TwoTo63 <= n < TwoTo63
  {
    NatToHex(if n < 0 then n + 2 * TwoTo63 else n)
  }

  function Repeat(c: char, n: nat): (s: string)
    ensures |s| == n && forall i | 0 <= i < n :: s[i] == c
  {
    seq(n, _ => c)
  }

  /** `str_pad($s, $len, $pad, STR_PAD_LEFT)`; a longer string is left as it is. */
  function StrPadLeft(s: string, len: nat, pad: char): (r: string)
    ensures |s| >= len ==> r == s
    ensures |s| < len ==> r == Repeat(pad, len - |s|) + s
  {
    if |s| >= len then s else Repeat(pad, len - |s|) + s
  }

  /** `ltrim($s, $c)` for a single character `c`. */
  function LTrim(s: string, c: char): (r: string)
    ensures |r| <= |s| && r == s[|s| - |r|..]
    ensures r == [] || r[0] != c
  {
    if s != [] && s[0] == c then LTrim(s[1..], c) else s
  }

  /** `str_split($s, 2)` for a non-empty string: pieces of two characters, the last possibly one. */
  function StrSplit2(s: string): (r: seq<string>)
    ensures |r| == (|s| + 1) / 2
  {
    if |s| <= 2 then (if s == [] then [] else [s])
    else [s[..2]] + StrSplit2(s[2..])
  }

  /** Piece `i` of `str_split($s, 2)` is the two characters from `2i`, or the last one. */
  lemma {:induction false} StrSplit2Piece(s: string, i: nat)
    requires i < (|s| + 1) / 2
    ensures StrSplit2(s)[i] == s[2 * i..if 2 * i + 2 <= |s| then 2 * i + 2 else |s|]
  {
    if i > 0 {
      var t := s[2..];
      assert StrSplit2(s)[i] == StrSplit2(t)[i - 1];
      StrSplit2Piece(t, i - 1);
      var j := 2 * (i - 1);
      var e := if j + 2 <= |t| then j + 2 else |t|;
      DropSlice(s, 2, j, e);
    }
  }

  /** A slice of a suffix is a slice of the whole, shifted. */
  lemma DropSlice(s: string, k: nat, a: nat, b: nat)
    requires k <= |s| && a <= b <= |s| - k
    ensures s[k..][a..b] == s[k + a..k + b]
  {
  }

  /** `explode($sep, $s)` for a one-character separator. */
  function Explode(sep: char, s: string): (r: seq<string>)
    ensures |r| >= 1
  {
    if s == [] then [""]
    else if s[0] == sep then [""] + Explode(sep, s[1..])
    else
      var rest := Explode(sep, s[1..]);
      [[s[0]] + rest[0]] + rest[1..]
  }

  /** A piece without the separator is split off whole. */
  lemma {:induction false} ExplodeJoin(sep: char, a: string, b: string)
    requires sep !in a
    ensures Explode(sep, a + [sep] + b) == [a] + Explode(sep, b)
  {
    if a != [] {
      var t := a + [sep] + b;
      assert a[0] in a;
      assert t[0] == a[0] && t[1..] == a[1..] + [sep] + b;
      ExplodeJoin(sep, a[1..], b);
      assert forall c | c in a[1..] :: c in a;
      assert [a[0]] + a[1..] == a;
    } else {
      assert a + [sep] + b == [sep] + b;
    }
  }

  lemma {:induction false} ExplodeWhole(sep: char, a: string)
    requires sep !in a
    ensures Explode(sep, a) == [a]
  {
    if a != [] {
      assert a[0] in a;
      assert forall c | c in a[1..] :: c in a;
      ExplodeWhole(sep, a[1..]);
      assert [a[0]] + a[1..] == a;
    }
  }

  /** Three pieces without the separator, joined by it, split back into the three. */
  lemma ExplodeThree(sep: char, a: string, b: string, c: string)
    requires sep !in a && sep !in b && sep !in c
    ensures Explode(sep, a + [sep] + b + [sep] + c) == [a, b, c]
  {
    ExplodeWhole(sep, c);
    ExplodeJoin(sep, b, c);
    assert a + [sep] + b + [sep] + c == a + [sep] + (b + [sep] + c);
    ExplodeJoin(sep, a, b + [sep] + c);
  }

  /** The characters `trim` removes by default. */
  predicate IsBlank(c: char) { c == ' ' || c == '\t' || c == '\n' || c == '\r' || c == 0 as char || c == 11 as char }

  function TrimLeft(s: string): (r: string)
    ensures |r| <= |s| && r == s[|s| - |r|..]
    ensures r == [] || !IsBlank(r[0])
  {
    if s != [] && IsBlank(s[0]) then TrimLeft(s[1..]) else s
  }

  function TrimRight(s: string): (r: string)
    ensures |r| <= |s| && r == s[..|r|]
    ensures r == [] || !IsBlank(r[|r| - 1])
  {
    if s != [] && IsBlank(s[|s| - 1]) then TrimRight(s[..|s| - 1]) else s
  }

  /** `trim($s)`: blanks removed at both ends. */
  function Trim(s: string): (r: string)
    ensures r == [] || (!IsBlank(r[0]) && !IsBlank(r[|r| - 1]))
  {
    TrimRight(TrimLeft(s))
  }

  /** A string that neither starts nor ends with a blank is left as it is. */
  lemma TrimUnblank(s: string)
    requires s != [] && !IsBlank(s[0]) && !IsBlank(s[|s| - 1])
    ensures Trim(s) == s
  {
    assert TrimLeft(s) == s;
  }

  // ---------------------------------------------------------------------------
  // Printing floats
  // ---------------------------------------------------------------------------

  function Zeros(n: nat): (s: string)
    ensures |s| == n
  {
    Repeat('0', n)
  }

  function TrimTrailingZeros(s: string): (r: string)
    ensures |r| <= |s| && r == s[..|r|]
    ensures r == [] || r[|r| - 1] != '0'
  {
    if s != [] && s[|s| - 1] == '0' then TrimTrailingZeros(s[..|s| - 1]) else s
  }

  /** floor(log10(x)) for x > 0, through digit counts. */
  function Exponent10(x: real): int
    requires x > 0.0
  {
    if x >= 1.0 then NumDigits(x.Floor) - 1
    else
      var y := 1.0 / x;
      var up := -((-y).Floor);  // ceil(y) >= 2
      var k: nat := if up >= 1 then up - 1 else 0;
      0 - NumDigits(k) as int
  }

  /** PHP converts a float to a string as C's `%.14G` does: 14 significant digits with
      trailing zeros dropped, in fixed notation for exponents from -5 to 14 and in the
      form `d.dddE+n` otherwise (a single digit is written `d.0E+n`). */
  function FloatToString(x: real): string
  {
    if x < 0.0 then "-" + PositiveFloatToString(-x)
    else if x == 0.0 then "0"
    else PositiveFloatToString(x)
  }

  function PositiveFloatToString(x: real): string
    requires x > 0.0
  {
    var (m, e) := Significand(x);
    var digits := TrimTrailingZeros(NatToString(m));
    Layout(if digits == [] then "0" else digits, e)
  }

  /** The 14 significant digits of `x > 0` as an integer, and the decimal exponent of the
      first of them. */
  function Significand(x: real): (nat, int)
    requires x > 0.0
  {
    var e0 := Exponent10(x);
    var m0 := Round(Scale(x, e0));
    if m0 < 0 then (0, e0)
    else if m0 >= Pow10(14) then (m0 / 10, e0 + 1)
    else (m0, e0)
  }

  /** `x` shifted so that its first significant digit, of decimal exponent `e`, has
      exponent 13. */
  function Scale(x: real, e: int): real
  {
    if e <= 13 then x * (Pow10(13 - e) as real) else x / (Pow10(e - 13) as real)
  }

  /** Places the significant digits `ds` (no trailing zero) of a number with decimal
      exponent `e`. */
  function Layout(ds: string, e: int): string
    requires ds != []
  {
    var decpt := e + 1;
    if e < -4 || e >= 14 then
      [ds[0]] + "." + (if |ds| == 1 then "0" else ds[1..]) + "E" + (if e < 0 then "-" else "+")
        + NatToString(if e < 0 then -e else e)
    else if decpt <= 0 then "0." + Zeros(-decpt) + ds
    else if |ds| <= decpt then ds + Zeros(decpt - |ds|)
    else ds[..decpt] + "." + ds[decpt..]
  }

  /** `number_format($x, 2)`: rounded to two decimals, thousands separated by commas,
      no minus sign on a value that rounds to zero. */
  function NumberFormat2(x: real): string
  {
    var t := Round(Abs(x) * 100.0);
    var whole := t / 100;
    var cents := t % 100;
    (if x < 0.0 && t != 0 then "-" else "")
      + GroupThousands(whole) + "." + [DigitChar(cents / 10), DigitChar(cents % 10)]
  }

  /** A multiple of 0.01 in [0, 1] is printed as its digit, a point and its two
      decimals. */
  lemma NumberFormatCents(n: nat)
    requires n <= 100
    ensures NumberFormat2(n as real / 100.0) ==
      [DigitChar(n / 100), '.', DigitChar(n / 10 % 10), DigitChar(n % 10)]
  {
    var x := n as real / 100.0;
    assert Abs(x) * 100.0 == n as real;
    RoundWhole(n);
    assert GroupThousands(n / 100) == [DigitChar(n / 100)];
    assert n % 100 / 10 == n / 10 % 10 && n % 100 % 10 == n % 10;
  }

  function GroupThousands(n: nat): string
  {
    if n < 1000 then NatToString(n)
    else
      var low := n % 1000;
      GroupThousands(n / 1000) + "," + [DigitChar(low / 100), DigitChar(low / 10 % 10), DigitChar(low % 10)]
  }

  /** How PHP prints the float `round($x)`: a negative `x` that rounds to zero gives `-0.0`,
      which is printed `-0`. */
  function RoundedToString(x: real): string
  {
    var n := Round(x);
    if n == 0 && x < 0.0 then "-0" else FloatToString(n as real)
  }

  // ---------------------------------------------------------------------------
  // Whole numbers below 10^14 print as their decimal digits
  // ---------------------------------------------------------------------------

  lemma {:induction false} Pow10Add(a: nat, b: nat)
    ensures Pow10(a + b) == Pow10(a) * Pow10(b)
  {
    if a > 0 {
      Pow10Add(a - 1, b);
      assert Pow10(a + b) == 10 * Pow10(a - 1 + b);
    }
  }

  lemma NatToStringTimes10(m: nat)
    requires m >= 1
    ensures NatToString(m * 10) == NatToString(m) + "0"
  {
    assert (m * 10) / 10 == m && (m * 10) % 10 == 0;
  }

  lemma {:induction false} NatToStringShift(n: nat, k: nat)
    requires n >= 1
    ensures NatToString(n * Pow10(k)) == NatToString(n) + Zeros(k)
  {
    if k > 0 {
      NatToStringShift(n, k - 1);
      var p := Pow10(k - 1);
      var m := n * p;
      assert Pow10(k) == 10 * p;
      MulTen(n, p);
      MulAtLeast(n, p);
      NatToStringTimes10(m);
      assert Zeros(k) == Zeros(k - 1) + "0";
    }
  }

  lemma {:induction false} TrimZerosSuffix(s: string, k: nat)
    ensures TrimTrailingZeros(s + Zeros(k)) == TrimTrailingZeros(s)
  {
    if k > 0 {
      var t := s + Zeros(k);
      assert t[|t| - 1] == '0';
      assert t[..|t| - 1] == s + Zeros(k - 1);
      TrimZerosSuffix(s, k - 1);
    } else {
      assert s + Zeros(0) == s;
    }
  }

  lemma {:induction false} TrimZerosRestore(s: string)
    requires s != [] && s[0] != '0'
    ensures TrimTrailingZeros(s) != []
    ensures TrimTrailingZeros(s) + Zeros(|s| - |TrimTrailingZeros(s)|) == s
  {
    if s[|s| - 1] == '0' {
      var p := s[..|s| - 1];
      assert |p| >= 1;
      TrimZerosRestore(p);
      var t := TrimTrailingZeros(p);
      assert Zeros(|s| - |t|) == Zeros(|p| - |t|) + ['0'];
      assert s == p + ['0'];
    }
  }

  lemma ScaledBelowLimit(n: nat, e: nat)
    requires n < Pow10(e + 1) && e <= 13
    ensures n * Pow10(13 - e) < Pow10(14)
  {
    Pow10Add(e + 1, 13 - e);
    MulMono(n, Pow10(e + 1), Pow10(13 - e));
  }

  lemma MulMono(n: int, big: int, q: int)
    requires 0 <= n < big && q >= 1
    ensures n * q < big * q
  {
    assert (big - n) * q == big * q - n * q;
    assert (big - n - 1) * q >= 0;
  }

  lemma MulAtLeast(n: int, p: int)
    requires n >= 1 && p >= 1
    ensures n * p >= 1
  {
    assert (n - 1) * p >= 0;
  }

  lemma MulTen(n: int, p: int)
    ensures n * (10 * p) == (n * p) * 10
  {
  }

  lemma RoundProduct(a: int, b: int)
    ensures Round((a as real) * (b as real)) == a * b
  {
    var p := a * b;
    assert (a as real) * (b as real) == p as real;
    RoundWhole(p);
  }

  /** A whole number below 10^14 is printed by PHP exactly as the integer would be. */
  lemma {:induction false} WholeFloatToString(n: nat)
    requires n < Pow10(14)
    ensures FloatToString(n as real) == NatToString(n)
  {
    if n > 0 {
      var s := NatToString(n);
      NatToStringDigits(n);
      assert s[0] != '0';
      TrimZerosRestore(s);
      var ds := TrimTrailingZeros(s);
      var e := NumDigits(n) - 1;
      var k: nat := WholeSignificand(n);
      LayoutWhole(ds, s, e);
      NatToStringShift(n, k);
      TrimZerosSuffix(s, k);
      assert PositiveFloatToString(n as real) == Layout(ds, e);
    }
  }

  /** Digits with their trailing zeros restored fill exactly the integer part. */
  lemma LayoutWhole(ds: string, s: string, e: int)
    requires ds != [] && |ds| <= |s| && ds + Zeros(|s| - |ds|) == s
    requires 0 <= e <= 13 && |s| == e + 1
    ensures Layout(ds, e) == s
  {
  }

  /** The significand of a whole number `n` is `n` shifted left by `k` digits. */
  lemma WholeSignificand(n: nat) returns (k: nat)
    requires 1 <= n < Pow10(14)
    ensures NumDigits(n) - 1 <= 13 && k == 13 - (NumDigits(n) - 1)
    ensures Significand(n as real) == (n * Pow10(k), NumDigits(n) - 1)
  {
    var e := WholeExponent(n);
    k := 13 - e;
    ScaleWhole(n, e);
    ScaledBelowLimit(n, e);
    SignificandFrom(n as real, e, n * Pow10(k));
  }

  /** A whole number below 10^14 has at most 14 digits. */
  lemma WholeExponent(n: nat) returns (e: nat)
    requires 1 <= n < Pow10(14)
    ensures e == NumDigits(n) - 1 && e <= 13 && n < Pow10(e + 1)
    ensures Exponent10(n as real) == e
  {
    e := NumDigits(n) - 1;
    ExponentOfWhole(n);
    NumDigitsBounds(n);
    if e >= 14 {
      Pow10Monotone(14, e);
    }
  }

  lemma ScaleWhole(n: nat, e: int)
    requires e <= 13
    ensures Round(Scale(n as real, e)) == n * Pow10(13 - e)
  {
    var p := Pow10(13 - e);
    assert Scale(n as real, e) == (n as real) * (p as real);
    RoundProduct(n, p);
  }

  lemma SignificandFrom(x: real, e: int, m: nat)
    requires x > 0.0 && Exponent10(x) == e
    requires Round(Scale(x, e)) == m && m < Pow10(14)
    ensures Significand(x) == (m, e)
  {
  }

  lemma ExponentOfWhole(n: nat)
    requires n >= 1
    ensures Exponent10(n as real) == NumDigits(n) - 1
  {
    assert (n as real).Floor == n;
  }

  lemma RoundWhole(m: int)
    ensures Round(m as real) == m
  {
  }

  lemma {:induction false} Pow10Monotone(a: nat, b: nat)
    requires a <= b
    ensures Pow10(a) <= Pow10(b)
  {
    if a < b {
      Pow10Monotone(a, b - 1);
    }
  }

  /** Printing `round($x)` for a value whose rounding is below 10^14 in magnitude. */
  lemma RoundedToStringWhole(x: real)
    requires Round(x) < Pow10(14) && -Round(x) < Pow10(14)
    ensures Round(x) == 0 && x < 0.0 ==> RoundedToString(x) == "-0"
    ensures !(Round(x) == 0 && x < 0.0) ==> RoundedToString(x) == IntToString(Round(x))
  {
    IntFloatToString(Round(x));
  }

  /** A whole number below 10^14 in magnitude prints as its decimal text. */
  lemma IntFloatToString(n: int)
    requires n < Pow10(14) && -n < Pow10(14)
    ensures FloatToString(n as real) == IntToString(n)
  {
    if n < 0 {
      var m: nat := -n;
      WholeFloatToString(m);
      assert n as real == -(m as real);
      assert FloatToString(-(m as real)) == "-" + PositiveFloatToString(m as real);
      assert IntToString(n) == "-" + NatToString(m);
    } else {
      WholeFloatToString(n);
      assert IntToString(n) == NatToString(n);
    }
  }

  // ---------------------------------------------------------------------------
  // Hundredths in [0, 1] print as at most two decimals
  // ---------------------------------------------------------------------------

  /** The text of `n / 100` for `n` in 0..100: `0`, `1`, or `0.` and the decimals without
      a trailing zero. */
  function CentsText(n: nat): string
    requires n <= 100
  {
    if n == 0 then "0"
    else if n == 100 then "1"
    else if n < 10 then "0.0" + [DigitChar(n)]
    else if n % 10 == 0 then "0." + [DigitChar(n / 10)]
    else "0." + [DigitChar(n / 10), DigitChar(n % 10)]
  }

  /** PHP prints a number of hundredths in [0, 1] with at most two decimals and no
      trailing zero: 0.4 is `0.4`, 0.05 is `0.05`, 1 is `1`. */
  lemma FloatToStringCents(n: nat)
    requires n <= 100
    ensures FloatToString(n as real / 100.0) == CentsText(n)
  {
    if n == 100 {
      CentsOne(n);
    } else if n > 0 {
      CentsFraction(n);
    } else {
      CentsZero(n);
    }
  }

  lemma CentsOne(n: nat)
    requires n == 100
    ensures FloatToString(n as real / 100.0) == CentsText(n)
  {
    var m: nat := n / 100;
    assert n as real / 100.0 == m as real;
    WholeFloatToString(m);
    assert NatToString(m) == "1";
  }

  lemma CentsZero(n: nat)
    requires n == 0
    ensures FloatToString(n as real / 100.0) == CentsText(n)
  {
    assert n as real / 100.0 == 0.0;
  }

  lemma CentsFraction(n: nat)
    requires 1 <= n <= 99
    ensures FloatToString(n as real / 100.0) == CentsText(n)
  {
    var ds, e := CentsLayout(n);
    LayoutCents(n, ds, e);
  }

  /** The digits and the exponent that `n / 100` is laid out from. */
  lemma CentsLayout(n: nat) returns (ds: string, e: int)
    requires 1 <= n <= 99
    ensures e == (if n >= 10 then -1 else -2)
    ensures ds == TrimTrailingZeros(NatToString(n * Pow10(11 - e)))
    ensures n < 10 ==> ds == [DigitChar(n)]
    ensures n >= 10 && n % 10 == 0 ==> ds == [DigitChar(n / 10)]
    ensures n >= 10 && n % 10 != 0 ==> ds == [DigitChar(n / 10), DigitChar(n % 10)]
    ensures ds != [] && PositiveFloatToString(n as real / 100.0) == Layout(ds, e)
  {
    e := CentsExponent(n);
    var z: nat := 11 - e;
    CentsSignificand(n, e, z);
    ds := CentsDigits(n, z);
  }

  lemma LayoutCents(n: nat, ds: string, e: int)
    requires 1 <= n <= 99 && e == (if n >= 10 then -1 else -2)
    requires n < 10 ==> ds == [DigitChar(n)]
    requires n >= 10 && n % 10 == 0 ==> ds == [DigitChar(n / 10)]
    requires n >= 10 && n % 10 != 0 ==> ds == [DigitChar(n / 10), DigitChar(n % 10)]
    ensures Layout(ds, e) == CentsText(n)
  {
    if n < 10 {
      assert Zeros(1) == "0";
    } else {
      assert Zeros(0) == "";
    }
  }

  /** The decimal exponent of `n / 100`: -1 from 0.1 on, -2 below. */
  lemma CentsExponent(n: nat) returns (e: int)
    requires 1 <= n <= 99
    ensures e == (if n >= 10 then -1 else -2)
    ensures Exponent10(n as real / 100.0) == e
  {
    var x := n as real / 100.0;
    var y := 1.0 / x;
    assert y * (n as real) == 100.0;
    var f := (-y).Floor;
    assert f as real <= -y < f as real + 1.0;
    if n >= 10 {
      assert 1.0 < y <= 10.0;
      assert -10 <= f <= -2;
      e := -1;
    } else {
      assert 11.0 < y <= 100.0;
      assert -100 <= f <= -12;
      var k := -f - 1;
      assert NumDigits(k) == 1 + NumDigits(k / 10);
      e := -2;
    }
  }

  /** The fourteen significant digits of `n / 100`: `n` followed by `z` zeros. */
  lemma CentsSignificand(n: nat, e: int, z: nat)
    requires 1 <= n <= 99 && e == (if n >= 10 then -1 else -2) && z == 11 - e
    requires Exponent10(n as real / 100.0) == e
    ensures Significand(n as real / 100.0) == (n * Pow10(z), e)
  {
    var m := CentsScale(n, e, z);
    CentsBelowLimit(n, z);
    SignificandFrom(n as real / 100.0, e, m);
  }

  lemma CentsScale(n: nat, e: int, z: nat) returns (m: nat)
    requires e <= 13 && z == 11 - e
    ensures m == n * Pow10(z)
    ensures Round(Scale(n as real / 100.0, e)) == m
  {
    var q := Pow10(z);
    m := n * q;
    Pow10Add(2, z);
    assert Pow10(13 - e) == 100 * q;
    assert n as real / 100.0 * ((100 * q) as real) == m as real;
    RoundWhole(m);
  }

  lemma CentsBelowLimit(n: nat, z: nat)
    requires 1 <= n <= 99 && (z == 12 || z == 13) && (n < 10 || z == 12)
    ensures n * Pow10(z) < Pow10(14)
  {
    var q := Pow10(z);
    if z == 12 {
      Pow10Add(2, 12);
      MulMono(n, 100, q);
    } else {
      Pow10Add(1, 13);
      MulMono(n, 10, q);
    }
  }

  /** The significant digits of `n / 100` without their trailing zeros. */
  lemma CentsDigits(n: nat, z: nat) returns (ds: string)
    requires 1 <= n <= 99
    ensures ds == TrimTrailingZeros(NatToString(n * Pow10(z)))
    ensures n < 10 ==> ds == [DigitChar(n)]
    ensures n >= 10 && n % 10 == 0 ==> ds == [DigitChar(n / 10)]
    ensures n >= 10 && n % 10 != 0 ==> ds == [DigitChar(n / 10), DigitChar(n % 10)]
  {
    var s := NatToString(n);
    NatToStringShift(n, z);
    TrimZerosSuffix(s, z);
    ds := TrimTrailingZeros(s);
    if n >= 10 {
      assert s == [DigitChar(n / 10), DigitChar(n % 10)];
      if n % 10 == 0 {
        assert s[..1] == [DigitChar(n / 10)];
      }
    }
  }
}
