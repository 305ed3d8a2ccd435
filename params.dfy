/** How a string reaches a typed parameter of the library in PHP's coercive typing mode:
    a numeric or leading-numeric string becomes its number, anything else, and a missing
    list element (`null`), raises `TypeError`. */
module Params {
  import opened Php
  import opened Errors

  /** A string passed to an `int` parameter. */
  function IntArg(t: string, name: string): (r: Result<int>)
    ensures r.Ok? <==> LeadingNumeric(t)
    ensures r.Ok? ==> r.value == Truncate(NumericPrefix(t))
    ensures r.Err? ==> r.failure == TypeError(name)
  {
    if LeadingNumeric(t) then Ok(IntValue(t)) else Err(TypeError(name))
  }

  /** A string passed to a `float` parameter. */
  function FloatArg(t: string, name: string): (r: Result<real>)
    ensures r.Ok? <==> LeadingNumeric(t)
    ensures r.Ok? ==> r.value == NumericPrefix(t)
    ensures r.Err? ==> r.failure == TypeError(name)
  {
    if LeadingNumeric(t) then Ok(NumericPrefix(t)) else Err(TypeError(name))
  }

  /** A `+` sign is accepted and keeps the value. */
  lemma PlusSign()
    ensures IntArg("+5", "red") == Ok(5)
  {
    PlainNumber("5", 1);
    assert "+5"[1..] == "5";
    SignedNumber("+5");
  }

  /** Leading white space, `\f` included, is skipped. */
  lemma LeadingSpace()
    ensures IntArg(" 5", "red") == Ok(5)
    ensures FloatArg([12 as char] + "5", "x") == Ok(5.0)
  {
    PlainNumber("5", 1);
    SpaceBeforeNumber(' ', "5");
    assert [' '] + "5" == " 5";
    SpaceBeforeNumber(12 as char, "5");
  }

  /** An exponent scales the number. */
  lemma ExponentForm()
    ensures IntArg("1e2", "red") == Ok(100)
  {
    assert "1" + "e" + "2" == "1e2";
    assert DecimalValue("1") == 1 && DecimalValue("2") == 2;
    ExponentNumber("1", "2");
    assert Pow10(2) == 100;
    assert NumericPrefix("1e2") == 100.0;
    assert LeadingNumeric("1e2");
    assert Truncate(100.0) == 100;
  }

  /** Text after the number is ignored; text before it, or white space after the sign,
      makes the string non-numeric. */
  lemma TrailingAndRefused()
    ensures IntArg("5abc", "red") == Ok(5)
    ensures IntArg("e5", "red") == Err(TypeError("red"))
    ensures IntArg("+ 5", "red") == Err(TypeError("red"))
  {
    PlainNumber("5abc", 1);
    assert SkipNumericSpace("e5") == "e5" && Unsigned("e5") == "e5";
    assert LeadingDigits("e5") == 0;
    assert SkipNumericSpace("+ 5") == "+ 5" && Unsigned("+ 5") == " 5";
    assert LeadingDigits(" 5") == 0;
  }

  /** Element `k` of a destructured list: `null` past its end. */
  function Item(items: seq<string>, k: nat, name: string): (r: Result<string>)
    ensures r.Ok? <==> k < |items|
    ensures r.Ok? ==> r.value == items[k]
    ensures r.Err? ==> r.failure == TypeError(name)
  {
    if k < |items| then Ok(items[k]) else Err(TypeError(name))
  }

  /** A string of digits reaches an `int` or `float` parameter as its decimal value. */
  lemma DigitsArg(t: string, name: string)
    requires AllDigits(t) && |t| > 0
    ensures IntArg(t, name) == Ok(DecimalValue(t))
    ensures FloatArg(t, name) == Ok(DecimalValue(t) as real)
  {
    IntValueOfDigits(t);
    assert t[0] != '-';
    DigitsPrefix(t);
  }

  /** A string of digits has no blank to trim. */
  lemma TrimDigits(t: string)
    requires AllDigits(t)
    ensures Trim(t) == t
  {
    if t != [] {
      TrimUnblank(t);
    }
  }

  /** A digit with an optional fraction, as in `0`, `1.5` or `0.25`. */
  predicate Decimal1(t: string)
  {
    |t| >= 1 && IsDigit(t[0]) && (|t| == 1 || (|t| >= 3 && t[1] == '.' && AllDigits(t[2..])))
  }

  function Decimal1Value(t: string): real
    requires Decimal1(t)
  {
    DigitValue(t[0]) as real + (if |t| == 1 then 0.0 else FractionValue(t[2..]))
  }

  /** Such a string reaches a `float` parameter, trimmed or not, as its value. */
  lemma Decimal1Arg(t: string, name: string)
    requires Decimal1(t)
    ensures Trim(t) == t
    ensures FloatArg(t, name) == Ok(Decimal1Value(t))
  {
    TrimUnblank(t);
    assert LeadingDigits(t) == 1 by {
      if |t| > 1 {
        assert LeadingDigits(t[1..]) == 0;
      }
    }
    assert t[..1] == [t[0]] && [t[0]][..0] == [];
    assert DecimalValue(t[..1]) == DigitValue(t[0]);
    assert t[0] != '-';
    if |t| > 1 {
      var rest := t[1..];
      assert rest[0] == '.' && rest[1..] == t[2..];
      DigitsPrefix(t[2..]);
      assert t[2..][..|t| - 2] == t[2..];
    } else {
      assert t[1..] == [];
    }
    assert NumericPrefix(t) == Decimal1Value(t);
  }

  /** Item `k` of a trimmed list, passed to the `int` parameter `name`. */
  function IntItem(items: seq<string>, k: nat, name: string): (r: Result<int>)
    ensures k >= |items| ==> r == Err(TypeError(name))
    ensures k < |items| ==> r == IntArg(Trim(items[k]), name)
  {
    var t :- Item(items, k, name);
    IntArg(Trim(t), name)
  }

  /** Item `k` of a trimmed list, passed to the `float` parameter `name`. */
  function FloatItem(items: seq<string>, k: nat, name: string): (r: Result<real>)
    ensures k >= |items| ==> r == Err(TypeError(name))
    ensures k < |items| ==> r == FloatArg(Trim(items[k]), name)
  {
    var t :- Item(items, k, name);
    FloatArg(Trim(t), name)
  }

  /** The first `n` items of a list all exist and, trimmed, start like a number. */
  predicate NumericItems(items: seq<string>, n: nat)
  {
    n <= |items| && forall k | 0 <= k < n :: LeadingNumeric(Trim(items[k]))
  }

  lemma NumericItems3(items: seq<string>)
    ensures NumericItems(items, 3) <==>
      3 <= |items| && LeadingNumeric(Trim(items[0])) && LeadingNumeric(Trim(items[1])) &&
      LeadingNumeric(Trim(items[2]))
  {
    if 3 <= |items| && LeadingNumeric(Trim(items[0])) && LeadingNumeric(Trim(items[1])) &&
      LeadingNumeric(Trim(items[2]))
    {
      forall k | 0 <= k < 3
        ensures LeadingNumeric(Trim(items[k]))
      {
        assert k == 0 || k == 1 || k == 2;
      }
    }
  }

  lemma NumericItems4(items: seq<string>)
    ensures NumericItems(items, 4) <==>
      4 <= |items| && LeadingNumeric(Trim(items[0])) && LeadingNumeric(Trim(items[1])) &&
      LeadingNumeric(Trim(items[2])) && LeadingNumeric(Trim(items[3]))
  {
    if 4 <= |items| && LeadingNumeric(Trim(items[0])) && LeadingNumeric(Trim(items[1])) &&
      LeadingNumeric(Trim(items[2])) && LeadingNumeric(Trim(items[3]))
    {
      forall k | 0 <= k < 4
        ensures LeadingNumeric(Trim(items[k]))
      {
        assert k == 0 || k == 1 || k == 2 || k == 3;
      }
    }
  }

  /** Item `k`, trimmed, as an `int` parameter receives it. */
  function IntAt(items: seq<string>, k: nat): int
    requires k < |items|
  {
    Truncate(NumericPrefix(Trim(items[k])))
  }

  /** Item `k`, trimmed, as a `float` parameter receives it. */
  function FloatAt(items: seq<string>, k: nat): real
    requires k < |items|
  {
    NumericPrefix(Trim(items[k]))
  }

  /** An item of digits reaches an `int` parameter as its decimal value. */
  lemma DigitsItem(items: seq<string>, k: nat, name: string)
    requires k < |items| && AllDigits(items[k]) && |items[k]| > 0
    ensures IntItem(items, k, name) == Ok(DecimalValue(items[k]))
  {
    TrimDigits(items[k]);
    DigitsArg(items[k], name);
  }
}
