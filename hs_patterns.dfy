/** `HsPatterns`: the validation and extraction patterns of the hsb, hsl and hsla colour
    strings, looked up by colour type. */
module HsPatterns {
  import opened Errors
  import opened Regex

  /** `HUE`: `\d{1,3}`, with an optional minus sign where the pattern puts `-?` before it. */
  function Hue(signed: bool): Shape { Int(3, signed) }

  /** `COMPONENT`: `\d{1,3}(?:\.\d+)?%?`; in the extraction patterns its group takes the
      `%` in. */
  const Component := Percent(true, true)

  /** `ALPHA`: `[0-1](?:\.\d{1,2})?`. */
  const AlphaField := Alpha

  const HsbValidation := Pattern(["hsv(", "hsb("], [Hue(true), Component, Component], false)
  const HslValidation := Pattern(["hsl("], [Hue(true), Component, Component], false)
  const HslaValidation := Pattern(["hsla("], [Hue(false), Component, Component, AlphaField], false)

  const HsbExtraction := Pattern(["hsv(", "hsb("], [Hue(true), Component, Component], false)
  const HslExtraction := Pattern(["hsl("], [Hue(true), Component, Component], false)
  const HslaExtraction := Pattern(["hsla("], [Hue(false), Component, Component, AlphaField], false)

  /** The colour types both tables have an entry for. */
  predicate IsHsType(t: string) { t == "hsb" || t == "hsl" || t == "hsla" }

  /** `getValidationPattern`: the anchored pattern of a colour type, or
      `InvalidArgumentException` for a type with no entry. */
  function GetValidationPattern(t: string): (r: Result<Pattern>)
    ensures r.Ok? <==> IsHsType(t)
    ensures r.Err? ==> r.failure == InvalidArgument(t)
    ensures r.Ok? ==> WellFormed(r.value) && !r.value.joined
  {
    if t == "hsb" then Ok(HsbValidation)
    else if t == "hsl" then Ok(HslValidation)
    else if t == "hsla" then Ok(HslaValidation)
    else Err(InvalidArgument(t))
  }

  /** `getExtractionPattern`: the unanchored pattern with one group per field, or
      `InvalidArgumentException` for a type with no entry. */
  function GetExtractionPattern(t: string): (r: Result<Pattern>)
    ensures r.Ok? <==> IsHsType(t)
    ensures r.Err? ==> r.failure == InvalidArgument(t)
    ensures r.Ok? ==> WellFormed(r.value) && !r.value.joined
  {
    if t == "hsb" then Ok(HsbExtraction)
    else if t == "hsl" then Ok(HslExtraction)
    else if t == "hsla" then Ok(HslaExtraction)
    else Err(InvalidArgument(t))
  }

  /** The two tables have the same keys, and for each type the extraction pattern finds
      every string the validation pattern accepts: same keywords, same fields. */
  lemma LookupsAgree(t: string)
    ensures GetValidationPattern(t).Ok? <==> GetExtractionPattern(t).Ok?
    ensures GetValidationPattern(t).Ok? ==>
      Refines(GetValidationPattern(t).value, GetExtractionPattern(t).value)
  {
    if IsHsType(t) {
      var v, x := GetValidationPattern(t).value, GetExtractionPattern(t).value;
      assert v.fields == x.fields;
      forall k | 0 <= k < |v.fields|
        ensures FieldRefines(v.fields[k], x.fields[k])
      {
        assert v.fields[k] == x.fields[k];
      }
    }
  }
}
