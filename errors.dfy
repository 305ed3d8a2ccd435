/** What the library throws. Each kind of `InvalidColorValue` is a constructor carrying the
    values the exception reports; the message text itself is not modelled. */
module Errors {

  datatype InvalidColorValue =
    | CIELabValueNotInRange(value: real, name: string, min: real, max: real)
    | RgbChannelValueNotInRange(channelValue: int, channel: string)
    | AlphaChannelValueNotInRange(alpha: int)  // the factory's parameter is an `int`: the value arrives truncated
    | HexChannelValueHasInvalidLength(hex: string)
    | HexValueContainsInvalidCharacters(hex: string)
    | CmykValueNotInRange(cmyk: real, name: string)
    | HslValueNotInRange(hsl: real, name: string)
    | HsbValueNotInRange(hsb: real, name: string)
    | XyzValueNotInRange(xyz: real, axis: string, lower: real, upper: real)
    | MalformedCIELabColorString(text: string)
    | MalformedCmykColorString(text: string)
    | MalformedHexColorString(text: string)
    | MalformedHslColorString(text: string)
    | MalformedHslaColorString(text: string)
    | MalformedRgbColorString(text: string)
    | MalformedRgbaColorString(text: string)
    | MalformedXyzColorString(text: string)
    | MalformedColorString(text: string)

  /** Everything an operation can throw: the library's own exception, PHP's `TypeError`
      (a `null` reaching a typed parameter, or a value of the wrong class leaving a function
      with a declared return type), the `InvalidArgumentException` of the pattern lookup,
      and PHP's `Error` for a call to a static method the class does not define. */
  datatype Failure =
    | Invalid(error: InvalidColorValue)
    | TypeError(parameter: string)
    | ReturnTypeError(callee: string)
    | InvalidArgument(argument: string)
    | UndefinedMethod(name: string)

  datatype Result<+T> = Ok(value: T) | Err(failure: Failure)
  {
    predicate IsFailure() { Err? }

    function PropagateFailure<U>(): Result<U>
      requires Err?
    {
      Err(failure)
    }

    function Extract(): T
      requires Ok?
    {
      value
    }
  }

  datatype Option<+T> = None | Some(value: T)

  /** A check that passes or throws `InvalidColorValue`. */
  function Check(ok: bool, error: InvalidColorValue): (r: Result<()>)
    ensures r.Ok? <==> ok
    ensures r.Err? ==> r.failure == Invalid(error)
  {
    if ok then Ok(()) else Err(Invalid(error))
  }
}
