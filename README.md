# spatie/color in Dafny

A model of the core of the PHP library spatie/color, with proofs about it. The library
parses, validates, prints and converts colours in several notations (hex, rgb, rgba,
hsl, hsla, hsb/hsv, cmyk, xyz, CIELab). The model follows the library's source files one
module each:

- `Validate` (validate.dfy): the range checks of every kind of channel. It also has the
  anchored grammars of the colour strings. Each check returns `Ok(())` or the
  `InvalidColorValue` error kind the library throws (errors.dfy).
- `HsPatterns` (hs_patterns.dfy): the validation and extraction patterns of the hsb, hsl
  and hsla strings, and the lookups that throw `InvalidArgumentException` for any other
  type.
- `Regex` (regex.dfy): a matcher for the one family of regular expressions these grammars
  use, `keyword( field , field , ... )`. It is used both anchored (validation) and
  searched (`preg_match` extraction, with capture groups).
- The value types `Hex`, `Rgb`, `Rgba`, `Hsl`, `Hsla`, `Hsb`, `Cmyk`, `Xyz`, `CIELab`
  (one file each). Each value class is immutable in the library, so it is a datatype with
  a `Valid` predicate. Its members are:
  - the constructor `New`, which checks the values in the source's order and returns the
    colour or the first error;
  - `FromString`;
  - `ToString` (`__toString`);
  - the identity conversion (`toRgb`, `toHsl`, ...);
  - the derived channels `Red`/`Green`/`Blue` where the class has them.
- `Convert` (convert.dfy):
  - the hex channel codec;
  - CMYK to RGB and back;
  - HSL to RGB;
  - HSB to RGB;
  - RGB to HSL;
  - the RGB to HSB conversion.

  The conversions that overwrite locals step by step are methods. Each is proved equal to
  a specification function, and the properties are proved about that function.
- `Conversions` (conversions.dfy): the `to...` methods between classes.
  - In the library, Hex, Rgb, Rgba, Hsl and Hsla refer to one another in a cycle.
  - Dafny modules cannot import each other in a cycle, so these methods live in one
    module above the value types.
  - Each is cited at its own source lines.
- `Factory` (factory.dfy): `Factory::fromString`, which tries the colour classes in order
  and swallows `InvalidColorValue`. It also models PHP loading those classes, which as
  written fails for `Rgb` (see "## Findings").
- Helper modules:
  - `Php` (php.dfy) states the PHP primitives the library relies on:
    - `round` (halves away from zero);
    - `%` (the remainder takes the sign of the dividend);
    - `fmod`;
    - int coercion (truncation);
    - `dechex`, `str_pad`, `str_split`, `ltrim`, `explode`, `trim`;
    - `number_format` with two decimals;
    - float-to-string conversion.
  - `Params` (params.dfy): how a string reaches a typed `int` or `float` parameter.
  - `HsText` and `LazyText`: how the printed texts lie under the grammars.

Floats are modelled as exact reals. PHP's float printing (14 significant digits, with the
exponent form for very large and very small values) is modelled for every real; the
lemmas that read a printed float back cover whole numbers and hundredths in [0, 1].

Where the library's documentation and its code differ, the model follows the code:
- The xyz grammar's first field is `\d{1,2}\.?\d+?` (src/Validate.php:148). It is not
  `\d{1,3}`.
- The factory tries only Hex, Rgb and Rgba (src/Factory.php:27-34).

## Model

| member | source | states |
|---|---|---|
| Validate.CIELabValue | src/Validate.php:9-18 | l passes exactly when in [0, 100]; any other name passes exactly when in [-110, 110]; the error carries the value, name and bounds |
| Validate.CmykValue | src/Validate.php:27-32 | passes exactly for values in [0, 1]; otherwise the cmyk range error for that value and name |
| Validate.RgbChannelValue | src/Validate.php:34-39 | passes exactly for the integers 0..255; otherwise the channel range error |
| Validate.AlphaChannelValue | src/Validate.php:41-46 | passes exactly for [0, 1]; the error carries the value truncated to an integer, as the `int` parameter of the exception factory does |
| Validate.HexChannelValue | src/Validate.php:48-57 | passes exactly for two hex digits in either case; a length other than two bytes (UTF-8, as `strlen` counts) is reported before wrong characters |
| Validate.HexChannelValueExamples | src/Validate.php:48-57 | 'a' gets the length error, 'gg' the character error, 'aF' passes |
| Validate.HexChannelValueBytes | src/Validate.php:48-57 | lengths are bytes: 'é' gets the character error, 'aé' (two characters, three bytes) the length error |
| Validate.HsbValue | src/Validate.php:59-74 | the name 'hue' passes exactly in [0, 360], any other name exactly in [0, 100]; a value out of range ends in PHP's `Error` for the undefined `hsbValueNotInRange` |
| Validate.HsbValueIntended | src/Validate.php:59-74 | accepts exactly what `HsbValue` accepts, and refuses the rest with the `InvalidColorValue` range error naming the value |
| Validate.HsbRangeErrorAsWritten | src/Validate.php:64 | a hue of 400 raises the undefined-method `Error` as written, and the range error when corrected |
| Validate.HslValue | src/Validate.php:76-81 | passes exactly for [0, 100] |
| Validate.XyzValue | src/Validate.php:131-144 | x in [0, 95.047], y in [0, 100], z in [0, 108.883], other names pass; the error carries the bounds |
| Validate.CIELabColorString | src/Validate.php:20-25 | passes exactly when the anchored CIELab grammar matches, else the malformed-CIELab error |
| Validate.CmykColorString | src/Validate.php:83-87 | passes exactly when the anchored cmyk grammar matches, else the malformed-cmyk error |
| Validate.RgbColorString | src/Validate.php:89-94 | passes exactly when the anchored rgb grammar matches, else the malformed-rgb error |
| Validate.RgbaColorString | src/Validate.php:96-101 | passes exactly when the anchored rgba grammar matches, else the malformed-rgba error |
| Validate.HexColorString | src/Validate.php:103-108 | passes exactly for '#' and 3, 4, 6 or 8 hex digits, else the malformed-hex error |
| Validate.HsbColorString | src/Validate.php:110-115 | passes exactly when the `hs[vb]` grammar matches; a malformed string gets the hsl error kind |
| Validate.HslColorString | src/Validate.php:117-122 | passes exactly when the anchored hsl grammar matches, else the malformed-hsl error |
| Validate.HslaColorString | src/Validate.php:124-129 | passes exactly when the anchored hsla grammar matches, else the malformed-hsla error |
| Validate.XyzColorString | src/Validate.php:146-151 | passes exactly when the anchored xyz grammar matches, else the malformed-xyz error |
| HsPatterns.GetValidationPattern | src/HsPatterns.php:23-30 | a pattern exactly for 'hsb', 'hsl', 'hsla'; `InvalidArgumentException` for any other type |
| HsPatterns.GetExtractionPattern | src/HsPatterns.php:32-39 | a pattern exactly for 'hsb', 'hsl', 'hsla'; `InvalidArgumentException` for any other type |
| HsPatterns.LookupsAgree | src/HsPatterns.php:7-21 | both tables have the same keys, and each extraction pattern accepts at least the fields of its validation pattern |
| Regex.MatchFieldsRefines | src/HsPatterns.php:7-21 | where a field is followed by a comma or `)`, a wider field shape matches the same text to the same end |
| Regex.ExtractionFindsValidated | src/Hsl.php:22-36 | on a string the anchored grammar accepts, the unanchored extraction search finds its match where the grammar did |
| Regex.CapturedValidated | src/Rgb.php:27-30 | a single-group extraction pattern that a validating grammar refines finds exactly one group on every string the grammar accepts, and `$matches[1]` is that group |
| Params.IntArg | src/Rgb.php:30-33 | a string reaches an `int` parameter as the number it starts with, truncated: white space, an optional `+` or `-`, a mantissa (`5`, `5.`, `.5`, `5.25`) and an optional exponent; a string that does not start like a number raises `TypeError` |
| Params.FloatArg | src/Hsla.php:25-33 | a string reaches a `float` parameter as the number it starts with, under the same rule as `IntArg`; a string that does not start like a number raises `TypeError` |
| Params.PlusSign | src/Rgb.php:30-33 | `'+5'` reaches an `int` parameter as 5 |
| Params.LeadingSpace | src/Rgb.php:30-33 | `' 5'`, and `'5'` after a form feed, reach a parameter as 5 |
| Params.ExponentForm | src/Rgb.php:30-33 | `'1e2'` reaches an `int` parameter as 100 |
| Params.TrailingAndRefused | src/Rgb.php:30-33 | `'5abc'` reaches an `int` parameter as 5; `'e5'` and `'+ 5'` raise `TypeError` |
| Php.PlainNumber | src/Rgb.php:30-33 | digits that end the string, or are followed by a character that cannot continue a number, are read as their decimal value |
| Php.SpaceBeforeNumber | src/Rgb.php:30-33 | white space before a number changes neither whether it is numeric nor its value |
| Php.SignedNumber | src/Hsl.php:31-35 | a `+` directly before a number keeps its value, a `-` negates it, and neither changes whether it is numeric |
| Php.ExponentNumber | src/Rgb.php:30-33 | digits, `e`, digits read as the first number times ten to the power of the second |
| Hex.New | src/Hex.php:10-19 | checks red, green, blue in that order and reports the first failure; on success stores the channels lower-cased |
| Hex.FromString | src/Hex.php:21-28 | a string outside the hex grammar gets the malformed-hex error; a parsed colour is valid |
| Hex.ToString | src/Hex.php:59-62 | starts with '#' and is one longer than the three channels together; `Hex.PrintParse` shows it reads back |
| Hex.ParseSixOrEight | src/Hex.php:21-28 | 6 or 8 digits parse to their first three pairs lower-cased; an 8th-digit pair is ignored |
| Hex.ParseShort | src/Hex.php:25 | 3 or 4 digits pass the grammar but leave blue unset, a `TypeError` |
| Hex.ParsePrintSix | src/Hex.php:21-28 | parsing 6 digits and printing gives the input lower-cased |
| Hex.PrintParse | src/Hex.php:59-62 | parsing a printed colour gives the colour back |
| Rgb.New | src/Rgb.php:12-21 | valid exactly when every channel is in 0..255; the first bad channel in order red, green, blue is reported |
| Rgb.FromString | src/Rgb.php:23-34 | a string outside the rgb grammar gets the malformed-rgb error; a parsed colour is valid |
| Rgb.FromItems | src/Rgb.php:30-33 | a colour it returns passes the constructor's checks |
| Rgb.FromItemsValues | src/Rgb.php:30-33 | three numeric items reach the constructor as their trimmed values truncated to integers |
| Rgb.FromItemsTypeError | src/Rgb.php:30-33 | a missing or non-numeric item raises `TypeError` before the constructor |
| Rgb.ValidatedGroups | src/Rgb.php:27-33 | on any string of the rgb grammar, spaces included, the extraction pattern finds its group and the result is `FromItems` of the group's comma-separated items |
| Rgb.ToRgb | src/Rgb.php:105-108 | the same channels |
| Rgb.ToString | src/Rgb.php:144-147 | `rgb(r,g,b)` with no spaces and decimal channels |
| Rgb.PrintedParses | src/Rgb.php:23-34 | `rgb(a,b,d)` of 1-3 digit numbers parses to the constructor applied to their values |
| Rgb.PrintParse | src/Rgb.php:144-147 | parsing a printed colour gives the colour back |
| Rgb.ChannelOutOfRange | src/Rgb.php:14-16 | a channel such as 300 passes the grammar and fails with the channel range error |
| Rgba.New | src/Rgba.php:13-24 | valid exactly when the channels are in 0..255 and alpha in [0, 1]; the first failure in order is reported |
| Rgba.FromString | src/Rgba.php:26-37 | a string outside the rgba grammar gets the malformed-rgba error; a parsed colour is valid |
| Rgba.FromItems | src/Rgba.php:33-36 | a colour it returns passes the constructor's checks |
| Rgba.FromItemsValues | src/Rgba.php:33-36 | four numeric items reach the constructor as their trimmed values, the channels truncated to integers |
| Rgba.FromItemsTypeError | src/Rgba.php:33-36 | a missing or non-numeric item raises `TypeError` before the constructor |
| Rgba.ValidatedGroups | src/Rgba.php:30-36 | on any string of the rgba grammar, spaces included, the extraction pattern finds its group and the result is `FromItems` of the group's comma-separated items |
| Rgba.ToString | src/Rgba.php:69-74 | `rgba(r,g,b,a)` with alpha printed with exactly two decimals |
| Rgba.PrintedParses | src/Rgba.php:26-37 | a printed text parses to the constructor applied to the four values it shows |
| Rgba.AlphaOutOfRange | src/Rgba.php:18 | an alpha such as 1.5 passes the grammar and fails with the alpha range error |
| Rgba.AlphaCents | src/Rgba.php:71 | n/100 printed with two decimals is an alpha field worth n/100 |
| Rgba.PrintParse | src/Rgba.php:69-74 | parsing a printed colour whose alpha has at most two decimals gives it back |
| Hsl.New | src/Hsl.php:12-20 | saturation then lightness are checked in [0, 100]; the hue is kept unchecked |
| Hsl.FromString | src/Hsl.php:22-36 | only strings of the hsl grammar parse; a parsed colour is valid |
| Hsl.FromGroups | src/Hsl.php:22-36 | on a grammatical string, the result is the constructor applied to the extracted groups cast to float |
| Hsl.ValidatedGroups | src/Hsl.php:28-30 | on a grammatical string the extraction pattern finds three groups that read as the grammar's fields |
| Hsl.PrintedParses | src/Hsl.php:22-36 | a text laid out as the printer writes it parses to the constructor applied to the numbers it shows |
| Hsl.Red | src/Hsl.php:53-56 | a channel in 0..255; a grey gives `round(lightness * 2.55)` |
| Hsl.Green | src/Hsl.php:58-61 | a channel in 0..255; a grey gives `round(lightness * 2.55)` |
| Hsl.Blue | src/Hsl.php:63-66 | a channel in 0..255; a grey gives `round(lightness * 2.55)` |
| Hsl.ChannelsExample | src/Hsl.php:53-66 | hsl(55, 55%, 67%) gives 217, 209, 125, and so do hues 415 and -305 |
| Hsl.ToHsl | src/Hsl.php:93-96 | the same values |
| Hsl.PrintedRounded | src/Hsl.php:118-125 | the printed text shows each value rounded to a whole number, `%` after the last two |
| Hsl.PrintParse | src/Hsl.php:118-125 | parsing a printed colour gives the colour with its values rounded |
| Hsl.WholePrintParse | src/Hsl.php:118-125 | a colour of whole numbers is given back unchanged |
| Hsl.SaturationOutOfRange | src/Hsl.php:22-36 | a saturation above 100 passes the grammar and fails with the hsl range error |
| Hsla.New | src/Hsla.php:13-23 | saturation, lightness, then alpha are checked; the hue is kept unchecked |
| Hsla.GroupArg | src/Hsla.php:27-32 | a present group reaches its `float` parameter as a number; a missing one is a `TypeError` |
| Hsla.FromString | src/Hsla.php:25-33 | only strings of the hsla grammar parse; a parsed colour is valid |
| Hsla.ValidatedGroups | src/Hsla.php:29-31 | on a grammatical string the class's extraction pattern finds all four groups |
| Hsla.FromGroups | src/Hsla.php:25-33 | on a grammatical string, the result is the constructor applied to the four groups |
| Hsla.PrintedParses | src/Hsla.php:25-33 | a text laid out as the printer writes it parses to the constructor applied to the four numbers it shows |
| Hsla.Red | src/Hsla.php:50-53 | a channel in 0..255; a grey gives `round(lightness * 2.55)` |
| Hsla.Green | src/Hsla.php:55-58 | a channel in 0..255; a grey gives `round(lightness * 2.55)` |
| Hsla.Blue | src/Hsla.php:60-63 | a channel in 0..255; a grey gives `round(lightness * 2.55)` |
| Hsla.ChannelsIgnoreAlpha | src/Hsla.php:50-63 | the channels do not depend on alpha; hsla(55, 55%, 67%, a) gives 217, 209, 125 |
| Hsla.ToHsla | src/Hsla.php:84-87 | succeeds exactly for an alpha in [0, 1] and changes only alpha |
| Hsla.PrintedRounded | src/Hsla.php:104-112 | the printed text shows hue, saturation, lightness rounded to whole numbers and alpha rounded to two decimals |
| Hsla.RoundedAlpha | src/Hsla.php:108 | alpha in [0, 1] rounded to two decimals prints as an alpha field worth that value |
| Hsla.PrintParse | src/Hsla.php:104-112 | parsing a printed colour gives the colour with its values rounded |
| Hsla.AlphaOutOfRange | src/Hsla.php:25-33 | an alpha above 1 passes the grammar and fails with the alpha range error, which carries 1 |
| Hsb.New | src/Hsb.php:12-21 | succeeds exactly for a hue in [0, 360] and saturation and brightness in [0, 100]; otherwise PHP's `Error` for the undefined range factory |
| Hsb.FromString | src/Hsb.php:23-35 | only strings of the `hs[vb]` grammar parse, a malformed one with the hsl error kind |
| Hsb.FromGroups | src/Hsb.php:23-35 | on a grammatical string, the result is the constructor applied to the extracted groups |
| Hsb.ValidatedGroups | src/Hsb.php:29-31 | on a grammatical string the extraction pattern finds three groups |
| Hsb.PrintedParses | src/Hsb.php:23-35 | a text laid out as the printer writes it parses to the constructor applied to the numbers it shows |
| Hsb.Red | src/Hsb.php:52-55 | a channel in 0..255 of the conversion as written; a grey gives `round(brightness * 2.55)` |
| Hsb.Green | src/Hsb.php:57-60 | a channel in 0..255 of the conversion as written; a grey gives `round(brightness * 2.55)` |
| Hsb.Blue | src/Hsb.php:62-65 | a channel in 0..255 of the conversion as written; a grey gives `round(brightness * 2.55)` |
| Hsb.WholeTurnChannels | src/Hsb.php:52-65 | a colour of full saturation and brightness whose hue is 360, 720, ... has the magenta channels 255, 0, 255, while hue 0 has 255, 0, 0 |
| Hsb.ChannelsExample | src/Hsb.php:52-65 | hsb(50, 50%, 50%) gives 128, 117, 64 |
| Hsb.ToHsb | src/Hsb.php:77-80 | the same values |
| Hsb.PrintedRounded | src/Hsb.php:112-119 | the printed text shows each value rounded to a whole number |
| Hsb.PrintParse | src/Hsb.php:112-119 | parsing a printed colour gives the colour with its values rounded |
| Hsb.NegativeHue | src/Hsb.php:23-35 | a negative hue passes the grammar and fails in the constructor with the undefined-method `Error` |
| Cmyk.New | src/Cmyk.php:13-24 | all four shares in [0, 1], checked in order cyan, magenta, yellow, key |
| Cmyk.ShareOfDigits | src/Cmyk.php:30-33 | a group of digits becomes its value divided by 100 |
| Cmyk.FromString | src/Cmyk.php:26-34 | only strings of the cmyk grammar parse; a parsed colour is valid |
| Cmyk.FromGroups | src/Cmyk.php:26-34 | on a grammatical string, the result is the constructor applied to each group divided by 100 |
| Cmyk.ValidatedGroups | src/Cmyk.php:28-33 | on a grammatical string the extraction pattern finds the four groups |
| Cmyk.Red | src/Cmyk.php:36-39 | the CMYK-to-RGB value truncated to an `int`, in 0..255; 0 when the key is 1 |
| Cmyk.Green | src/Cmyk.php:41-44 | the CMYK-to-RGB value truncated to an `int`, in 0..255; 0 when the key is 1 |
| Cmyk.Blue | src/Cmyk.php:46-49 | the CMYK-to-RGB value truncated to an `int`, in 0..255; 0 when the key is 1 |
| Cmyk.ChannelsExample | src/Cmyk.php:36-49 | cmyk(17%, 8%, 0%, 20%) gives 169, 187, 204; green is 187.68 truncated |
| Cmyk.ToCmyk | src/Cmyk.php:76-79 | the same values |
| Cmyk.PrintedRounded | src/Cmyk.php:117-125 | the printed text shows each share as a whole percentage |
| Cmyk.PrintedParses | src/Cmyk.php:26-34 | a printed text parses to the constructor applied to its percentages divided by 100 |
| Cmyk.PrintParse | src/Cmyk.php:117-125 | parsing a printed colour gives the colour with each share rounded to hundredths |
| Cmyk.CyanOutOfRange | src/Cmyk.php:26-34 | a percentage above 100 passes the grammar and fails with the cmyk range error |
| Xyz.New | src/Xyz.php:12-21 | x, y, z checked against the D65 white point bounds in that order |
| Xyz.FromString | src/Xyz.php:23-34 | only strings of the xyz grammar parse; a parsed colour is valid |
| Xyz.FromItems | src/Xyz.php:30-33 | a colour it returns passes the constructor's checks |
| Xyz.FromItemsValues | src/Xyz.php:30-33 | three numeric items reach the constructor as their trimmed values |
| Xyz.FromItemsTypeError | src/Xyz.php:30-33 | a missing or non-numeric item raises `TypeError` before the constructor |
| Xyz.ValidatedGroups | src/Xyz.php:27-33 | on any string of the xyz grammar, spaces included, the extraction pattern finds its group and the result is `FromItems` of the group's comma-separated items |
| Xyz.ToXyz | src/Xyz.php:118-121 | the same values |
| Xyz.PrintedParses | src/Xyz.php:23-34 | three numbers of at least two digits parse to the constructor applied to them |
| Xyz.PrintParse | src/Xyz.php:123-126 | parsing a printed colour of whole values of at least 10 gives it back |
| Xyz.XOutOfRange | src/Xyz.php:23-34 | an x above 95.047 passes the grammar and fails with the xyz range error |
| Xyz.SingleDigitX | src/Validate.php:148 | a valid colour whose x prints as one digit does not parse: the grammar needs two |
| CIELab.New | src/CIELab.php:12-21 | l in [0, 100], then a and b in [-110, 110] |
| CIELab.FromString | src/CIELab.php:23-34 | only strings of the CIELab grammar parse; a parsed colour is valid |
| CIELab.FromItems | src/CIELab.php:30-33 | a colour it returns passes the constructor's checks |
| CIELab.FromItemsValues | src/CIELab.php:30-33 | three numeric items reach the constructor as their trimmed values |
| CIELab.FromItemsTypeError | src/CIELab.php:30-33 | a missing or non-numeric item raises `TypeError` before the constructor |
| CIELab.ValidatedGroups | src/CIELab.php:27-33 | on any string of the CIELab grammar, spaces included, the extraction pattern finds its group and the result is `FromItems` of the group's comma-separated items |
| CIELab.ToCIELab | src/CIELab.php:72-75 | the same values |
| CIELab.PrintedParses | src/CIELab.php:23-34 | an unsigned and two signed numbers of at least two digits parse to the constructor applied to them |
| CIELab.PrintParse | src/CIELab.php:123-126 | parsing a printed colour of whole values at least 10 away from zero gives it back |
| CIELab.AOutOfRange | src/CIELab.php:23-34 | an a outside [-110, 110] passes the grammar and fails with the CIELab range error |
| CIELab.SingleDigitL | src/Validate.php:22 | a valid colour whose l prints as one digit does not parse |
| Convert.HexChannelToRgbChannel | src/Convert.php:74-77 | two hex digits give a value in 0..255 |
| Convert.RgbChannelToHexChannel | src/Convert.php:79-82 | a channel in 0..255 gives exactly two lower-case hex digits |
| Convert.HexChannelDigits | src/Convert.php:79-82 | the two digits are the high and low nibble, left-padded with '0' |
| Convert.HexChannelRoundTrip | src/Convert.php:74-82 | reading back a channel printed in hex gives the channel |
| Convert.HexTextRoundTrip | src/Convert.php:74-82 | printing a channel read from two hex digits gives them lower-cased |
| Convert.HexChannelExamples | src/Convert.php:79-82 | 55, 155, 255, 5 print as '37', '9b', 'ff', '05' |
| Convert.CmykValueToRgb | src/Convert.php:48-55 | for inputs in [0, 1] each channel is in [0, 255]; all zero when the key is 1; `255 (1 - ink)` when the key is 0 |
| Convert.RgbValueToCmyk | src/Convert.php:57-72 | the method's result equals the direct definition `CmykOf` |
| Convert.CmykOfBounds | src/Convert.php:57-72 | the brightest channel gets no ink, the key is `1 - max/255`, and every value is in [0, 1] for channels in 0..255 |
| Convert.CmykRoundTrip | src/Convert.php:48-72 | converting a non-black RGB triple to CMYK and back gives the same channels |
| Convert.HueNormal | src/Convert.php:150 | the normalised hue is in 0..359 and differs from the truncated hue by whole turns |
| Convert.HslValueToRgb | src/Convert.php:148-179 | for saturation and lightness in [0, 100] every channel is in 0..255; saturation 0 gives the grey `round(lightness * 2.55)` |
| Convert.HslComponentBounds | src/Convert.php:152-155 | `c + m`, `x + m` and `m` are fractions in [0, 1] |
| Convert.HslHueTurns | src/Convert.php:150 | hues whose integer parts differ by whole turns give the same colour |
| Convert.HslHueExamples | src/Convert.php:150 | hues 0 and 360 give the same colour, and so do -1 and 359 |
| Convert.HslExample | src/Convert.php:148-179 | hsl(55, 55%, 67%) gives 217, 209, 125 |
| Convert.HslGreyExample | src/Convert.php:152-157 | hsl(55, 0%, 50%) gives 128, 128, 128 |
| Convert.WrappedHue | src/Convert.php:86-91 | the loops leave the hue in [0, 360], unchanged when it already was |
| Convert.WrappedHueUnique | src/Convert.php:86-91 | the loops' result, given how many turns they took, is the closed form |
| Convert.HsbSectorsAsWritten | src/Convert.php:93-145 | the sector arrangement as written: fractions in give channels in 0..255, and saturation 0 gives a grey |
| Convert.HsbSectors | src/Convert.php:93-145 | the corrected sectors keep the same bounds and grey, and agree with the written ones for every hue other than a full turn |
| Convert.HsbFullTurnAsWritten | src/Convert.php:101-138 | as written, hsb(360, 100%, 100%) gives 255, 0, 255 where hue 0 gives 255, 0, 0 |
| Convert.HsbFullTurn | src/Convert.php:101-138 | corrected, a full turn gives the same colour as no turn |
| Convert.HsbToRgb | src/Convert.php:84-146 | as written: for saturation and brightness in [0, 100] each channel is in 0..255; saturation 0 gives the grey `round(brightness * 2.55)` |
| Convert.HsbToRgbCorrected | src/Convert.php:84-146 | keeps the channel bounds; equals `HsbToRgb` wherever the loops leave the hue short of 360, and gives the colour of hue 0 where they leave it at 360 |
| Convert.HsbWholeTurnsAsWritten | src/Convert.php:86-138 | every whole number of turns (360, 720, ...) is wrapped to 360 and comes out magenta as written, red when corrected |
| Convert.HsbValueToRgb | src/Convert.php:84-146 | the loops and the sector branches compute `HsbToRgb` |
| Convert.HsbExamples | src/Convert.php:93-145 | hsb(50, 50%, 50%) gives 128, 117, 64; saturation 0 gives a grey at any hue |
| Convert.RedSectorHue | src/Convert.php:239-241 | corrected, the red sector's hue is in [0, 360) whenever green minus blue is within the spread |
| Convert.RedSectorHueExample | src/Convert.php:239-241 | as written, rgb(220, 53, 69) has hue -960/167 (about -5.75); corrected it is 360 minus that |
| Convert.HslHue | src/Convert.php:233-250 | as written: the hue is in [-60, 360), below 0 exactly when red is the only maximum and blue exceeds green; a grey has hue 0 |
| Convert.HslHueTies | src/Convert.php:237-249 | a tie for the brightest channel goes to the later `if`: red = green gives 60 by the green formula, green = blue 180 and red = blue 300 by the blue formula, where red's formula alone would give -60 |
| Convert.HslHueCorrected | src/Convert.php:233-250 | the hue is in [0, 360), and is the written hue plus 360 exactly where that is negative |
| Convert.RedSectorHueAsWritten | src/Convert.php:239-241 | for green minus blue within the spread, the hue is in [-60, 60], negative exactly when blue exceeds green |
| Convert.HslSaturation | src/Convert.php:252-256 | the saturation is never negative |
| Convert.RgbValueToHsl | src/Convert.php:227-261 | the method's result equals `RgbToHsl` |
| Convert.RgbToHslRanges | src/Convert.php:227-261 | for channels in 0..255 the hue is in [-60, 360), saturation and lightness in [0, 100], and the lightness is `(max + min) / 2` in percent |
| Convert.RgbToHslGrey | src/Convert.php:227-261 | equal channels give hue 0, saturation 0 and lightness `v / 2.55` |
| Convert.RgbValueToHsb | src/Convert.php:181-225 | equal channels give hue 0 and saturation 0; the brightness is the maximum rounded to hundredths in percent; saturation and brightness are in [0, 100] for channels in 0..255 |
| Conversions.HexToRgb | src/Hex.php:45-52 | a valid hex colour always converts |
| Conversions.HexToRgba | src/Hex.php:54-57 | succeeds exactly for an alpha in [0, 1], with the channels of `toRgb` |
| Conversions.ChannelsToHex | src/Rgb.php:74-81 | channels in 0..255 give a valid hex colour of their nibbles, which reads back as the channels |
| Conversions.HexRgbHex | src/Hex.php:45-52 | a hex colour converted to rgb and back is unchanged |
| Conversions.HexToRgbExample | src/Hex.php:45-52 | #aabbcc is rgb(170, 187, 204) |
| Conversions.RgbToHex | src/Rgb.php:74-81 | the hex colour reads back as the same channels |
| Conversions.RgbToHexExample | src/Rgb.php:74-81 | rgb(55, 155, 255) is #379bff |
| Conversions.RgbToHsl | src/Rgb.php:83-92 | always passes the hsl checks; the hue is in [-60, 360), negative exactly when red is the only maximum and blue exceeds green; the lightness is `(max + min) / 5.1`, and a grey has hue and saturation 0 |
| Conversions.RgbToHsla | src/Rgb.php:94-103 | succeeds exactly for an alpha in [0, 1], with the values of `toHsl` |
| Conversions.RgbToRgba | src/Rgb.php:110-113 | succeeds exactly for an alpha in [0, 1] and keeps the channels |
| Conversions.RgbaToRgb | src/Rgba.php:59-62 | a valid rgba colour always converts |
| Conversions.RgbaRgbRgba | src/Rgba.php:59-62 | dropping alpha and attaching it again gives the colour back |
| Conversions.RgbaToHex | src/Rgba.php:64-67 | the hex colour reads back as the channels of `toRgb` |
| Conversions.HslToRgb | src/Hsl.php:103-106 | a valid colour always converts; a grey gives three equal channels |
| Conversions.HslToRgba | src/Hsl.php:108-111 | succeeds exactly for an alpha in [0, 1], with the channels of `toRgb` |
| Conversions.HslToHex | src/Hsl.php:78-86 | the hex colour reads back as the channels of `toRgb` |
| Conversions.HslToHsla | src/Hsl.php:98-101 | succeeds exactly for an alpha in [0, 1]; dropping alpha again gives the colour |
| Conversions.HslExample | src/Hsl.php:78-106 | hsl(55, 55%, 67%) is rgb(217, 209, 125) and #d9d17d |
| Conversions.HslaToHsl | src/Hsla.php:89-92 | a valid colour always converts |
| Conversions.HslaHslHsla | src/Hsla.php:84-92 | dropping alpha and attaching it again gives the colour back |
| Conversions.HslaToRgb | src/Hsla.php:94-97 | the channels of the same colour without alpha |
| Conversions.HslaToRgba | src/Hsla.php:99-102 | succeeds exactly for an alpha in [0, 1], with the channels of `toRgb` |
| Conversions.HslaToHex | src/Hsla.php:75-82 | the hex colour reads back as the channels of `toRgb` |
| Conversions.HsbToRgb | src/Hsb.php:97-100 | a valid colour always converts; a grey gives three equal channels |
| Conversions.HsbToRgba | src/Hsb.php:102-105 | succeeds exactly for an alpha in [0, 1], with the channels of `toRgb` |
| Conversions.HsbExample | src/Hsb.php:97-100 | hsb(50, 50%, 50%) is rgb(128, 117, 64) and #807540 |
| Conversions.CmykToRgb | src/Cmyk.php:101-105 | a valid colour always converts; key 1 gives black |
| Conversions.CmykExample | src/Cmyk.php:101-105 | cmyk(17%, 8%, 0%, 20%) is rgb(169, 187, 204) and #a9bbcc |
| Factory.Outcomes | src/Factory.php:27-34 | one outcome per class, each that class's `fromString` |
| Factory.FirstSuccess | src/Factory.php:16-24 | when every outcome is swallowed the result is the malformed-colour error; otherwise it is the first outcome that is not swallowed |
| Factory.FromStringIntended | src/Factory.php:13-24 | the search without the return type check: a colour returned was parsed by its own class; when all three classes fail with `InvalidColorValue`, the malformed-colour error |
| Factory.FromString | src/Factory.php:12-25 | with the classes loaded, and the declared `Color` return type: a colour returned is always an rgb colour that `Rgb::fromString` parsed; when all three classes fail with `InvalidColorValue`, the malformed-colour error; it differs from the search only where the search found a Hex or an Rgba |
| Factory.InOrder | src/Factory.php:16-24 | the search tries Hex, then Rgb, then Rgba, and the first outcome that is not an `InvalidColorValue` wins |
| Factory.GrammarsDisjoint | src/Validate.php:89-108 | no string passes two of the hex, rgb and rgba grammars |
| Factory.DispatchByGrammar | src/Factory.php:13-24 | in the search, the class whose grammar a string passes decides the result; a string passing none is malformed |
| Factory.ReturnTypeRefuses | src/Factory.php:12 | a hex or rgba string its class accepts ends in the return-type `TypeError` |
| Factory.DispatchAsWritten | src/Factory.php:12-25 | with the classes loaded, an rgb string gets the search's answer; a string passing no grammar is malformed |
| Factory.PrintedHex | src/Factory.php:16-18 | corrected: the search returns a printed hex colour as that hex colour |
| Factory.PrintedHexAsWritten | src/Factory.php:12 | as written, a printed hex colour such as `#aabbcc` raises the return-type `TypeError` |
| Factory.PrintedRgb | src/Factory.php:16-18 | a printed rgb colour comes back as that rgb colour |
| Factory.PrintedRgba | src/Factory.php:16-18 | corrected: the search returns a printed rgba colour as that rgba colour |
| Factory.PrintedRgbaAsWritten | src/Factory.php:12 | with the classes loaded, a printed rgba colour raises the return-type `TypeError` |
| Factory.ShortHexEscapes | src/Factory.php:19-21 | a 3- or 4-digit hex string raises `TypeError`, which the factory does not catch |
| Factory.MalformedExample | src/Factory.php:24 | 'abcd' is reported as a malformed colour string |
| Factory.ChannelErrorSwallowed | src/Factory.php:19-21 | an rgb string with a channel of 300 fails in Rgb, is swallowed, and ends as the malformed-colour error |
| Factory.ReturnedAsColor | src/Factory.php:12 | a found colour is returned exactly when it is an rgb colour; anything else found becomes the return-type `TypeError` |
| Factory.SearchLoaded | src/Factory.php:16-24 | the search with each class loaded when first named: it ends fatally only at `Rgb`, and when every class loads it is the search of `FirstSuccess` |
| Factory.FromStringAsLoaded | src/Color.php:7 | as written, with `Rgb` failing to load (its `fromString` at src/Rgb.php:23 drops the interface's return type): the factory never returns a colour, and it ends in the fatal load error exactly when `Hex` refuses the string with `InvalidColorValue` |
| Factory.LoadFailure | src/Color.php:7 | as written, every string that is not a hex colour string ends in the fatal load error of `Rgb`; any string `Hex` does not refuse gets what `Factory.FromString` gives |
| Factory.PrintedRgbAsWritten | src/Color.php:7 | as written, a printed rgb colour such as `rgb(55,155,255)` ends in the fatal load error, where with the classes loaded it comes back as that colour |

## Left out

- Floats are modelled as exact reals. PHP's `round`, `fmod`, `number_format`, the `int` truncation and the string-to-number conversions work on IEEE doubles; their rounding errors are not modelled.
- Params.IntArg: a numeric string whose value lies outside PHP's 64-bit integer range raises `TypeError` in PHP; the model truncates any value. The grammars allow at most three digits, so no item reaches that range.
- The XYZ and CIELab conversions in src/Convert.php (`rgbValueToXyz`, `xyzValueToRgb`, `xyzValueToCIELab`, `CIELabValueToXyz`) are not modelled: they need `pow` with fractional exponents and rounding of floats to four decimals. The `red`/`green`/`blue`/`toRgb`/... methods of Xyz and CIELab that use them are left out with them.
- src/Distance.php, src/Contrast.php and `Hsla::contrast` are left out: they are floating-point numerics (`sqrt`, `atan2`, `pow`).
- src/Named.php is not part of this model: it needs the `Names` trait and `Validate::namedColorString`, which are not in the modelled files.
- `Rgb::mix` is left out: it passes one array to the three-parameter constructor.
- `Rgb::toLuminanceScale` is left out: it calls `Convert::hslValueFromLuminance`, which src/Convert.php does not define.
- Some conversions go through methods that Rgb and Hex do not have (`toCIELab`, `toXyz`, `toCmyk`, `toHsb`, `Hex::toHsl`), such as `Hsl::toCmyk` and `Cmyk::toHsl`. They are left out.
- `Hsb::toHex`, `Hsb::toHsl`, `Hsb::toHsla`, `Cmyk::toHex`, `Cmyk::toHsl`, `Cmyk::toHsla` and `Cmyk::toRgba` are one-line chains through `toRgb`. They are left out; their pieces are modelled.
- `Hsl::toHex` and `Cmyk::toHex` pass an alpha argument that the three-parameter Hex constructor ignores. The model drops it.
- Default arguments are not modelled: every `toRgba`/`toHsla`/`toHex` alpha is an explicit parameter.
- The plain accessors (`red()` of Hex, Rgb and Rgba, `hue()`, `cyan()`, `black()`, ...) are the datatype fields.
- The exception message texts are not modelled; each error is the error kind with its arguments.
- PCRE itself is not modelled. The grammars are decided by a deterministic scanner. It agrees with backtracking because every field is followed by ` *,` or ` *)`.
- src/Color.php is an interface. It has no code to model; its roles are the `Color` return type of `Factory::fromString`, which only `Rgb` among the factory's classes implements (src/Rgb.php:5, src/Hex.php:5, src/Rgba.php:5), and the `: self` return type of `fromString` (src/Color.php:7).
- The classes that implement `Color` (Rgb, Hsl, Hsla, Hsb, Cmyk, Xyz, CIELab) declare `fromString` without that return type (src/Rgb.php:23, src/Hsl.php:22, src/Hsla.php:25, src/Hsb.php:23, src/Cmyk.php:26, src/Xyz.php:23, src/CIELab.php:23), so as written PHP refuses to load them. Only `Factory.FromStringAsLoaded` models that failure. The members of those seven value modules, the `Conversions` that build one of them, and every other `Factory` member model the classes as loaded, as the library's tests expect.
- Convert.RgbValueToCmyk: requires a channel above 0, because the source divides by zero for black.
- Convert.RgbValueToHsb: does not prove the hue range. The hue is pre-rounded to two decimals before scaling. The contract covers the grey case, the brightness, and the saturation and brightness ranges.
- Validate.HexChannelValue: models `strlen` as the UTF-8 byte length of the characters; a string holding bytes that are not valid UTF-8 cannot be written as a Dafny string.
- Hsla.PrintParse: holds only for a hue in [0, 999.5). A negative hue prints a `-`, which the hsla grammar rejects, so the colour does not parse back.
- Hsl.PrintParse: holds only for a hue that rounds into -999..999. A longer hue does not fit the grammar's three digits.
- Rgba.PrintParse: holds only for an alpha of at most two decimals. `number_format` rounds any other alpha.
- Xyz.PrintParse: holds only for whole values of at least 10. The printing itself is modelled for every value, but the lemmas that read a printed float back cover whole numbers only, and the grammar needs two digits.
- CIELab.PrintParse: holds only for whole values of at least 10 in magnitude, for the same reasons.

## Findings

Each row has a member that models the code as written and one that models the evident intent, with a lemma linking the two. The rest of the model (the value classes, `Conversions` and `Factory.FromString`) follows the code as written, except that it takes the seven classes that implement `Color` as loaded, which is the corrected half of the src/Color.php:7 row.

| source | as written | input that shows it | evidently intended | confidence | as-written member | corrected member |
|---|---|---|---|---|---|---|
| src/Convert.php:84-146 | the loops leave a hue of 360, or of any whole number of turns (720, 1080, ...), at exactly 360; that gives `floor(6) == 6`, which falls into the last (magenta) branch | hsb(360, 100%, 100%) and hsb(720, 100%, 100%) give 255, 0, 255 where hsb(0, 100%, 100%) gives 255, 0, 0 | a full turn is the same colour as no turn (sector 6 read as sector 0) | not executed | Convert.HsbWholeTurnsAsWritten | Convert.HsbToRgbCorrected |
| src/Convert.php:227-261 | the red-sector hue is 60 times `fmod` of (g - b) / delta by 6, and `fmod` keeps the sign of its dividend, so the red sector's hue is negative when blue exceeds green | rgb(220, 53, 69) gives hue -960/167 (about -5.75) | a hue in [0, 360): 360 - 960/167 (about 354.25) | not executed | Convert.RedSectorHueExample | Convert.RedSectorHue |
| src/Factory.php:12 | `fromString` declares the return type `Color`, an interface that Hex and Rgba do not implement (src/Hex.php:5, src/Rgba.php:5), so PHP's return type check refuses their results with a `TypeError` the `catch` does not take | `Factory::fromString('#aabbcc')` raises `TypeError`, though tests/FactoryTest.php:26-31 expects a Hex | the factory returns the Hex or Rgba its search finds | not executed | Factory.PrintedHexAsWritten | Factory.PrintedHex |
| src/Color.php:7 | the interface declares `fromString(string $string): self`, and the seven classes that implement it declare `fromString` with no return type (src/Rgb.php:23 and the like); PHP refuses to load a class whose method drops the return type of the interface method it implements, with a fatal error no `catch` takes | `Factory::fromString('rgb(55,155,255)')`: `Hex` refuses the string, and loading `Rgb` for the next attempt is fatal, though tests/FactoryTest.php:51-56 expects an Rgb | the classes load, and the factory returns the rgb colour | not executed | Factory.PrintedRgbAsWritten | Factory.PrintedRgb |
| src/Validate.php:64 | `hsbValue` throws through `InvalidColorValue::hsbValueNotInRange`, which src/Exceptions/InvalidColorValue.php does not define, so PHP raises `Error` | `new Hsb(400, 50, 50)` raises `Error`, not `InvalidColorValue` | the range error `InvalidColorValue` like the other validators | not executed | Validate.HsbRangeErrorAsWritten | Validate.HsbValueIntended |
