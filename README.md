# decimalx in Dafny

A model of `decimalx/index.ts`: fixed-scale decimal numbers kept as one
scaled integer. `DecimalFactory({precision, scale})` returns a class
`DecimalX`. Its constructor parses a decimal literal with `parseString`, or
takes a bigint that is already scaled. `add`, `subtract`, `mul` and
`distribute` work on the scaled integers exactly. `valueAsString` prints the
quotient and the remainder of the scaled integer by 10^scale, with a point
between them.

The project has five modules:

- `Numerals` (numerals.dfy): digit strings and their values, `Number(...)`
  and `BigInt(...)` on digit strings, how a template string prints a
  non-negative number or a bigint, powers of ten, and the truncating `/`
  and `%` of `bigint` (`TDiv`, `TMod`).
- `Strings` (strings.dfy): `split` on a one-character separator, its
  inverse `join`, and `padEnd`.
- `Parser` (parser.dfy): `parseString`, with its `integerPart` and
  `decimalPart` closures and the errors it throws, as a `Result`.
- `Decimal` (decimal.dfy): an instance never changes after its constructor,
  so `DecimalX` is a datatype. It holds the definition and the scaled
  integer. `add`, `mul` and `distribute` are methods with the source's loops.
  `subtract`, `valueAsBigint`, `valueAsString` and `definition` are
  functions. The constructor is the function `Construct`.
- `Scenarios` (scenarios.dfy): the values in `decimalx/index.test.ts`, plus
  one example of each edge case, each derived from the general lemmas.

The model follows what the code does. In three places the code does not
give the literal's value times 10^scale, or does not print a value in full:

- A literal without fractional digits is not scaled. `"5"` and `"5."` at
  scale 2 both give 5, not 500. The code returns `BigInt("5")`; nothing
  pads the missing fraction (`Parser.WholeNumber`).
- The fraction goes through `Number(...)` and is printed back, so its
  leading zeros are lost. `"1.05"` at scale 2 gives 15, not 105.
  `Parser.ExactIff` says exactly when the result is the literal's value
  times 10^scale: when the fraction does not begin with `0`, or the
  integer field reads as 0, or scale is 1.
- `valueAsString` does not pad the remainder. 1005 at scale 2 prints as
  `"10.5"`. A value parses back from its print when it is non-negative,
  its quotient is below 10^(precision - scale), scale is at least 1 and
  below precision, both field widths are at most 15 digits, and its
  remainder has all scale digits (`Decimal.ValueAsStringReparses`). Other
  values can also come back: 0 at (10, 2) prints as `"0.0"`, which parses
  to 0. In the other direction, `"0.05"` at (10, 2) parses to 5, which
  prints as `"0.5"` (`Scenarios.LeadingZeroNotPrintedBack`).

For a negative value, `/` and `%` truncate toward zero, so each nonzero
part carries the sign: -15 at scale 1 prints as `-1.-5`, -5 as `0.-5` and
-10 as `-1.0`. `Decimal.ValueAsStringFields` still reads the two fields back
to the value.

## Model

| member | source | states |
|---|---|---|
| Numerals.ValueOf | decimalx/index.ts:68 | `Number(...)` on a digit string: the numeral's value, below 10^length |
| Numerals.Render | decimalx/index.ts:96 | a template string prints a number as digits without leading zeros, and they read back as the number |
| Numerals.RenderValueOf | decimalx/index.ts:96 | printing the value of a numeral without leading zeros gives the same numeral back |
| Numerals.RenderLength | decimalx/index.ts:96 | for k >= 1, a number below 10^k prints in at most k digits |
| Numerals.RenderLengthBelow | decimalx/index.ts:96 | a number at least 10^k prints in more than k digits |
| Numerals.ValueOfConcat | decimalx/index.ts:96 | reading two numerals written one after the other: the first is shifted by the length of the second |
| Numerals.ValueOfTrailingZeros | decimalx/index.ts:85-88 | padding with `0` digits multiplies the value by 10 per digit added |
| Numerals.RenderInt | decimalx/index.ts:213 | a bigint prints as an optional `-` and digits, with no point, and reads back as the same integer |
| Numerals.TDiv | decimalx/index.ts:184 | `bigint` division truncates toward zero: the quotient has the dividend's sign |
| Numerals.TMod | decimalx/index.ts:185 | `bigint` remainder: smaller than the divisor in size, with the dividend's sign |
| Numerals.DivMod | decimalx/index.ts:184-185 | dividend == divisor * quotient + remainder, and divisor * quotient never passes the dividend |
| Strings.Split | decimalx/index.ts:49 | `split` gives at least one piece, and no piece holds the separator |
| Strings.SplitCount | decimalx/index.ts:49 | `split` gives one piece more than there are separators |
| Strings.JoinSplit | decimalx/index.ts:49 | joining the pieces of a split gives back the string |
| Strings.SplitJoin | decimalx/index.ts:49 | splitting the join of pieces without the separator gives back the pieces |
| Strings.PadEnd | decimalx/index.ts:86 | `padEnd`: the string, then the pad character up to the length, and nothing cut off |
| Parser.IntegerPart | decimalx/index.ts:56-75 | integerPart: a field that is empty or longer than precision - scale is a range error; a field of acceptable width that is not numeric is the not-a-number error for that field; otherwise it is accepted, with the field's numeric value, below 10^(precision - scale) |
| Parser.DecimalPart | decimalx/index.ts:77-94 | decimalPart: a missing or empty fraction gives ""; one longer than scale is a range error; a shorter one is accepted iff numeric, and its text reads as the fraction times 10^(scale - length), in at most scale digits |
| Parser.ParseString | decimalx/index.ts:44-97 | parseString: an accepted literal gives a scaled integer in [0, 10^precision) |
| Parser.PointsRejected | decimalx/index.ts:48-54 | the not-a-float error is thrown iff the literal holds more than one point |
| Parser.ReadFields | decimalx/index.ts:96 | the BigInt of the two fields never reports not-a-float and stays below 10^precision |
| Parser.SplitLiteral | decimalx/index.ts:49 | a literal a.b splits into exactly a and b |
| Parser.FieldsOfLiteral | decimalx/index.ts:49-54 | parseString of `a` and of `a.b` reads the fields [a] and [a, b] |
| Parser.IntegerErrorFirst | decimalx/index.ts:96 | a bad integer field fails the same way with or without a fraction, because integerPart runs first |
| Parser.WholeNumber | decimalx/index.ts:77-81 | `a` and `a.` parse alike; they are accepted iff a is 1..precision - scale digits, and give a's value unscaled |
| Parser.FractionTooLong | decimalx/index.ts:82-84 | after an integer field of 1..precision - scale digits, a fraction longer than scale gives the decimal-places error |
| Parser.WithFraction | decimalx/index.ts:85-96 | after an integer field of 1..precision - scale digits, a fraction of 1..scale characters is rejected iff not numeric; otherwise the result is FractionReading |
| Parser.FractionFields | decimalx/index.ts:77-96 | the two-field read: range error, accepted iff numeric, and the accepted value |
| Parser.FractionAccepted | decimalx/index.ts:85-96 | an accepted fraction gives FractionReading: the integer's digits, then the printed padded fraction |
| Parser.FractionText | decimalx/index.ts:85-93 | the fraction's text is the print of its padded value |
| Parser.ConcatenatedReading | decimalx/index.ts:96 | the two printed fields read as one numeral give FractionReading |
| Parser.ExactIff | decimalx/index.ts:85-96 | parseString gives the literal's value times 10^scale iff the fraction does not begin with 0, or the integer is 0, or scale is 1; it is never more |
| Parser.Exact | decimalx/index.ts:44-97 | a fraction not beginning with 0 parses to integer * 10^scale + fraction * 10^(scale - length) |
| Parser.ReadingVersusScaled | decimalx/index.ts:88-96 | FractionReading equals the scaled value exactly under the same three conditions, and never exceeds it |
| Parser.FullWidthFraction | decimalx/index.ts:88-93 | a padded fraction not beginning with 0 prints in all scale digits |
| Parser.NarrowFraction | decimalx/index.ts:88-93 | for scale >= 2, a padded fraction beginning with 0 prints in fewer than scale digits |
| Decimal.Construct | decimalx/index.ts:118-140 | constructor: a literal succeeds iff parseString does, with its value or its error; a bigint is taken as the scaled integer; the definition is the factory's |
| Decimal.DecimalX.Add | decimalx/index.ts:147-153 | add: the receiver's value plus the sum of the arguments, in the receiver's definition |
| Decimal.DecimalX.Subtract | decimalx/index.ts:160-162 | subtract: the result plus the argument is the receiver |
| Decimal.DecimalX.Mul | decimalx/index.ts:169-175 | mul: the receiver's value times the product of the arguments, in the receiver's definition |
| Decimal.DecimalX.Distribute | decimalx/index.ts:183-195 | distribute(n): n shares; the first n - 1 are the truncated quotient, the last adds the remainder; they sum to the value; all are equal when n divides the value |
| Decimal.DecimalX.ValueAsBigint | decimalx/index.ts:197-199 | valueAsBigint gives the scaled integer the instance holds |
| Decimal.DecimalX.Definition | decimalx/index.ts:220-225 | definition gives the factory's precision and scale |
| Decimal.SumAppend | decimalx/index.ts:147-153 | the sum of two argument lists together is the sum of their sums |
| Decimal.ProductAppend | decimalx/index.ts:169-175 | the product of two argument lists together is the product of their products |
| Decimal.AddInSteps | decimalx/index.ts:147-153 | `a.add(b, c)` and `a.add(b).add(c)` give the same value |
| Decimal.MulInSteps | decimalx/index.ts:169-175 | `a.mul(b, c)` and `a.mul(b).mul(c)` give the same value |
| Decimal.SumPermutation | decimalx/index.ts:147-153 | add does not depend on the order of its arguments |
| Decimal.ProductPermutation | decimalx/index.ts:169-175 | mul does not depend on the order of its arguments |
| Decimal.SubtractInvertsAdd | decimalx/index.ts:160-162 | subtracting an argument undoes adding it, and the other way round |
| Decimal.MulDoublesScale | decimalx/index.ts:169-175 | mul does not rescale: for any x and y, the product's scaled integer read at scale 2s is the real product of x and y read at scale s |
| Decimal.SumOfShares | decimalx/index.ts:188-192 | n - 1 shares of q and a last share add up to (n - 1) * q + last |
| Decimal.DecimalX.ValueAsString | decimalx/index.ts:209-214 | valueAsString is at least three characters: two nonempty parts around a point; its other properties are the ValueAsString lemmas below |
| Decimal.ValueAsStringHasOnePoint | decimalx/index.ts:209-214 | valueAsString holds exactly one point |
| Decimal.ValueAsStringSplits | decimalx/index.ts:209-214 | valueAsString splits into the printed quotient and the printed remainder |
| Decimal.ValueAsStringFields | decimalx/index.ts:209-214 | both fields of valueAsString read as integers and give back the value: integer * 10^scale + fraction |
| Decimal.ValueAsStringDigits | decimalx/index.ts:209-214 | for a non-negative value both fields are digits, and the fraction is the unpadded remainder, at most scale digits long (one digit at scale 0) |
| Decimal.ValueAsStringReparses | decimalx/index.ts:209-214 | a non-negative value q * 10^scale + m, with 1 <= scale < precision, both field widths at most 15 digits, quotient q below 10^(precision - scale) and remainder m of exactly scale digits, prints as a literal that parseString reads back to the same value |
| Decimal.ParseThenPrint | decimalx/index.ts:44-97 | a literal a.b whose fraction does not begin with 0 parses to its scaled value, and that value prints as a without leading zeros, a point, and b padded with `0` to scale digits |
| Decimal.PaddedFraction | decimalx/index.ts:209-214 | a fraction not beginning with 0, padded to s digits, is below 10^s and prints as the fraction followed by the padding zeros |
| Decimal.PrintOf | decimalx/index.ts:209-214 | for q >= 0 and 0 <= m < 10^scale, q * 10^scale + m prints as q, a point, and m |
| Decimal.UniqueSplit | decimalx/index.ts:210-212 | for q >= 0, v = q * 10^scale + m with 0 <= m < 10^scale gives quotient q and remainder m |
| Scenarios.ParsesTestLiteral | decimalx/index.test.ts:10-15 | "123.456" at (20, 6) gives 123456000 |
| Scenarios.ParsesPaddedFraction | decimalx/index.test.ts:33-39 | "200.1" at (20, 6) gives 200100000 |
| Scenarios.ParsesTrailingZeros | decimalx/index.test.ts:34 | "143.100" at (20, 6) gives 143100000 |
| Scenarios.ParsesSubtrahend | decimalx/index.test.ts:59-61 | "23.456" at (20, 6) gives 23456000 |
| Scenarios.ParsesNarrowLiteral | decimalx/index.test.ts:67-68 | "11.33" at (10, 2) gives 1133 |
| Scenarios.WholeNumbersAreNotScaled | decimalx/index.test.ts:52-53 | "2" gives 2 at scale 6, and "5" gives 5 at scale 2 |
| Scenarios.LeadingFractionZeroIsLost | decimalx/index.ts:85-96 | "1.05" at (10, 2) gives 15 |
| Scenarios.RejectsTwoPoints | decimalx/index.ts:49-54 | "1.2.3" is not a float |
| Scenarios.RejectsIntegerWidth | decimalx/index.ts:59-66 | "12345.6" at (5, 1) and ".5" at (10, 2) give integer range errors |
| Scenarios.RejectsIntegerText | decimalx/index.ts:68-72 | "1x.5": the integer field "1x" is not a number |
| Scenarios.RejectsLongFraction | decimalx/index.ts:82-84 | "1.234" at scale 2: only 2 decimal places allowed |
| Scenarios.RejectsFractionText | decimalx/index.ts:88-91 | "1.x": the decimal part cannot be extracted |
| Scenarios.PrintsTestValue | decimalx/index.test.ts:25-29 | 123456000 at scale 6 prints as "123.456000" |
| Scenarios.PrintsWithoutPadding | decimalx/index.ts:209-214 | 1005 at scale 2 prints as "10.5" |
| Scenarios.LeadingZeroNotPrintedBack | decimalx/index.ts:85-96 | "0.05" at (10, 2) parses to 5, and 5 prints as "0.5": a literal does not always come back from its value |
| Scenarios.Arithmetic | decimalx/index.test.ts:31-63 | the sums 323556000 and 466656000, the difference 100000000 and the product 246912000 |
| Scenarios.Distributions | decimalx/index.test.ts:65-95 | 1133 in two shares is [566, 567]; 123456000 in three is 41152000 three times, in five 24691200 five times |

## Left out

- `valueAsNumber` (decimalx/index.ts:206-208) returns a floating-point `Number`. Floating point is not modelled, so neither are the test expectations on `valueAsNumber`.
- Parser.ParseString: requires both field widths, precision - scale and scale, to be at most 15 digits. Up to that width, `Number(...)` and the template string are exact. Wider fields round through a binary double, and that rounding is not modelled.
- Parser.IntegerPart: `Number(...)` is modelled on digit strings only. A field holding anything else is an IntegerPartNotANumber error. JavaScript also accepts surrounding whitespace, a sign, an exponent, hexadecimal, binary and octal prefixes, and "Infinity"; those readings are not modelled.
- Parser.DecimalPart: the same digit-only reading of `Number(...)`. The same inputs are errors here, though JavaScript would read them.
- Parser.IntegerPart: the field's length is counted in characters, not in the UTF-16 code units that `.length` counts (decimalx/index.ts:61). A character outside the Basic Multilingual Plane counts once here and twice in JavaScript. So the integer field "😀" at (2, 1) is an IntegerPartRange error in the source, but IntegerPartNotANumber here.
- Parser.DecimalPart: the same character count for the fraction (decimalx/index.ts:82, 85). The fraction "😀" at scale 1 is a DecimalPartRange error in the source, but DecimalPartNotANumber here.
- The `split.length === 0` test at decimalx/index.ts:52 is modelled, but it can never hold: `split` always gives at least one piece.
- Decimal.DecimalX.Distribute: requires n > 0. `distribute(0)` throws a RangeError from `bigint` division by zero. A non-integer or negative count makes `BigInt(arg)` or `new Array(arg)` throw. Neither path is modelled.
- Decimal.Construct: a source that is neither a string nor a bigint (decimalx/index.ts:134-138) cannot be expressed, because `Source` has only those two cases.
- The texts of the error messages are not modelled. Each error is a `ParseError` case carrying the number or field its message would show.
- `definition()` returns the precision and scale as bigints. Here they are the natural numbers of the definition.
- The `Decimal` interface lets `add`, `mul` and `subtract` take any implementation. The model takes `DecimalX` values, which are all the code ever creates.
