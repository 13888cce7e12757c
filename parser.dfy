/** `parseString` of decimalx/index.ts: a decimal literal becomes one scaled
    integer for a given (precision, scale).

    The literal is split on '.', the integer field and the fractional field are
    each checked and read through JavaScript's `Number(...)`, both numbers are
    printed back into one template string, and that string is read as a
    `bigint`. Going through `Number` drops the leading zeros of both fields,
    and a literal without fractional digits is not scaled at all; both are
    modelled as the code has them, and the lemmas below say exactly when the
    result is, and is not, the literal's value times 10^scale. */
module Parser {
  import opened Numerals
  import opened Strings

  /** A decimal type's shape: `precision` digits in all, `scale` of them after
      the point. */
  datatype DecimalDefinition = DecimalDefinition(precision: nat, scale: nat)

  /** Every numeral of at most this many digits is below 2^53, so `Number(...)`
      reads it, and a template string prints it back, without rounding. */
  const MaxExactDigits: nat := 15

  /** Both digit fields that parseString reads through `Number(...)` are short
      enough to be read exactly: the integer field has at most
      precision - scale digits and the padded fraction exactly scale. */
  predicate SafeDefinition(def: DecimalDefinition) {
    def.precision - def.scale <= MaxExactDigits && def.scale <= MaxExactDigits
  }

  /** The errors parseString throws, with the data their messages carry. */
  datatype ParseError =
    | NotAFloat                             // more than one '.'
    | IntegerPartRange(maxDigits: int)      // integer field empty or longer than precision - scale
    | IntegerPartNotANumber(field: string)  // integer field not numeric
    | DecimalPartRange(places: nat)         // fraction longer than scale
    | DecimalPartNotANumber                 // padded fraction not numeric

  datatype Result<T> = Ok(value: T) | Err(error: ParseError)

  /** The `integerPart` closure: the field before the point must be non-empty,
      no longer than precision - scale and numeric; its number is returned. */
  function IntegerPart(fields: seq<string>, def: DecimalDefinition): (r: Result<nat>)
    requires |fields| >= 1
    ensures |fields[0]| == 0 || |fields[0]| > def.precision - def.scale ==>
              r == Err(IntegerPartRange(def.precision - def.scale))
    ensures r.Ok? <==> 1 <= |fields[0]| <= def.precision - def.scale && AllDigits(fields[0])
    ensures 1 <= |fields[0]| <= def.precision - def.scale && !AllDigits(fields[0]) ==>
              r == Err(IntegerPartNotANumber(fields[0]))
    ensures r.Ok? ==> r.value == ValueOf(fields[0])
    ensures r.Ok? ==> def.scale < def.precision && r.value < Pow10(def.precision - def.scale)
  {
    var field := fields[0];
    if |field| == 0 || |field| > def.precision - def.scale then
      Err(IntegerPartRange(def.precision - def.scale))
    else if !AllDigits(field) then
      Err(IntegerPartNotANumber(field))
    else
      Pow10Monotone(|field|, def.precision - def.scale);
      Ok(ValueOf(field))
  }

  /** The `decimalPart` closure: the text the fraction contributes to the
      template string. A missing or empty fraction contributes nothing; one
      longer than scale is refused; a shorter one is right-padded with '0' to
      scale digits, read as a number and printed back. */
  function DecimalPart(fields: seq<string>, def: DecimalDefinition): (r: Result<string>)
    requires |fields| >= 1
    ensures |fields| == 1 || fields[1] == [] ==> r == Ok([])
    ensures |fields| >= 2 && |fields[1]| > def.scale ==> r == Err(DecimalPartRange(def.scale))
    ensures |fields| >= 2 && 1 <= |fields[1]| <= def.scale ==> (r.Ok? <==> AllDigits(fields[1]))
    ensures r.Ok? ==> AllDigits(r.value) && |r.value| <= def.scale
    ensures r.Ok? && |fields| >= 2 && fields[1] != [] ==>
              |fields[1]| <= def.scale &&
              ValueOf(r.value) == ValueOf(fields[1]) * Pow10(def.scale - |fields[1]|)
  {
    if |fields| == 1 || fields[1] == [] then Ok([])
    else
      var field := fields[1];
      if |field| > def.scale then Err(DecimalPartRange(def.scale))
      else
        var padded := if |field| < def.scale then PadEnd(field, def.scale, '0') else field;
        assert padded == field + padded[|field|..];
        if !AllDigits(padded) then
          Err(DecimalPartNotANumber)
        else
          ValueOfTrailingZeros(field, padded[|field|..]);
          RenderLength(ValueOf(padded), def.scale);
          Ok(Render(ValueOf(padded)))
  }

  /** parseString: split on '.', refuse more than one point, then read the
      fields. */
  function ParseString(value: string, def: DecimalDefinition): (r: Result<int>)
    requires SafeDefinition(def)
    ensures r.Ok? ==> 0 <= r.value < Pow10(def.precision)
  {
    var split := Split(value, '.');
    if |split| == 0 || |split| > 2 then Err(NotAFloat)
    else ReadFields(split, def)
  }

  /** NotAFloat is raised exactly when the literal holds more than one point. */
  lemma PointsRejected(value: string, def: DecimalDefinition)
    requires SafeDefinition(def)
    ensures ParseString(value, def) == Err(NotAFloat) <==> Occurrences(value, '.') > 1
  {
    SplitCount(value, '.');
  }

  /** `BigInt(`${integerPart()}${decimalPart()}`)`: the integer field is
      examined before the fraction, so its errors take precedence; the printed
      integer and the fraction's text are read together as one numeral. */
  function ReadFields(fields: seq<string>, def: DecimalDefinition): (r: Result<int>)
    requires 1 <= |fields| <= 2
    ensures r != Err(NotAFloat)
    ensures r.Ok? ==> 0 <= r.value < Pow10(def.precision)
  {
    match IntegerPart(fields, def)
    case Err(e) => Err(e)
    case Ok(integer) =>
      match DecimalPart(fields, def)
      case Err(e) => Err(e)
      case Ok(fraction) =>
        ConcatenationFits(integer, fraction, def);
        Ok(ValueOf(Render(integer) + fraction))
  }

  /** The printed integer field followed by the fraction's text has at most
      precision digits. */
  lemma ConcatenationFits(integer: nat, fraction: string, def: DecimalDefinition)
    requires def.scale < def.precision && integer < Pow10(def.precision - def.scale)
    requires AllDigits(fraction) && |fraction| <= def.scale
    ensures AllDigits(Render(integer) + fraction)
    ensures ValueOf(Render(integer) + fraction) < Pow10(def.precision)
  {
    RenderLength(integer, def.precision - def.scale);
    Pow10Monotone(|Render(integer) + fraction|, def.precision);
  }

  /** The literal a.b, as a string. */
  function Literal(a: string, b: string): string {
    a + "." + b
  }

  /** Splitting a.b on '.' gives back a and b when neither holds a point. */
  lemma SplitLiteral(a: string, b: string)
    requires '.' !in a && '.' !in b
    ensures Split(a, '.') == [a]
    ensures Split(Literal(a, b), '.') == [a, b]
  {
    SplitJoin([a], '.');
    assert [a, b][1..] == [b];
    SplitJoin([a, b], '.');
  }

  lemma FieldsOfLiteral(a: string, b: string, def: DecimalDefinition)
    requires SafeDefinition(def) && '.' !in a && '.' !in b
    ensures ParseString(a, def) == ReadFields([a], def)
    ensures ParseString(Literal(a, b), def) == ReadFields([a, b], def)
  {
    SplitLiteral(a, b);
  }

  /** A literal whose integer field is at fault fails the same way with or
      without a fraction: the fraction is never looked at. */
  lemma {:induction false} IntegerErrorFirst(a: string, b: string, def: DecimalDefinition)
    requires SafeDefinition(def) && '.' !in a && '.' !in b
    requires !(1 <= |a| <= def.precision - def.scale && AllDigits(a))
    ensures ReadFields([a, b], def) == ParseString(a, def)
    ensures ParseString(a, def).Err? && ParseString(a, def) != Err(NotAFloat)
  {
    FieldsOfLiteral(a, b, def);
  }

  /** A literal without fractional digits ("123" or "123.") is accepted when
      its digits fit precision - scale, and reads as that integer: it is NOT
      multiplied by 10^scale. */
  lemma {:induction false} WholeNumber(a: string, def: DecimalDefinition)
    requires SafeDefinition(def) && '.' !in a
    ensures ParseString(Literal(a, ""), def) == ParseString(a, def)
    ensures ParseString(a, def).Ok? <==> 1 <= |a| <= def.precision - def.scale && AllDigits(a)
    ensures ParseString(a, def).Ok? ==> ParseString(a, def).value == ValueOf(a)
  {
    FieldsOfLiteral(a, "", def);
    if 1 <= |a| <= def.precision - def.scale && AllDigits(a) {
      assert Render(ValueOf(a)) + [] == Render(ValueOf(a));
    }
  }

  /** A fraction longer than scale is refused (after an acceptable integer
      field a). */
  lemma FractionTooLong(a: string, b: string, def: DecimalDefinition)
    requires SafeDefinition(def) && '.' !in a && '.' !in b
    requires 1 <= |a| <= def.precision - def.scale && AllDigits(a) && |b| > def.scale
    ensures ParseString(Literal(a, b), def) == Err(DecimalPartRange(def.scale))
  {
    FieldsOfLiteral(a, b, def);
    FractionFields(a, b, def);
  }

  /** A non-empty fraction b of at most scale characters after an acceptable
      integer field a is refused unless numeric; otherwise the result is
      FractionReading(a, b, scale). */
  lemma WithFraction(a: string, b: string, def: DecimalDefinition)
    requires SafeDefinition(def) && '.' !in a && '.' !in b
    requires 1 <= |a| <= def.precision - def.scale && AllDigits(a)
    requires 1 <= |b| <= def.scale
    ensures !AllDigits(b) ==> ParseString(Literal(a, b), def) == Err(DecimalPartNotANumber)
    ensures AllDigits(b) ==> ParseString(Literal(a, b), def) == Ok(FractionReading(a, b, def.scale))
  {
    FieldsOfLiteral(a, b, def);
    FractionFields(a, b, def);
  }

  lemma FractionFields(a: string, b: string, def: DecimalDefinition)
    requires 1 <= |a| <= def.precision - def.scale && AllDigits(a) && b != []
    ensures |b| > def.scale ==> ReadFields([a, b], def) == Err(DecimalPartRange(def.scale))
    ensures |b| <= def.scale ==> (ReadFields([a, b], def).Ok? <==> AllDigits(b))
    ensures ReadFields([a, b], def).Ok? ==>
              |b| <= def.scale && AllDigits(b) &&
              ReadFields([a, b], def).value == FractionReading(a, b, def.scale)
  {
    var fields := [a, b];
    assert IntegerPart(fields, def) == Ok(ValueOf(a));
    if |b| > def.scale {
      assert DecimalPart(fields, def) == Err(DecimalPartRange(def.scale));
    } else if !AllDigits(b) {
      assert DecimalPart(fields, def).Err?;
    } else {
      FractionAccepted(a, b, def);
    }
  }

  lemma FractionAccepted(a: string, b: string, def: DecimalDefinition)
    requires 1 <= |a| <= def.precision - def.scale && AllDigits(a)
    requires 1 <= |b| <= def.scale && AllDigits(b)
    ensures ReadFields([a, b], def) == Ok(FractionReading(a, b, def.scale))
  {
    var fields := [a, b];
    IntegerText(a, fields, def);
    FractionText(b, fields, def);
    FieldsReadTogether(fields, def);
    ConcatenatedReading(a, b, def.scale);
  }

  /** An acceptable integer field contributes its value. */
  lemma IntegerText(a: string, fields: seq<string>, def: DecimalDefinition)
    requires |fields| == 2 && fields[0] == a
    requires 1 <= |a| <= def.precision - def.scale && AllDigits(a)
    ensures IntegerPart(fields, def) == Ok(ValueOf(a))
  {
  }

  /** Reading the printed integer field followed by the printed padded
      fraction as one numeral gives FractionReading. */
  lemma ConcatenatedReading(a: string, b: string, scale: nat)
    requires AllDigits(a) && AllDigits(b) && |b| <= scale
    ensures ValueOf(Render(ValueOf(a)) + Render(ValueOf(b) * Pow10(scale - |b|))) ==
            FractionReading(a, b, scale)
  {
    ValueOfConcat(Render(ValueOf(a)), Render(ValueOf(b) * Pow10(scale - |b|)));
  }

  /** An acceptable fraction b contributes the printing of its padded value. */
  lemma FractionText(b: string, fields: seq<string>, def: DecimalDefinition)
    requires |fields| == 2 && fields[1] == b
    requires 1 <= |b| <= def.scale && AllDigits(b)
    ensures DecimalPart(fields, def) == Ok(Render(ValueOf(b) * Pow10(def.scale - |b|)))
  {
    var zeros := seq(def.scale - |b|, _ => '0');
    var padded := if |b| < def.scale then PadEnd(b, def.scale, '0') else b;
    assert padded == b + zeros;
    ValueOfTrailingZeros(b, zeros);
  }

  /** With both fields acceptable, the result reads the printed integer field
      and the fraction's text as one numeral. */
  lemma FieldsReadTogether(fields: seq<string>, def: DecimalDefinition)
    requires 1 <= |fields| <= 2 && IntegerPart(fields, def).Ok? && DecimalPart(fields, def).Ok?
    ensures ReadFields(fields, def) ==
              Ok(ValueOf(Render(ValueOf(fields[0])) + DecimalPart(fields, def).value))
  {
  }

  /** What parseString makes of a numeric literal a.b with a non-empty
      fraction of at most scale digits: the digits of a followed by the printed
      value f of b right-padded with zeros to scale digits. */
  function FractionReading(a: string, b: string, scale: nat): int
    requires AllDigits(a) && AllDigits(b) && |b| <= scale
  {
    var f := ValueOf(b) * Pow10(scale - |b|);
    ValueOf(a) * Pow10(|Render(f)|) + f
  }

  /** The value of the literal a.b times 10^scale, for a fraction of at most
      scale digits: the scaled integer the literal stands for. */
  function ScaledValue(a: string, b: string, scale: nat): int
    requires AllDigits(a) && AllDigits(b) && |b| <= scale
  {
    ValueOf(a) * Pow10(scale) + ValueOf(b) * Pow10(scale - |b|)
  }

  /** parseString gives the literal's value times 10^scale exactly when the
      fraction does not begin with '0', or the integer field reads as 0, or
      scale is 1; otherwise the padded fraction's leading zeros are lost and
      the result falls short of it. */
  lemma ExactIff(a: string, b: string, def: DecimalDefinition)
    requires SafeDefinition(def) && '.' !in a && '.' !in b
    requires 1 <= |a| <= def.precision - def.scale && AllDigits(a)
    requires 1 <= |b| <= def.scale && AllDigits(b)
    ensures ParseString(Literal(a, b), def) == Ok(ScaledValue(a, b, def.scale)) <==>
              b[0] != '0' || ValueOf(a) == 0 || def.scale == 1
    ensures ParseString(Literal(a, b), def).Ok?
    ensures ParseString(Literal(a, b), def).value <= ScaledValue(a, b, def.scale)
  {
    WithFraction(a, b, def);
    ReadingVersusScaled(a, b, def.scale);
  }

  /** A literal a.b whose fraction does not begin with '0' parses to the
      literal's value times 10^scale. */
  lemma Exact(a: string, b: string, def: DecimalDefinition)
    requires SafeDefinition(def) && '.' !in a && '.' !in b
    requires 1 <= |a| <= def.precision - def.scale && AllDigits(a)
    requires 1 <= |b| <= def.scale && AllDigits(b) && b[0] != '0'
    ensures ParseString(Literal(a, b), def) == Ok(ScaledValue(a, b, def.scale))
  {
    ExactIff(a, b, def);
  }

  /** Exact, for a caller that already knows the value the literal stands
      for. */
  lemma ExactValue(a: string, b: string, def: DecimalDefinition, v: int)
    requires SafeDefinition(def) && '.' !in a && '.' !in b
    requires 1 <= |a| <= def.precision - def.scale && AllDigits(a)
    requires 1 <= |b| <= def.scale && AllDigits(b) && b[0] != '0'
    requires ScaledValue(a, b, def.scale) == v
    ensures ParseString(Literal(a, b), def) == Ok(v)
  {
    Exact(a, b, def);
  }

  lemma ReadingVersusScaled(a: string, b: string, scale: nat)
    requires AllDigits(a) && 1 <= |b| <= scale && AllDigits(b)
    ensures FractionReading(a, b, scale) == ScaledValue(a, b, scale) <==>
              b[0] != '0' || ValueOf(a) == 0 || scale == 1
    ensures FractionReading(a, b, scale) <= ScaledValue(a, b, scale)
  {
    var f := ValueOf(b) * Pow10(scale - |b|);
    var k := |Render(f)|;
    if b[0] != '0' {
      FullWidthFraction(b, scale);
    } else if scale == 1 {
      assert b == "0";
    } else {
      NarrowFraction(b, scale);
      if ValueOf(a) > 0 {
        Pow10Monotone(k + 1, scale);
        ScaleStrictlyLess(ValueOf(a), Pow10(k), Pow10(scale));
      }
    }
  }

  /** A fraction whose first digit is not '0', padded to n digits, prints in
      all n digits. */
  lemma FullWidthFraction(b: string, n: nat)
    requires 1 <= |b| <= n && AllDigits(b) && b[0] != '0'
    ensures |Render(ValueOf(b) * Pow10(n - |b|))| == n
  {
    var zeros := seq(n - |b|, _ => '0');
    ValueOfTrailingZeros(b, zeros);
    RenderValueOf(b + zeros);
  }

  /** A fraction whose first digit is '0', padded to n >= 2 digits, prints in
      fewer than n digits. */
  lemma NarrowFraction(b: string, n: nat)
    requires 1 <= |b| <= n && AllDigits(b) && b[0] == '0' && n >= 2
    ensures |Render(ValueOf(b) * Pow10(n - |b|))| < n
  {
    var zeros := seq(n - |b|, _ => '0');
    ValueOfTrailingZeros(b, zeros);
    LeadingZeroBound(b + zeros);
    RenderLength(ValueOf(b + zeros), n - 1);
  }

  /** A numeral that begins with '0' reads below 10^(length - 1). */
  lemma LeadingZeroBound(d: string)
    requires |d| >= 1 && AllDigits(d) && d[0] == '0'
    ensures ValueOf(d) < Pow10(|d| - 1)
  {
    var rest := d[1..];
    assert d == ['0'] + rest;
    assert ValueOf(['0']) == 0;
    ValueOfConcat(['0'], rest);
  }

  /** A positive factor keeps a strict order. Stated apart so that
      ReadingVersusScaled's verification condition stays small. */
  lemma ScaleStrictlyLess(x: nat, p: nat, q: nat)
    requires x > 0 && p < q
    ensures x * p < x * q
  {
  }
}
