/** The values the project's own tests expect of decimalx/index.ts, and a few
    more that show the edge cases of parseString, each derived from the
    general lemmas. */
module Scenarios {
  import opened Numerals
  import opened Strings
  import opened Parser
  import opened Decimal

  /** Exact, with the literal's text and its scaled value passed as plain
      values, so that the literal is matched against a.b only once. */
  lemma ExactLiteral(a: string, b: string, def: DecimalDefinition, text: string, v: int)
    requires SafeDefinition(def) && text == Literal(a, b)
    requires 1 <= |a| <= def.precision - def.scale && AllDigits(a)
    requires 1 <= |b| <= def.scale && AllDigits(b) && b[0] != '0'
    requires ScaledValue(a, b, def.scale) == v
    ensures ParseString(text, def) == Ok(v)
  {
    Exact(a, b, def);
  }

  /** "123.456" at (20, 6) is the scaled integer 123456000. */
  lemma ParsesTestLiteral()
    ensures ParseString("123.456", DecimalDefinition(20, 6)) == Ok(123456000)
  {
    ValueOfThree("123");
    ValueOfThree("456");
    assert Pow10(6) == 1000000;
    ExactLiteral("123", "456", DecimalDefinition(20, 6), "123.456", 123456000);
  }

  /** "200.1" at (20, 6) is 200100000: the fraction is padded to six digits. */
  lemma ParsesPaddedFraction()
    ensures ParseString("200.1", DecimalDefinition(20, 6)) == Ok(200100000)
  {
    ValueOfThree("200");
    assert Pow10(6) == 1000000 && Pow10(5) == 100000;
    ExactLiteral("200", "1", DecimalDefinition(20, 6), "200.1", 200100000);
  }

  lemma ParsesTrailingZeros()
    ensures ParseString("143.100", DecimalDefinition(20, 6)) == Ok(143100000)
  {
    ValueOfThree("143");
    ValueOfThree("100");
    assert Pow10(6) == 1000000 && Pow10(3) == 1000;
    ExactLiteral("143", "100", DecimalDefinition(20, 6), "143.100", 143100000);
  }

  lemma ParsesSubtrahend()
    ensures ParseString("23.456", DecimalDefinition(20, 6)) == Ok(23456000)
  {
    ValueOfTwo("23");
    ValueOfThree("456");
    assert Pow10(6) == 1000000 && Pow10(3) == 1000;
    ExactLiteral("23", "456", DecimalDefinition(20, 6), "23.456", 23456000);
  }

  /** "11.33" at (10, 2) is 1133, the operand of the first distribution test. */
  lemma ParsesNarrowLiteral()
    ensures ParseString("11.33", DecimalDefinition(10, 2)) == Ok(1133)
  {
    ValueOfTwo("11");
    ValueOfTwo("33");
    assert Pow10(2) == 100;
    ExactLiteral("11", "33", DecimalDefinition(10, 2), "11.33", 1133);
  }

  /** A literal without a point is not scaled: "2" is the scaled integer 2
      whatever the scale (the multiplication test relies on it), and "5" at
      scale 2 is 5, not 500. */
  lemma WholeNumbersAreNotScaled()
    ensures ParseString("2", DecimalDefinition(20, 6)) == Ok(2)
    ensures ParseString("5", DecimalDefinition(10, 2)) == Ok(5)
  {
    assert Render(2) == "2" && Render(5) == "5";
    WholeNumber("2", DecimalDefinition(20, 6));
    WholeNumber("5", DecimalDefinition(10, 2));
  }

  /** A fraction that begins with '0' loses that zero: "1.05" at scale 2
      reads as 15, not as 105. */
  lemma LeadingFractionZeroIsLost()
    ensures ParseString("1.05", DecimalDefinition(10, 2)) == Ok(15)
  {
    assert Literal("1", "05") == "1.05";
    assert FractionReading("1", "05", 2) == 15 by {
      assert Render(1) == "1" && Render(5) == "5";
      assert ValueOf("05") == 5 by {
        assert "05"[..1] == "0";
      }
    }
    WithFraction("1", "05", DecimalDefinition(10, 2));
  }

  /** More than one point. */
  lemma RejectsTwoPoints()
    ensures ParseString("1.2.3", DecimalDefinition(20, 6)) == Err(NotAFloat)
  {
    assert Occurrences("1.2.3", '.') == 2;
    PointsRejected("1.2.3", DecimalDefinition(20, 6));
  }

  /** An integer field longer than precision - scale, and an empty one. */
  lemma RejectsIntegerWidth()
    ensures ParseString("12345.6", DecimalDefinition(5, 1)) == Err(IntegerPartRange(4))
    ensures ParseString(".5", DecimalDefinition(10, 2)) == Err(IntegerPartRange(8))
  {
    assert Literal("12345", "6") == "12345.6";
    FieldsOfLiteral("12345", "6", DecimalDefinition(5, 1));
    assert Literal("", "5") == ".5";
    FieldsOfLiteral("", "5", DecimalDefinition(10, 2));
  }

  /** An integer field that is not a numeral. */
  lemma RejectsIntegerText()
    ensures ParseString("1x.5", DecimalDefinition(10, 2)) == Err(IntegerPartNotANumber("1x"))
  {
    assert Literal("1x", "5") == "1x.5";
    FieldsOfLiteral("1x", "5", DecimalDefinition(10, 2));
    assert !IsDigit("1x"[1]);
  }

  /** A fraction longer than scale. */
  lemma RejectsLongFraction()
    ensures ParseString("1.234", DecimalDefinition(10, 2)) == Err(DecimalPartRange(2))
  {
    assert Literal("1", "234") == "1.234";
    FractionTooLong("1", "234", DecimalDefinition(10, 2));
  }

  /** A fraction that is not a numeral. */
  lemma RejectsFractionText()
    ensures ParseString("1.x", DecimalDefinition(10, 2)) == Err(DecimalPartNotANumber)
  {
    assert Literal("1", "x") == "1.x";
    WithFraction("1", "x", DecimalDefinition(10, 2));
    assert !IsDigit("x"[0]);
  }

  /** The printed form of 123456000 at scale 6 is "123.456000": all six
      fractional digits appear because the remainder has six. */
  lemma PrintsTestValue()
    ensures DecimalX(DecimalDefinition(20, 6), 123456000).ValueAsString() == "123.456000"
  {
    assert Pow10(6) == 1000000;
    assert TDiv(123456000, 1000000) == 123 && TMod(123456000, 1000000) == 456000;
    NonNegativeText(DecimalX(DecimalDefinition(20, 6), 123456000), 123, 456000);
    assert Render(123) == "123";
    assert Render(456000) == "456000";
  }

  /** The remainder is printed without leading zeros: 1005 at scale 2 prints
      as "10.5", not "10.05". */
  lemma PrintsWithoutPadding()
    ensures DecimalX(DecimalDefinition(10, 2), 1005).ValueAsString() == "10.5"
  {
    assert Pow10(2) == 100;
    assert TDiv(1005, 100) == 10;
    assert TMod(1005, 100) == 5;
    assert Render(10) == "10" && Render(5) == "5";
  }

  /** Parsing then printing does not give the literal back when the fraction
      begins with '0': "0.05" at (10, 2) parses to 5, which prints as "0.5". */
  lemma LeadingZeroNotPrintedBack()
    ensures ParseString("0.05", DecimalDefinition(10, 2)) == Ok(5)
    ensures DecimalX(DecimalDefinition(10, 2), 5).ValueAsString() == "0.5"
  {
    ParsesLeadingZeroFraction();
    PrintsSmallRemainder();
  }

  lemma ParsesLeadingZeroFraction()
    ensures ParseString("0.05", DecimalDefinition(10, 2)) == Ok(5)
  {
    assert Literal("0", "05") == "0.05";
    assert FractionReading("0", "05", 2) == 5 by {
      assert Render(5) == "5";
      assert ValueOf("05") == 5 by {
        assert "05"[..1] == "0";
      }
    }
    WithFraction("0", "05", DecimalDefinition(10, 2));
  }

  lemma PrintsSmallRemainder()
    ensures DecimalX(DecimalDefinition(10, 2), 5).ValueAsString() == "0.5"
  {
    assert Pow10(2) == 100;
    assert TDiv(5, 100) == 0 && TMod(5, 100) == 5;
    NonNegativeText(DecimalX(DecimalDefinition(10, 2), 5), 0, 5);
    assert Render(0) == "0" && Render(5) == "5";
  }

  /** The addition, subtraction and multiplication tests. */
  method Arithmetic() returns (sum1: DecimalX, sum2: DecimalX, difference: DecimalX, product: DecimalX)
    ensures sum1 == DecimalX(DecimalDefinition(20, 6), 323556000)
    ensures sum2 == DecimalX(DecimalDefinition(20, 6), 466656000)
    ensures difference == DecimalX(DecimalDefinition(20, 6), 100000000)
    ensures product == DecimalX(DecimalDefinition(20, 6), 246912000)
  {
    var def := DecimalDefinition(20, 6);
    var x := DecimalX(def, 123456000);
    var y, z := DecimalX(def, 200100000), DecimalX(def, 143100000);
    sum1 := x.Add([y]);
    sum2 := x.Add([y, z]);
    assert [y, z][..1] == [y];
    difference := x.Subtract(DecimalX(def, 23456000));
    product := x.Mul([DecimalX(def, 2)]);
  }

  /** The distribution tests: 11.33 in two shares is 5.66 and 5.67; 123.456
      in three shares is 41.152 three times, in five 24.6912 five times. */
  method Distributions() returns (halves: seq<DecimalX>, thirds: seq<DecimalX>, fifths: seq<DecimalX>)
    ensures halves == [DecimalX(DecimalDefinition(10, 2), 566), DecimalX(DecimalDefinition(10, 2), 567)]
    ensures |thirds| == 3 && forall i :: 0 <= i < 3 ==> thirds[i] == DecimalX(DecimalDefinition(20, 6), 41152000)
    ensures |fifths| == 5 && forall i :: 0 <= i < 5 ==> fifths[i] == DecimalX(DecimalDefinition(20, 6), 24691200)
  {
    halves := DecimalX(DecimalDefinition(10, 2), 1133).Distribute(2);
    assert TDiv(1133, 2) == 566 && TMod(1133, 2) == 1;
    thirds := DecimalX(DecimalDefinition(20, 6), 123456000).Distribute(3);
    assert TDiv(123456000, 3) == 41152000 && TMod(123456000, 3) == 0;
    fifths := DecimalX(DecimalDefinition(20, 6), 123456000).Distribute(5);
    assert TDiv(123456000, 5) == 24691200 && TMod(123456000, 5) == 0;
  }
}
