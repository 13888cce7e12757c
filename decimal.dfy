/** The class that `DecimalFactory` of decimalx/index.ts returns for one
    (precision, scale). An instance holds one scaled integer, written only by
    its constructor, so an instance is a value: the datatype DecimalX pairs
    the definition the factory closed over with that integer. Every operation
    builds a new instance of the receiver's definition from a bigint. */
module Decimal {
  import opened Numerals
  import opened Strings
  import opened Parser

  /** What the constructor accepts: a decimal literal or a pre-scaled bigint. */
  datatype Source = Text(text: string) | Bigint(scaled: int)

  /** The sum of the scaled integers, added left to right. */
  function Sum(xs: seq<DecimalX>): int {
    if xs == [] then 0 else Sum(xs[..|xs| - 1]) + xs[|xs| - 1].value
  }

  /** The product of the scaled integers, multiplied left to right. */
  function Product(xs: seq<DecimalX>): int {
    if xs == [] then 1 else Product(xs[..|xs| - 1]) * xs[|xs| - 1].value
  }

  datatype DecimalX = DecimalX(def: DecimalDefinition, value: int)
  {
    /** `add(...args)`: the receiver plus every argument, exactly. Arguments
        of another definition are added as they are; the result has the
        receiver's definition. */
    method Add(args: seq<DecimalX>) returns (r: DecimalX)
      ensures r.def == def
      ensures r.value == value + Sum(args)
    {
      var accumulator := value;
      for i := 0 to |args|
        invariant accumulator == value + Sum(args[..i])
      {
        assert args[..i + 1][..i] == args[..i];
        accumulator := accumulator + args[i].ValueAsBigint();
      }
      assert args[..|args|] == args;
      r := DecimalX(def, accumulator);
    }

    /** `subtract(arg)`: the receiver minus the argument, in the receiver's
        definition. */
    function Subtract(other: DecimalX): (r: DecimalX)
      ensures r.def == def
      ensures r.value + other.value == value
    {
      DecimalX(def, value - other.ValueAsBigint())
    }

    /** `mul(...args)`: the receiver times every argument, on the scaled
        integers and without rescaling. */
    method Mul(args: seq<DecimalX>) returns (r: DecimalX)
      ensures r.def == def
      ensures r.value == value * Product(args)
    {
      var accumulator := value;
      for i := 0 to |args|
        invariant accumulator == value * Product(args[..i])
      {
        assert args[..i + 1][..i] == args[..i];
        accumulator := accumulator * args[i].ValueAsBigint();
      }
      assert args[..|args|] == args;
      r := DecimalX(def, accumulator);
    }

    /** `distribute(n)`: n shares of the receiver. Every share is the
        truncated quotient q of the scaled integer by n, except the last,
        which is q plus the truncated remainder; the shares add up to the
        receiver exactly. */
    method Distribute(n: nat) returns (parts: seq<DecimalX>)
      requires n > 0
      ensures |parts| == n
      ensures forall i :: 0 <= i < n - 1 ==> parts[i] == DecimalX(def, TDiv(value, n))
      ensures parts[n - 1] == DecimalX(def, TDiv(value, n) + TMod(value, n))
      ensures Sum(parts) == value
      ensures TMod(value, n) == 0 ==> forall i :: 0 <= i < n ==> parts[i] == parts[0]
    {
      var d := TDiv(value, n);
      var r := TMod(value, n);
      DivMod(value, n);
      var pool := new DecimalX[n];
      for count := 0 to n
        invariant forall i :: 0 <= i < count ==> pool[i] == DecimalX(def, d)
      {
        pool[count] := DecimalX(def, d);
      }
      pool[pool.Length - 1] := DecimalX(def, d + r);
      parts := pool[..];
      SumOfShares(parts, d, d + r);
      assert (n - 1) * d + d == n * d;
    }

    /** `valueAsBigint()`: the scaled integer. */
    function ValueAsBigint(): (v: int)
      ensures DecimalX(def, v) == this
    {
      value
    }

    /** `valueAsString()`: the truncated quotient of the scaled integer by
        10^scale, a point, and the truncated remainder, each printed as a
        bigint; the remainder is not padded to scale digits. Neither part is
        ever empty. */
    function ValueAsString(): (r: string)
      ensures |r| >= 3
    {
      var unit := Pow10(def.scale);
      RenderInt(TDiv(value, unit)) + "." + RenderInt(TMod(value, unit))
    }

    /** `definition()`: the (precision, scale) the factory was called with. */
    function Definition(): (d: DecimalDefinition)
      ensures d.precision == def.precision && d.scale == def.scale
    {
      def
    }
  }

  /** The constructor of the class `DecimalFactory(def)` returns: a literal is
      parsed with the factory's definition and a parse error propagates; a
      bigint is taken as the scaled integer unchecked. */
  function Construct(def: DecimalDefinition, source: Source): (r: Result<DecimalX>)
    requires source.Text? ==> SafeDefinition(def)
    ensures r.Ok? ==> r.value.def == def
    ensures source.Bigint? ==> r.Ok? && r.value.ValueAsBigint() == source.scaled
    ensures source.Text? ==> (r.Ok? <==> ParseString(source.text, def).Ok?)
    ensures source.Text? && r.Err? ==> r.error == ParseString(source.text, def).error
    ensures source.Text? && r.Ok? ==> r.value.value == ParseString(source.text, def).value
  {
    match source
    case Text(text) =>
      (match ParseString(text, def)
       case Ok(scaled) => Ok(DecimalX(def, scaled))
       case Err(e) => Err(e))
    case Bigint(scaled) => Ok(DecimalX(def, scaled))
  }

  lemma {:induction false} SumAppend(xs: seq<DecimalX>, ys: seq<DecimalX>)
    ensures Sum(xs + ys) == Sum(xs) + Sum(ys)
  {
    if ys == [] {
      assert xs + ys == xs;
    } else {
      assert (xs + ys)[..|xs + ys| - 1] == xs + ys[..|ys| - 1];
      SumAppend(xs, ys[..|ys| - 1]);
    }
  }

  lemma {:induction false} ProductAppend(xs: seq<DecimalX>, ys: seq<DecimalX>)
    ensures Product(xs + ys) == Product(xs) * Product(ys)
  {
    if ys == [] {
      assert xs + ys == xs;
    } else {
      var front := ys[..|ys| - 1];
      var last := ys[|ys| - 1].value;
      assert (xs + ys)[..|xs + ys| - 1] == xs + front;
      ProductAppend(xs, front);
      calc {
        Product(xs + ys);
        Product(xs + front) * last;
        (Product(xs) * Product(front)) * last;
        Product(xs) * (Product(front) * last);
      }
    }
  }

  /** `a.add(b, c)` and `a.add(b).add(c)` agree: adding a list of arguments
      in one call or in consecutive calls gives the same scaled integer. */
  lemma AddInSteps(x: DecimalX, ys: seq<DecimalX>, zs: seq<DecimalX>)
    ensures x.value + Sum(ys + zs) == (x.value + Sum(ys)) + Sum(zs)
  {
    SumAppend(ys, zs);
  }

  /** `a.mul(b, c)` and `a.mul(b).mul(c)` agree. */
  lemma MulInSteps(x: DecimalX, ys: seq<DecimalX>, zs: seq<DecimalX>)
    ensures x.value * Product(ys + zs) == (x.value * Product(ys)) * Product(zs)
  {
    ProductAppend(ys, zs);
  }

  /** Removing the element at k from a sequence. */
  function RemoveAt(ys: seq<DecimalX>, k: nat): seq<DecimalX>
    requires k < |ys|
  {
    ys[..k] + ys[k + 1..]
  }

  lemma RemoveAtSplits(ys: seq<DecimalX>, k: nat)
    requires k < |ys|
    ensures ys == ys[..k] + [ys[k]] + ys[k + 1..]
    ensures multiset(RemoveAt(ys, k)) == multiset(ys) - multiset{ys[k]}
  {
    assert ys == ys[..k] + [ys[k]] + ys[k + 1..];
  }

  /** Where the last element of xs sits in a rearrangement ys of xs; the
      remaining elements of both are again rearrangements of each other. */
  lemma ShareOut(xs: seq<DecimalX>, ys: seq<DecimalX>) returns (k: nat)
    requires xs != [] && multiset(xs) == multiset(ys)
    ensures k < |ys| && ys[k] == xs[|xs| - 1]
    ensures multiset(xs[..|xs| - 1]) == multiset(RemoveAt(ys, k))
  {
    var front, last := xs[..|xs| - 1], xs[|xs| - 1];
    assert xs == front + [last];
    assert multiset(xs) == multiset(front) + multiset{last};
    assert last in multiset(ys);
    k :| 0 <= k < |ys| && ys[k] == last;
    RemoveAtSplits(ys, k);
  }

  /** The order of the arguments of `add` does not matter: any rearrangement
      has the same sum. */
  lemma {:induction false} SumPermutation(xs: seq<DecimalX>, ys: seq<DecimalX>)
    requires multiset(xs) == multiset(ys)
    ensures Sum(xs) == Sum(ys)
  {
    if xs != [] {
      var front, last := xs[..|xs| - 1], xs[|xs| - 1];
      var k := ShareOut(xs, ys);
      SumPermutation(front, RemoveAt(ys, k));
      SumWithout(ys, k);
    }
  }

  /** The sum is the sum without the element at k, plus that element. */
  lemma {:induction false} SumWithout(ys: seq<DecimalX>, k: nat)
    requires k < |ys|
    ensures Sum(ys) == Sum(RemoveAt(ys, k)) + ys[k].value
  {
    var front := ys[..|ys| - 1];
    if k == |ys| - 1 {
      assert RemoveAt(ys, k) == front;
    } else {
      SumWithout(front, k);
      var rest := RemoveAt(ys, k);
      assert rest[..|rest| - 1] == RemoveAt(front, k);
      assert rest[|rest| - 1] == ys[|ys| - 1];
    }
  }

  /** The order of the arguments of `mul` does not matter. */
  lemma {:induction false} ProductPermutation(xs: seq<DecimalX>, ys: seq<DecimalX>)
    requires multiset(xs) == multiset(ys)
    ensures Product(xs) == Product(ys)
  {
    if xs != [] {
      var front, last := xs[..|xs| - 1], xs[|xs| - 1];
      var k := ShareOut(xs, ys);
      ProductPermutation(front, RemoveAt(ys, k));
      ProductWithout(ys, k);
    }
  }

  /** The product is the product without the element at k, times that element. */
  lemma {:induction false} ProductWithout(ys: seq<DecimalX>, k: nat)
    requires k < |ys|
    ensures Product(ys) == Product(RemoveAt(ys, k)) * ys[k].value
  {
    var front := ys[..|ys| - 1];
    if k == |ys| - 1 {
      assert RemoveAt(ys, k) == front;
    } else {
      ProductWithout(front, k);
      var rest := RemoveAt(ys, k);
      assert rest[..|rest| - 1] == RemoveAt(front, k);
      assert rest[|rest| - 1] == ys[|ys| - 1];
      var p, v, q := Product(RemoveAt(front, k)), ys[k].value, ys[|ys| - 1].value;
      assert Product(ys) == (p * v) * q;
      assert Product(rest) == p * q;
      assert (p * v) * q == (p * q) * v;
    }
  }

  /** Subtracting an argument undoes adding it, and adding it back undoes
      subtracting it. */
  lemma SubtractInvertsAdd(x: DecimalX, y: DecimalX)
    ensures DecimalX(x.def, x.value + Sum([y])).Subtract(y) == x
    ensures x.Subtract(y).value + Sum([y]) == x.value
  {
    assert Sum([y]) == y.value;
  }

  /** Multiplication does not rescale: when x and y stand for the numbers
      x.value / 10^s and y.value / 10^s, their product's scaled integer
      stands for the product of those numbers at scale 2s, not at scale s. */
  lemma MulDoublesScale(x: DecimalX, y: DecimalX)
    ensures var unit := Pow10(x.def.scale) as real;
            (x.value * Product([y])) as real / Pow10(2 * x.def.scale) as real ==
            (x.value as real / unit) * (y.value as real / unit)
  {
    var s := x.def.scale;
    assert Product([y]) == y.value;
    Pow10Add(s, s);
    QuotientOfProducts(x.value, y.value, Pow10(s), Pow10(2 * s));
  }

  /** Dividing a product by a square splits into two quotients. Stated
      apart so that MulDoublesScale's verification condition stays small. */
  lemma QuotientOfProducts(a: int, b: int, u: int, w: int)
    requires u > 0 && w == u * u
    ensures (a * b) as real / w as real == (a as real / u as real) * (b as real / u as real)
  {
    var p, q := a as real / u as real, b as real / u as real;
    assert w > 0 by { MulMonotone(1, u, u); }
    assert w as real == u as real * u as real;
    assert a as real == p * u as real && b as real == q * u as real;
    assert (a * b) as real == (p * q) * w as real;
  }

  /** A list of shares all equal to q except the last, which is `last`, adds
      up to (count - 1) * q + last. */
  lemma SumOfShares(xs: seq<DecimalX>, q: int, last: int)
    requires |xs| >= 1 && xs[|xs| - 1].value == last
    requires forall i :: 0 <= i < |xs| - 1 ==> xs[i].value == q
    ensures Sum(xs) == (|xs| - 1) * q + last
  {
    SumOfEqualShares(xs[..|xs| - 1], q);
  }

  lemma {:induction false} SumOfEqualShares(xs: seq<DecimalX>, q: int)
    requires forall i :: 0 <= i < |xs| ==> xs[i].value == q
    ensures Sum(xs) == |xs| * q
  {
    if xs != [] {
      SumOfEqualShares(xs[..|xs| - 1], q);
      assert (|xs| - 1) * q + q == |xs| * q;
    }
  }

  /** `valueAsString()` holds exactly one point. */
  lemma ValueAsStringHasOnePoint(x: DecimalX)
    ensures Occurrences(x.ValueAsString(), '.') == 1
  {
    var unit := Pow10(x.def.scale);
    var integer := RenderInt(TDiv(x.value, unit));
    var fraction := RenderInt(TMod(x.value, unit));
    OccurrencesConcat(integer + ".", fraction, '.');
    OccurrencesConcat(integer, ".", '.');
  }

  /** `valueAsString()` splits on its point into the printed quotient and
      the printed remainder. */
  lemma ValueAsStringSplits(x: DecimalX)
    ensures Split(x.ValueAsString(), '.') ==
            [RenderInt(TDiv(x.value, Pow10(x.def.scale))), RenderInt(TMod(x.value, Pow10(x.def.scale)))]
  {
    var unit := Pow10(x.def.scale);
    SplitLiteral(RenderInt(TDiv(x.value, unit)), RenderInt(TMod(x.value, unit)));
  }

  /** The two fields of `valueAsString()`, read back as integers, give the
      scaled integer again: integer * 10^scale + fraction. */
  lemma ValueAsStringFields(x: DecimalX)
    ensures var fields := Split(x.ValueAsString(), '.');
            |fields| == 2 && IsIntText(fields[0]) && IsIntText(fields[1]) &&
            ReadInt(fields[0]) * Pow10(x.def.scale) + ReadInt(fields[1]) == x.value
  {
    var unit := Pow10(x.def.scale);
    var q, m := TDiv(x.value, unit), TMod(x.value, unit);
    ValueAsStringSplits(x);
    Recombine(x.value, unit);
  }

  /** For a non-negative value both fields of `valueAsString()` are plain
      digit strings, and the fraction is the remainder printed in at most
      scale digits (one when scale is 0): it is never padded with leading zeros. */
  lemma ValueAsStringDigits(x: DecimalX)
    requires x.value >= 0
    ensures var fields := Split(x.ValueAsString(), '.');
            |fields| == 2 && AllDigits(fields[0]) && AllDigits(fields[1]) &&
            fields[1] == Render(TMod(x.value, Pow10(x.def.scale))) &&
            1 <= |fields[1]| <= (if x.def.scale == 0 then 1 else x.def.scale)
  {
    ValueAsStringSplits(x);
    RemainderDigits(TMod(x.value, Pow10(x.def.scale)), x.def.scale);
  }

  lemma RemainderDigits(m: int, s: nat)
    requires 0 <= m < Pow10(s)
    ensures RenderInt(m) == Render(m)
    ensures 1 <= |Render(m)| <= (if s == 0 then 1 else s)
  {
    if s > 0 {
      RenderLength(m, s);
    }
  }

  /** An instance whose integer part q fits precision - scale digits and
      whose fraction m has all scale digits (no leading zero) prints as a
      literal that parses back to the same scaled integer. */
  lemma ValueAsStringReparses(def: DecimalDefinition, q: nat, m: nat)
    requires SafeDefinition(def) && 1 <= def.scale < def.precision
    requires q < Pow10(def.precision - def.scale)
    requires Pow10(def.scale - 1) <= m < Pow10(def.scale)
    ensures var v := q * Pow10(def.scale) + m;
            ParseString(DecimalX(def, v).ValueAsString(), def) == Ok(v)
  {
    var v := q * Pow10(def.scale) + m;
    UniqueSplit(v, Pow10(def.scale), q, m);
    PrintedFields(DecimalX(def, v), q, m);
    PrintedParts(q, m, def, v);
  }

  /** The other round trip: a literal a.b whose fraction does not begin with
      '0' parses to its scaled value, and that value prints as the integer
      field without leading zeros, a point, and the fraction right-padded
      with '0' to scale digits. */
  lemma ParseThenPrint(a: string, b: string, def: DecimalDefinition)
    requires SafeDefinition(def)
    requires 1 <= |a| <= def.precision - def.scale && AllDigits(a)
    requires 1 <= |b| <= def.scale && AllDigits(b) && b[0] != '0'
    ensures ParseString(Literal(a, b), def) == Ok(ScaledValue(a, b, def.scale))
    ensures DecimalX(def, ScaledValue(a, b, def.scale)).ValueAsString() ==
            Literal(Render(ValueOf(a)), PadEnd(b, def.scale, '0'))
  {
    DigitsHaveNoPoint(a);
    DigitsHaveNoPoint(b);
    Exact(a, b, def);
    PaddedFraction(b, def.scale);
    PrintOf(def, ValueOf(a), ValueOf(b) * Pow10(def.scale - |b|), ScaledValue(a, b, def.scale));
  }

  /** A fraction b not beginning with '0', padded to s digits, is below 10^s
      and prints as b followed by the padding zeros. */
  lemma PaddedFraction(b: string, s: nat)
    requires 1 <= |b| <= s && AllDigits(b) && b[0] != '0'
    ensures ValueOf(b) * Pow10(s - |b|) < Pow10(s)
    ensures Render(ValueOf(b) * Pow10(s - |b|)) == PadEnd(b, s, '0')
  {
    var zeros := seq(s - |b|, _ => '0');
    ValueOfTrailingZeros(b, zeros);
    RenderValueOf(b + zeros);
    assert PadEnd(b, s, '0') == b + zeros;
  }

  /** The instance v = q * 10^scale + m, with m below 10^scale, prints as q.m. */
  lemma PrintOf(def: DecimalDefinition, q: nat, m: nat, v: int)
    requires m < Pow10(def.scale) && v == q * Pow10(def.scale) + m
    ensures DecimalX(def, v).ValueAsString() == Literal(Render(q), Render(m))
  {
    UniqueSplit(v, Pow10(def.scale), q, m);
    NonNegativeText(DecimalX(def, v), q, m);
  }

  /** A non-negative instance prints as two plain numerals around a point,
      which parseString reads as its two fields. */
  lemma PrintedFields(x: DecimalX, q: nat, m: nat)
    requires SafeDefinition(x.def)
    requires q == TDiv(x.value, Pow10(x.def.scale)) && m == TMod(x.value, Pow10(x.def.scale))
    ensures ParseString(x.ValueAsString(), x.def) == ReadFields([Render(q), Render(m)], x.def)
  {
    NonNegativeText(x, q, m);
    FieldsOfLiteral(Render(q), Render(m), x.def);
  }

  /** Truncating division is the unique decomposition v = q * unit + m with
      0 <= m < unit, for non-negative q. */
  lemma UniqueSplit(v: int, unit: nat, q: nat, m: nat)
    requires m < unit && v == q * unit + m
    ensures TDiv(v, unit) == q && TMod(v, unit) == m
  {
    DivMod(v, unit);
    var d := TDiv(v, unit);
    assert unit * d == d * unit;
    if d < q {
      MulMonotone(d + 1, q, unit);
    } else if d > q {
      MulMonotone(q + 1, d, unit);
    }
  }

  /** A non-negative factor keeps the order. Stated apart so that the
      callers' verification conditions stay small. */
  lemma MulMonotone(a: int, b: int, c: nat)
    requires a <= b
    ensures a * c <= b * c
  {
  }

  /** A non-negative instance prints as the literal of two plain numerals. */
  lemma NonNegativeText(x: DecimalX, q: nat, m: nat)
    requires q == TDiv(x.value, Pow10(x.def.scale)) && m == TMod(x.value, Pow10(x.def.scale))
    ensures x.ValueAsString() == Literal(Render(q), Render(m))
  {
  }

  /** Quotient times divisor plus remainder, with the product written the
      other way round. Stated apart so that the callers' verification
      conditions stay small. */
  lemma Recombine(v: int, unit: int)
    requires unit > 0
    ensures TDiv(v, unit) * unit + TMod(v, unit) == v
  {
    DivMod(v, unit);
    assert unit * TDiv(v, unit) == TDiv(v, unit) * unit;
  }

  /** The literal q.m, printed from a quotient q of at most precision - scale
      digits and a remainder m of exactly scale digits, parses to
      q * 10^scale + m. */
  lemma PrintedParts(q: nat, m: nat, def: DecimalDefinition, v: int)
    requires SafeDefinition(def) && 1 <= def.scale < def.precision
    requires q < Pow10(def.precision - def.scale)
    requires Pow10(def.scale - 1) <= m < Pow10(def.scale)
    requires v == q * Pow10(def.scale) + m
    ensures ReadFields([Render(q), Render(m)], def) == Ok(v)
  {
    FullWidthRemainder(m, def.scale);
    RenderLength(q, def.precision - def.scale);
    DigitsHaveNoPoint(Render(q));
    ScaledValueOfRendered(q, m, def.scale);
    ExactValue(Render(q), Render(m), def, v);
    FieldsOfLiteral(Render(q), Render(m), def);
  }

  /** A remainder of exactly s digits prints in s digits, the first not '0'. */
  lemma FullWidthRemainder(m: nat, s: nat)
    requires 1 <= s && Pow10(s - 1) <= m < Pow10(s)
    ensures |Render(m)| == s && Render(m)[0] != '0' && '.' !in Render(m)
  {
    RenderLengthBelow(m, s - 1);
    RenderLength(m, s);
    DigitsHaveNoPoint(Render(m));
  }

  lemma ScaledValueOfRendered(q: nat, m: nat, s: nat)
    requires |Render(m)| == s
    ensures ScaledValue(Render(q), Render(m), s) == q * Pow10(s) + m
  {
  }
}
