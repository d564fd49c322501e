/**
 * What the renderer of the symbolic layer produces: a sum of integers reads
 * back, operand by operand, as those integers; logarithms, exponentials and
 * parenthesised groups can be unwrapped to the rendering inside; and a few
 * concrete renderings, including one that shows the renderer forgets nesting.
 */
module RealRendering {
  import opened Wrappers
  import Text
  import opened Reals
  import RealLaws

  /** No character of s is a blank. */
  predicate NoBlank(s: string) {
    forall i :: 0 <= i < |s| ==> s[i] != ' '
  }

  lemma IntegerNoBlank(v: int)
    ensures NoBlank(Text.IntToString(v))
  {
    Text.IntToStringChars(v);
  }

  /** A rendered integer or fraction contains no blank. */
  lemma RationalNoBlank(q: Rational)
    ensures NoBlank(String(Num(q)))
  {
    match q
    case Integer(v) =>
      IntegerNoBlank(v);
    case Fraction(a, b) =>
      var sa, sb := Text.IntToString(a), Text.IntToString(b);
      IntegerNoBlank(a);
      IntegerNoBlank(b);
      assert forall i :: 0 <= i < |sa| ==> (sa + "/" + sb)[i] == sa[i];
      assert forall i :: |sa| + 1 <= i < |sa| + 1 + |sb| ==> (sa + "/" + sb)[i] == sb[i - |sa| - 1];
  }

  /**
   * Splitting the rendering of a non-empty sum at " + " gives back the
   * rendering of each operand, provided no operand renders with a blank.
   */
  lemma SumStringSplits(ops: seq<Real>)
    requires |ops| > 0
    requires forall i :: 0 <= i < |ops| ==> NoBlank(String(ops[i]))
    ensures Text.Split(String(Sum(ops)), " + ") == OperandStrings(Sum(ops))
  {
    var parts := OperandStrings(Sum(ops));
    assert forall k :: 0 <= k < |parts| ==> parts[k] == String(ops[k]);
    Text.SplitJoin(parts, " + ");
  }

  /** Splitting the rendering of a non-empty product at " " gives back the rendering of each factor. */
  lemma ProductStringSplits(ops: seq<Real>)
    requires |ops| > 0
    requires forall i :: 0 <= i < |ops| ==> !ops[i].Sum? && NoBlank(String(ops[i]))
    ensures Text.Split(String(Product(ops)), " ") == FactorStrings(Product(ops))
  {
    var parts := FactorStrings(Product(ops));
    assert forall k :: 0 <= k < |parts| ==> parts[k] == Factor(ops[k]) == String(ops[k]);
    Text.SplitJoin(parts, " ");
  }

  /** The rendering of a sum of integers reads back as those integers, in order. */
  lemma IntegerSumReadsBack(vs: seq<Integers.Int64>)
    requires |vs| > 0
    ensures var parts := Text.Split(String(Sum(RealLaws.IntNums(vs))), " + ");
      |parts| == |vs| && forall i :: 0 <= i < |vs| ==> Text.ParseInt(parts[i]) == Some(vs[i] as int)
  {
    var ops := RealLaws.IntNums(vs);
    forall i | 0 <= i < |ops| ensures NoBlank(String(ops[i])) {
      RationalNoBlank(ops[i].q);
    }
    SumStringSplits(ops);
    forall i | 0 <= i < |vs| ensures Text.ParseInt(OperandStrings(Sum(ops))[i]) == Some(vs[i] as int) {
      Text.IntRoundTrip(vs[i]);
    }
  }

  /** The rendering of a product of integers reads back as those integers, in order. */
  lemma IntegerProductReadsBack(vs: seq<Integers.Int64>)
    requires |vs| > 0
    ensures var parts := Text.Split(String(Product(RealLaws.IntNums(vs))), " ");
      |parts| == |vs| && forall i :: 0 <= i < |vs| ==> Text.ParseInt(parts[i]) == Some(vs[i] as int)
  {
    var ops := RealLaws.IntNums(vs);
    forall i | 0 <= i < |ops| ensures !ops[i].Sum? && NoBlank(String(ops[i])) {
      RationalNoBlank(ops[i].q);
    }
    ProductStringSplits(ops);
    forall i | 0 <= i < |vs| ensures Text.ParseInt(FactorStrings(Product(ops))[i]) == Some(vs[i] as int) {
      Text.IntRoundTrip(vs[i]);
    }
  }

  /** The argument of a logarithm is the rendering between "log(" and ")". */
  lemma LogArgument(x: Real)
    ensures var s := String(Log(x)); |s| == |String(x)| + 5 && s[..4] == "log(" && s[4..|s| - 1] == String(x) && s[|s| - 1] == ')'
  {
  }

  /** The argument of an exponential is the rendering between "exp(" and ")". */
  lemma ExpArgument(x: Real)
    ensures var s := String(Exp(x)); |s| == |String(x)| + 5 && s[..4] == "exp(" && s[4..|s| - 1] == String(x) && s[|s| - 1] == ')'
  {
  }

  /** A sum or product base of a power is parenthesised, so its rendering is recovered between them. */
  lemma PowerBaseGrouped(b: Real, e: Real)
    requires b.Sum? || b.Product?
    ensures var s := String(Power(b, e)); |s| > |String(b)| + 2 && s[0] == '(' && s[1..|String(b)| + 1] == String(b) && s[|String(b)| + 1] == ')'
    ensures Grouped(b) == "(" + String(b) + ")"
  {
  }

  /** A sum or product exponent is parenthesised after the caret, whatever the base. */
  lemma PowerExponentGrouped(b: Real, e: Real)
    requires e.Sum? || e.Product?
    ensures String(Power(b, e)) == Grouped(b) + "^(" + String(e) + ")"
    ensures var s := String(Power(b, e)); |s| > |String(e)| + 2 && s[|s| - 1] == ')' && s[|s| - |String(e)| - 2..|s| - 1] == "(" + String(e)
  {
    assert "^" + ("(" + String(e) + ")") == "^(" + String(e) + ")";
  }

  /** A power whose base and exponent are neither sums nor products renders without parentheses. */
  lemma PowerPlain(b: Real, e: Real)
    requires !b.Sum? && !b.Product? && !e.Sum? && !e.Product?
    ensures String(Power(b, e)) == String(b) + "^" + String(e)
  {
  }

  /** "1 + 2", the sum used by the concrete renderings below. */
  lemma SmallSumRendering()
    ensures String(Sum([IntNum(1), IntNum(2)])) == "1 + 2"
  {
    assert Text.IntToString(1) == "1" && Text.IntToString(2) == "2";
    assert OperandStrings(Sum([IntNum(1), IntNum(2)])) == ["1", "2"];
  }

  /** A sum base of a power is parenthesised. */
  lemma PowerRendering()
    ensures String(Power(Sum([IntNum(1), IntNum(2)]), IntNum(3))) == "(1 + 2)^3"
  {
    SmallSumRendering();
    assert Text.IntToString(3) == "3";
  }

  /** Factors are separated by a blank, and a sum factor is parenthesised. */
  lemma ProductRendering()
    ensures String(Product([Sum([IntNum(1), IntNum(2)]), Log(IntNum(2))])) == "(1 + 2) log(2)"
  {
    SmallSumRendering();
    assert Text.IntToString(2) == "2";
    assert String(Log(IntNum(2))) == "log(2)";
    var p := Product([Sum([IntNum(1), IntNum(2)]), Log(IntNum(2))]);
    assert Factor(p.operands[0]) == "(1 + 2)" && Factor(p.operands[1]) == "log(2)";
    assert FactorStrings(p) == ["(1 + 2)", "log(2)"];
  }

  /** Undefined renders as UNDEFINED, also inside an exponential. */
  lemma UndefinedRendering()
    ensures String(Undefined) == "UNDEFINED"
    ensures String(Exp(Undefined)) == "exp(UNDEFINED)"
  {
  }

  /** A fraction renders as numerator, slash, denominator, the sign on the numerator. */
  lemma FractionRendering()
    ensures String(Num(Rationals.Fraction(-1, 2))) == "-1/2"
  {
    assert Text.IntToString(-1) == "-1" && Text.IntToString(2) == "2";
  }

  /** A sum without operands renders as the empty string. */
  lemma EmptySumRendering()
    ensures String(Sum([])) == ""
  {
  }

  /** The renderer forgets nesting: a sum holding a sum renders like the inner sum. */
  lemma RenderingForgetsNesting()
    ensures Sum([Sum([IntNum(1), IntNum(2)])]) != Sum([IntNum(1), IntNum(2)])
    ensures String(Sum([Sum([IntNum(1), IntNum(2)])])) == String(Sum([IntNum(1), IntNum(2)])) == "1 + 2"
  {
    SmallSumRendering();
    assert OperandStrings(Sum([Sum([IntNum(1), IntNum(2)])])) == [String(Sum([IntNum(1), IntNum(2)]))];
  }
}
