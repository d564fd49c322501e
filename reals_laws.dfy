/**
 * What the simplifier of the symbolic layer does: the per-variant rules,
 * the folding of integer and rational sums, where it panics and where it
 * runs forever.
 */
module RealLaws {
  import opened Wrappers
  import opened Integers
  import Rationals
  import opened Reals

  // ---------------------------------------------------------------------
  // The operand loop
  // ---------------------------------------------------------------------

  /** SimplifyAll finishes exactly when every operand does, and then holds their results in order. */
  lemma {:induction false} SimplifyAllSpec(ops: seq<Real>, fuel: nat)
    ensures SimplifyAll(ops, fuel).Done? <==> forall i :: 0 <= i < |ops| ==> Simplify(ops[i], fuel).Done?
    ensures SimplifyAll(ops, fuel).Done? ==>
      var rs := SimplifyAll(ops, fuel).value;
      |rs| == |ops| && forall i :: 0 <= i < |ops| ==> Simplify(ops[i], fuel) == Done(rs[i])
    decreases |ops|
  {
    if ops != [] {
      SimplifyAllSpec(ops[1..], fuel);
      assert forall i :: 1 <= i < |ops| ==> ops[i] == ops[1..][i - 1];
    }
  }

  /** When every operand before i finishes and operand i fails, the loop fails the same way. */
  lemma {:induction false} SimplifyAllFailure(ops: seq<Real>, fuel: nat, i: nat)
    requires i < |ops|
    requires forall j :: 0 <= j < i ==> Simplify(ops[j], fuel).Done?
    requires !Simplify(ops[i], fuel).Done?
    ensures SimplifyAll(ops, fuel) == (if Simplify(ops[i], fuel).Panic? then Panic else OutOfFuel)
    decreases i
  {
    if i > 0 {
      assert forall j :: 0 <= j < i - 1 ==> ops[1..][j] == ops[j + 1];
      SimplifyAllFailure(ops[1..], fuel, i - 1);
    }
  }

  /** One step of the operand loop. */
  lemma SimplifyAllCons(x: Real, rest: seq<Real>, fuel: nat)
    ensures SimplifyAll([x] + rest, fuel) ==
      match Simplify(x, fuel)
      case Panic => Panic
      case OutOfFuel => OutOfFuel
      case Done(r) =>
        match SimplifyAll(rest, fuel)
        case Done(rs) => Done([r] + rs)
        case Panic => Panic
        case OutOfFuel => OutOfFuel
  {
    assert ([x] + rest)[1..] == rest;
  }

  /** The operand loop over two operands that both finish. */
  lemma SimplifyAllTwo(x: Real, y: Real, fuel: nat)
    requires Simplify(x, fuel).Done? && Simplify(y, fuel).Done?
    ensures SimplifyAll([x, y], fuel) == Done([Simplify(x, fuel).value, Simplify(y, fuel).value])
  {
    var sx, sy := Simplify(x, fuel).value, Simplify(y, fuel).value;
    SimplifyAllCons(y, [], fuel);
    assert [y] + [] == [y] && [sy] + [] == [sy];
    SimplifyAllCons(x, [y], fuel);
    assert [x] + [y] == [x, y] && [sx] + [sy] == [sx, sy];
  }

  // ---------------------------------------------------------------------
  // Rationals, logarithms, exponentials, products, powers, undefined
  // ---------------------------------------------------------------------

  /** An integer simplifies to itself, a fraction to its reduction. */
  lemma NumSimplify(q: Rationals.Rational, fuel: nat)
    requires fuel > 0
    ensures Simplify(Num(q), fuel) == Done(Num(Rationals.SimplifyRational(q)))
    ensures q.Integer? ==> Simplify(Num(q), fuel) == Done(Num(q))
  {
  }

  /**
   * The logarithm rules: log 1 (an integer 1, or a fraction that reduces to
   * 1) is 0, log(exp y) is y simplified, and any other argument is simplified
   * and wrapped in a logarithm again.
   */
  lemma LogSimplify(a: Real, fuel: nat)
    requires fuel > 0
    ensures a == IntNum(1) ==> Simplify(Log(a), fuel) == Done(IntNum(0))
    ensures a.Num? && a.q.Fraction? && Rationals.SimplifyRational(a.q) == Rationals.Integer(1) ==>
      Simplify(Log(a), fuel) == Done(IntNum(0))
    ensures a.Exponential? ==> Simplify(Log(a), fuel) == Simplify(a.arg, fuel - 1)
    ensures a.Num? && Rationals.SimplifyRational(a.q) != Rationals.Integer(1) ==>
      Simplify(Log(a), fuel) == (if fuel == 1 then OutOfFuel else Done(Log(Num(Rationals.SimplifyRational(a.q)))))
    ensures !a.Num? && !a.Exponential? && Simplify(a, fuel - 1).Done? ==>
      Simplify(Log(a), fuel) == Done(Log(Simplify(a, fuel - 1).value))
    ensures !a.Num? && !a.Exponential? && !Simplify(a, fuel - 1).Done? ==>
      Simplify(Log(a), fuel) == Simplify(a, fuel - 1)
  {
  }

  /**
   * The exponential rules: exp 0 (an integer 0, or a fraction that reduces to
   * 0) is 1, exp(log y) is y simplified, and any other argument is simplified
   * and wrapped in a LOGARITHM node.
   */
  lemma ExpSimplify(a: Real, fuel: nat)
    requires fuel > 0
    ensures a == IntNum(0) ==> Simplify(Exp(a), fuel) == Done(IntNum(1))
    ensures a.Num? && a.q.Fraction? && Rationals.SimplifyRational(a.q) == Rationals.Integer(0) ==>
      Simplify(Exp(a), fuel) == Done(IntNum(1))
    ensures a.Logarithm? ==> Simplify(Exp(a), fuel) == Simplify(a.arg, fuel - 1)
    ensures a.Num? && Rationals.SimplifyRational(a.q) != Rationals.Integer(0) ==>
      Simplify(Exp(a), fuel) == (if fuel == 1 then OutOfFuel else Done(Log(Num(Rationals.SimplifyRational(a.q)))))
    ensures !a.Num? && !a.Logarithm? && Simplify(a, fuel - 1).Done? ==>
      Simplify(Exp(a), fuel) == Done(Log(Simplify(a, fuel - 1).value))
    ensures !a.Num? && !a.Logarithm? && !Simplify(a, fuel - 1).Done? ==>
      Simplify(Exp(a), fuel) == Simplify(a, fuel - 1)
  {
  }

  /** log and exp cancel in either order, one simplification step at a time. */
  lemma LogExpCancel(y: Real, fuel: nat)
    ensures Simplify(Log(Exp(y)), fuel + 1) == Simplify(y, fuel)
    ensures Simplify(Exp(Log(y)), fuel + 1) == Simplify(y, fuel)
  {
  }

  /**
   * Simplify is not idempotent: exp(1) becomes log(1), because the default
   * rule of the exponential wraps a logarithm, and log(1) then becomes 0.
   */
  lemma SimplifyNotIdempotent(fuel: nat)
    requires fuel >= 2
    ensures Simplify(Exp(IntNum(1)), fuel) == Done(Log(IntNum(1)))
    ensures Simplify(Log(IntNum(1)), fuel) == Done(IntNum(0))
    ensures Log(IntNum(1)) != IntNum(0)
  {
  }

  /** A product simplifies to a SUM of its simplified factors, with nothing combined. */
  lemma ProductSimplify(ops: seq<Real>, fuel: nat)
    ensures SimplifyAll(ops, fuel).Done? ==> Simplify(Product(ops), fuel + 1) == Done(Sum(SimplifyAll(ops, fuel).value))
    ensures SimplifyAll(ops, fuel).Panic? <==> Simplify(Product(ops), fuel + 1).Panic?
    ensures Simplify(Product(ops), fuel + 1).Done? ==> Simplify(Product(ops), fuel + 1).value.Sum?
  {
  }

  /** Mul of two integers is the two-operand sum node, not their product. */
  lemma MulIntegers(a: Int64, b: Int64, fuel: nat)
    requires fuel >= 2
    ensures Mul(IntNum(a), IntNum(b), fuel) == Done(Sum([IntNum(a), IntNum(b)]))
  {
    assert ProductFactors(IntNum(a)) + ProductFactors(IntNum(b)) == [IntNum(a), IntNum(b)];
    SimplifyAllTwo(IntNum(a), IntNum(b), fuel - 1);
  }

  /** A power simplifies base and exponent independently and rebuilds the node. */
  lemma PowerSimplify(b: Real, e: Real, fuel: nat)
    requires Simplify(b, fuel).Done? && Simplify(e, fuel).Done?
    ensures Reals.Pow(b, e, fuel + 1) == Done(Power(Simplify(b, fuel).value, Simplify(e, fuel).value))
    ensures Simplify(b, fuel).value == b && Simplify(e, fuel).value == e ==> Reals.Pow(b, e, fuel + 1) == Done(Power(b, e))
  {
  }

  /** Undefined is a fixed point. */
  lemma UndefinedSimplify(fuel: nat)
    requires fuel > 0
    ensures Simplify(Undefined, fuel) == Done(Undefined)
  {
  }

  // ---------------------------------------------------------------------
  // Sums
  // ---------------------------------------------------------------------

  /** A two-operand sum whose operands finish continues with the pair table. */
  lemma PairStep(x: Real, y: Real, fuel: nat)
    requires fuel >= 1 && Simplify(x, fuel - 1).Done? && Simplify(y, fuel - 1).Done?
    ensures var sx, sy := Simplify(x, fuel - 1).value, Simplify(y, fuel - 1).value;
      Simplify(Sum([x, y]), fuel) ==
        match PairSum(sx, sy, fuel - 1)
        case Panic => Panic
        case OutOfFuel => OutOfFuel
        case Done(None) => Panic
        case Done(Some(p)) => Add(p, Sum([]), fuel - 1)
  {
    var sx, sy := Simplify(x, fuel - 1).value, Simplify(y, fuel - 1).value;
    SimplifyAllTwo(x, y, fuel - 1);
    assert [sx, sy][2..] == [];
  }

  /** A two-operand sum of operands that simplify to themselves and pair up continues with Add. */
  lemma PairStepSome(x: Real, y: Real, p: Real, fuel: nat)
    requires fuel >= 1 && Simplify(x, fuel - 1) == Done(x) && Simplify(y, fuel - 1) == Done(y)
    requires PairSum(x, y, fuel - 1) == Done(Some(p))
    ensures Simplify(Sum([x, y]), fuel) == Add(p, Sum([]), fuel - 1)
  {
    PairStep(x, y, fuel);
  }

  /** A one-operand sum is that operand simplified. */
  lemma SingletonSum(x: Real, fuel: nat)
    ensures Simplify(Sum([x]), fuel + 1) == Simplify(x, fuel)
  {
  }

  /** An empty sum panics (index out of range). */
  lemma EmptySumPanics(fuel: nat)
    requires fuel > 0
    ensures Simplify(Sum([]), fuel) == Panic
  {
  }

  /**
   * The pair table: two rationals combine with IntAdd when both are integers
   * and with RatAdd otherwise; two logarithms combine into the logarithm of
   * their product; any other partner after a rational or a logarithm gives a
   * two-operand sum; any other first operand gives no partial sum.
   */
  lemma PairSumTable(x: Real, y: Real, fuel: nat)
    ensures x.Num? && x.q.Integer? && y.Num? && y.q.Integer? ==>
      PairSum(x, y, fuel) == Done(Some(IntNum(IntAdd(x.q.value, y.q.value))))
    ensures x.Num? && y.Num? && !(x.q.Integer? && y.q.Integer?) ==>
      PairSum(x, y, fuel) == Done(Some(Num(Rationals.RatAdd(x.q, y.q))))
    ensures (x.Num? && !y.Num?) || (x.Logarithm? && !y.Logarithm?) ==>
      PairSum(x, y, fuel) == Done(Some(Sum([x, y])))
    ensures x.Logarithm? && y.Logarithm? && Mul(x, y, fuel).Done? ==>
      PairSum(x, y, fuel) == Done(Some(Log(Mul(x, y, fuel).value)))
    ensures !x.Num? && !x.Logarithm? ==> PairSum(x, y, fuel) == Done(None)
  {
  }

  /**
   * A sum of two or more operands whose first operand, once simplified, is not
   * a rational or a logarithm leaves the partial sum nil: Go panics.
   */
  lemma NilPartialSumPanics(ops: seq<Real>, fuel: nat)
    requires |ops| >= 2
    requires forall i :: 0 <= i < |ops| ==> Simplify(ops[i], fuel).Done?
    requires var sx := Simplify(ops[0], fuel).value; !sx.Num? && !sx.Logarithm?
    ensures Simplify(Sum(ops), fuel + 1) == Panic
  {
    SimplifyAllSpec(ops, fuel);
    var rs := SimplifyAll(ops, fuel).value;
    PairSumTable(rs[0], rs[1], fuel);
  }

  /** Undefined + Undefined panics. */
  lemma UndefinedSumPanics(fuel: nat)
    requires fuel >= 2
    ensures Simplify(Sum([Undefined, Undefined]), fuel) == Panic
  {
    var ops := [Undefined, Undefined];
    assert Simplify(ops[0], fuel - 1) == Done(Undefined);
    assert Simplify(ops[1], fuel - 1) == Done(Undefined);
    NilPartialSumPanics(ops, fuel - 1);
  }

  /** The sum of a list of integers, over the unbounded integers. */
  function Total(vs: seq<Int64>): int {
    if vs == [] then 0 else vs[0] + Total(vs[1..])
  }

  function IntNums(vs: seq<Int64>): (rs: seq<Real>)
    ensures |rs| == |vs| && forall i :: 0 <= i < |vs| ==> rs[i] == IntNum(vs[i])
  {
    seq(|vs|, i requires 0 <= i < |vs| => IntNum(vs[i]))
  }

  /**
   * A sum of integers folds to the integer their total wraps to, given one
   * more unit of fuel than there are operands.
   */
  lemma {:induction false} IntegerSum(vs: seq<Int64>, fuel: nat)
    requires |vs| >= 1 && fuel > |vs|
    ensures Simplify(Sum(IntNums(vs)), fuel) == Done(IntNum(Wrap(Total(vs))))
    decreases |vs|
  {
    var ops := IntNums(vs);
    if |vs| == 1 {
      assert Total(vs) == vs[0];
      assert ops == [IntNum(vs[0])];
    } else {
      IntegersFixed(vs, fuel - 1);
      var a, b := vs[0], vs[1];
      var vs' := [IntAdd(a, b)] + vs[2..];
      SumStep(ops, IntNum(IntAdd(a, b)), fuel);
      IntegerStep(vs);
      IntegerSum(vs', fuel - 1);
    }
  }

  /** A sum of at least two operands that simplify to themselves continues with their pair. */
  lemma SumStep(ops: seq<Real>, p: Real, fuel: nat)
    requires fuel >= 1 && |ops| >= 2 && SimplifyAll(ops, fuel - 1) == Done(ops)
    requires PairSum(ops[0], ops[1], fuel - 1) == Done(Some(p))
    ensures Simplify(Sum(ops), fuel) == Add(p, Sum(ops[2..]), fuel - 1)
  {
  }

  /** Folding the first two integers keeps the wrapped total and the shape of the operand list. */
  lemma IntegerStep(vs: seq<Int64>)
    requires |vs| >= 2
    ensures var vs' := [IntAdd(vs[0], vs[1])] + vs[2..];
      && SumTerms(IntNum(IntAdd(vs[0], vs[1]))) + SumTerms(Sum(IntNums(vs)[2..])) == IntNums(vs')
      && Wrap(Total(vs')) == Wrap(Total(vs))
  {
    IntNumsStep(vs);
    TotalStep(vs);
  }

  lemma IntNumsStep(vs: seq<Int64>)
    requires |vs| >= 2
    ensures SumTerms(IntNum(IntAdd(vs[0], vs[1]))) + SumTerms(Sum(IntNums(vs)[2..])) == IntNums([IntAdd(vs[0], vs[1])] + vs[2..])
  {
    var ops := IntNums(vs);
    var vs' := [IntAdd(vs[0], vs[1])] + vs[2..];
    var ops' := [IntNum(IntAdd(vs[0], vs[1]))] + ops[2..];
    assert |ops'| == |vs'|;
    assert forall i :: 0 <= i < |ops'| ==> ops'[i] == IntNum(vs'[i]);
  }

  lemma TotalStep(vs: seq<Int64>)
    requires |vs| >= 2
    ensures Wrap(Total([IntAdd(vs[0], vs[1])] + vs[2..])) == Wrap(Total(vs))
  {
    var c := IntAdd(vs[0], vs[1]);
    TotalCons(c, vs[2..]);
    TotalTwo(vs);
    IntAddThenAdd(Total([c] + vs[2..]), Total(vs), vs[0], vs[1], Total(vs[2..]));
  }

  lemma TotalCons(c: Int64, rest: seq<Int64>)
    ensures Total([c] + rest) == c + Total(rest)
  {
    assert ([c] + rest)[1..] == rest;
  }

  lemma TotalTwo(vs: seq<Int64>)
    requires |vs| >= 2
    ensures Total(vs) == vs[0] as int + vs[1] as int + Total(vs[2..])
  {
    assert vs[1..][1..] == vs[2..];
  }

  /** Integers simplify to themselves, so the operand loop returns them unchanged. */
  lemma IntegersFixed(vs: seq<Int64>, fuel: nat)
    requires fuel > 0
    ensures SimplifyAll(IntNums(vs), fuel) == Done(IntNums(vs))
  {
    var ops := IntNums(vs);
    SimplifyAllSpec(ops, fuel);
    assert forall i :: 0 <= i < |ops| ==> Simplify(ops[i], fuel) == Done(ops[i]);
    assert SimplifyAll(ops, fuel).value == ops;
  }

  /** Add(3, 4) == 7, and in general Add of two integers is their wrapped sum. */
  lemma AddIntegers(a: Int64, b: Int64, fuel: nat)
    requires fuel >= 3
    ensures Add(IntNum(a), IntNum(b), fuel) == Done(IntNum(IntAdd(a, b)))
    ensures Add(IntNum(3), IntNum(4), fuel) == Done(IntNum(7))
  {
    assert SumTerms(IntNum(a)) + SumTerms(IntNum(b)) == IntNums([a, b]);
    IntegerSum([a, b], fuel);
    assert [a, b][1..] == [b] && [b][1..] == [];
    assert SumTerms(IntNum(3)) + SumTerms(IntNum(4)) == IntNums([3, 4]);
    IntegerSum([3, 4], fuel);
    assert [3, 4][1..] == [4] && [4][1..] == [];
    assert Total([3, 4]) == 7;
  }

  /** Add splices one level of sum operands from each side, in order. */
  lemma AddFlattens(xs: seq<Real>, ys: seq<Real>, x: Real, y: Real, fuel: nat)
    requires !x.Sum? && !y.Sum?
    ensures Add(Sum(xs), Sum(ys), fuel) == Simplify(Sum(xs + ys), fuel)
    ensures Add(x, y, fuel) == Simplify(Sum([x, y]), fuel)
    ensures Add(Sum(xs), y, fuel) == Simplify(Sum(xs + [y]), fuel)
    ensures Add(x, Sum(ys), fuel) == Simplify(Sum([x] + ys), fuel)
  {
    assert [x] + [y] == [x, y];
  }

  /** Mul splices one level of product factors from each side, in order. */
  lemma MulFlattens(xs: seq<Real>, ys: seq<Real>, x: Real, y: Real, fuel: nat)
    requires !x.Product? && !y.Product?
    ensures Mul(Product(xs), Product(ys), fuel) == Simplify(Product(xs + ys), fuel)
    ensures Mul(x, y, fuel) == Simplify(Product([x, y]), fuel)
    ensures Mul(Product(xs), y, fuel) == Simplify(Product(xs + [y]), fuel)
    ensures Mul(x, Product(ys), fuel) == Simplify(Product([x] + ys), fuel)
  {
    assert [x] + [y] == [x, y];
  }

  /**
   * Two rationals that are not both integers and that reduction leaves alone
   * are added by RatAdd, whose result is reduced once more.
   */
  lemma RationalPair(u: Rationals.Rational, w: Rationals.Rational, fuel: nat)
    requires fuel >= 3
    requires !(u.Integer? && w.Integer?)
    requires Rationals.SimplifyRational(u) == u && Rationals.SimplifyRational(w) == w
    ensures Simplify(Sum([Num(u), Num(w)]), fuel) ==
      Done(Num(Rationals.SimplifyRational(Rationals.RatAdd(u, w))))
  {
    NumSimplify(u, fuel - 1);
    NumSimplify(w, fuel - 1);
    PairSumTable(Num(u), Num(w), fuel - 1);
    PairStepSome(Num(u), Num(w), Num(Rationals.RatAdd(u, w)), fuel);
    AddRationalToEmpty(Rationals.RatAdd(u, w), fuel - 1);
  }

  /** The last step of a two-operand sum: the partial sum alone, simplified. */
  lemma AddRationalToEmpty(r: Rationals.Rational, fuel: nat)
    requires fuel >= 2
    ensures Add(Num(r), Sum([]), fuel) == Done(Num(Rationals.SimplifyRational(r)))
  {
    assert SumTerms(Num(r)) + SumTerms(Sum([])) == [Num(r)];
    SingletonSum(Num(r), fuel - 1);
    NumSimplify(r, fuel - 1);
  }

  /**
   * Two rationals in lowest terms that are not both integers add up, through
   * the simplifier, to their reduced sum when nothing overflows.
   */
  lemma RationalPairSum(u: Rationals.Rational, w: Rationals.Rational, fuel: nat)
    requires fuel >= 3
    requires !(u.Integer? && w.Integer?)
    requires Rationals.Reduced(u) && Rationals.Reduced(w)
    requires u.Fraction? ==> Rationals.Safe(u.num, u.den)
    requires w.Fraction? ==> Rationals.Safe(w.num, w.den)
    requires var nu, du, nw, dw := Rationals.Numerator(u), Rationals.Denominator(u), Rationals.Numerator(w), Rationals.Denominator(w);
      Rationals.Safe(nu * dw + du * nw, du * dw)
    ensures Simplify(Sum([Num(u), Num(w)]), fuel) == Done(Num(Rationals.RatAdd(u, w)))
    ensures var nu, du, nw, dw := Rationals.Numerator(u), Rationals.Denominator(u), Rationals.Numerator(w), Rationals.Denominator(w);
      Rationals.Represents(Rationals.RatAdd(u, w), nu * dw + du * nw, du * dw) && Rationals.Reduced(Rationals.RatAdd(u, w))
  {
    Rationals.ReducedIsFixed(u);
    Rationals.ReducedIsFixed(w);
    RationalPair(u, w, fuel);
    AddStaysReduced(u, w);
  }

  /** A reduced sum that does not overflow is a fixed point of reduction. */
  lemma AddStaysReduced(u: Rationals.Rational, w: Rationals.Rational)
    requires Rationals.Proper(u) && Rationals.Proper(w)
    requires var nu, du, nw, dw := Rationals.Numerator(u), Rationals.Denominator(u), Rationals.Numerator(w), Rationals.Denominator(w);
      Rationals.Safe(nu * dw + du * nw, du * dw)
    ensures var nu, du, nw, dw := Rationals.Numerator(u), Rationals.Denominator(u), Rationals.Numerator(w), Rationals.Denominator(w);
      Rationals.Represents(Rationals.RatAdd(u, w), nu * dw + du * nw, du * dw) && Rationals.Reduced(Rationals.RatAdd(u, w))
    ensures Rationals.SimplifyRational(Rationals.RatAdd(u, w)) == Rationals.RatAdd(u, w)
  {
    var nu: int, du: int, nw: int, dw: int := Rationals.Numerator(u), Rationals.Denominator(u), Rationals.Numerator(w), Rationals.Denominator(w);
    var n, d := nu * dw + du * nw, du * dw;
    var r := Rationals.RatAdd(u, w);
    Rationals.RatAddValue(u, w);
    assert Rationals.Represents(r, n, d) && Rationals.Reduced(r) && Rationals.Safe(n, d);
    Rationals.ReducedSafeIsFixed(r, n, d);
  }

  // ---------------------------------------------------------------------
  // Non-termination
  // ---------------------------------------------------------------------

  /**
   * 1 + UNDEFINED never finishes: the pair is rebuilt as the same two-operand
   * sum and fed back through Add.
   */
  lemma {:induction false} RebuiltPairDiverges(fuel: nat)
    ensures Simplify(Sum([IntNum(1), Undefined]), fuel) == OutOfFuel
  {
    var ops := [IntNum(1), Undefined];
    if fuel >= 2 {
      assert PairSum(ops[0], ops[1], fuel - 1) == Done(Some(Sum(ops)));
      PairStepSome(IntNum(1), Undefined, Sum(ops), fuel);
      assert SumTerms(Sum(ops)) + SumTerms(Sum([])) == ops;
      RebuiltPairDiverges(fuel - 1);
    } else if fuel == 1 {
      assert Simplify(IntNum(1), 0) == OutOfFuel;
    }
  }

  /**
   * log 2 + log 3 never finishes: the two logarithms become the logarithm of
   * their product, the product simplifies to the sum log 2 + log 3 again, and
   * the logarithm rule simplifies that sum.
   */
  lemma {:induction false} LogPairDiverges(fuel: nat)
    ensures Simplify(Sum([Log(IntNum(2)), Log(IntNum(3))]), fuel) == OutOfFuel
  {
    var l2, l3 := Log(IntNum(2)), Log(IntNum(3));
    var ops := [l2, l3];
    if fuel >= 4 {
      var f := fuel - 1;
      assert Simplify(l2, f) == Done(l2) && Simplify(l3, f) == Done(l3);
      SimplifyAllTwo(l2, l3, f);
      assert ProductFactors(l2) + ProductFactors(l3) == ops;
      SimplifyAllTwo(l2, l3, f - 1);
      assert Mul(l2, l3, f) == Done(Sum(ops));
      assert PairSum(l2, l3, f) == Done(Some(Log(Sum(ops))));
      assert SumTerms(Log(Sum(ops))) + SumTerms(Sum([])) == [Log(Sum(ops))];
      assert Add(Log(Sum(ops)), Sum([]), f) == Simplify(Sum([Log(Sum(ops))]), f);
      assert Simplify(Sum([Log(Sum(ops))]), f) == Simplify(Log(Sum(ops)), f - 1);
      LogPairDiverges(f - 2);
      assert Simplify(Log(Sum(ops)), f - 1) == OutOfFuel;
    } else {
      LogPairShort(fuel);
    }
  }

  lemma LogPairShort(fuel: nat)
    requires fuel < 4
    ensures Simplify(Sum([Log(IntNum(2)), Log(IntNum(3))]), fuel) == OutOfFuel
  {
    if fuel == 3 {
      LogPairThree();
    } else if fuel == 2 {
      LogPairTwo();
    }
  }

  lemma LogPairThree()
    ensures Simplify(Sum([Log(IntNum(2)), Log(IntNum(3))]), 3) == OutOfFuel
  {
    var l2, l3 := Log(IntNum(2)), Log(IntNum(3));
    var ops := [l2, l3];
    SimplifyAllTwo(l2, l3, 2);
    assert ProductFactors(l2) + ProductFactors(l3) == ops;
    SimplifyAllCons(l2, [l3], 1);
    assert [l2] + [l3] == ops;
  }

  lemma LogPairTwo()
    ensures Simplify(Sum([Log(IntNum(2)), Log(IntNum(3))]), 2) == OutOfFuel
  {
    var l2, l3 := Log(IntNum(2)), Log(IntNum(3));
    SimplifyAllCons(l2, [l3], 1);
    assert [l2] + [l3] == [l2, l3];
  }
}
