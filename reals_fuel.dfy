/**
 * The fuel bound is only a bound: once the simplifier finishes (with a value
 * or a panic) at some fuel, it finishes the same way with any larger fuel.
 * So every Done and Panic result the lemmas state is the behaviour of the
 * unbounded Go code.
 */
module RealFuel {
  import opened Reals

  /** One more unit of fuel changes nothing about a result that was reached. */
  lemma {:induction false} SimplifyFuel(x: Real, fuel: nat)
    ensures Simplify(x, fuel).OutOfFuel? || Simplify(x, fuel + 1) == Simplify(x, fuel)
    decreases fuel, 0, 2
  {
    if fuel > 0 {
      match x
      case Num(_) =>
      case Logarithm(a) => LogFuel(a, fuel);
      case Exponential(a) => ExpFuel(a, fuel);
      case Sum(ops) => SumFuel(ops, fuel);
      case Product(ops) => ProductFuel(ops, fuel);
      case Power(b, e) => PowerFuel(b, e, fuel);
      case Undefined =>
    }
  }

  lemma {:induction false} LogFuel(a: Real, fuel: nat)
    requires fuel > 0
    ensures Simplify(Log(a), fuel).OutOfFuel? || Simplify(Log(a), fuel + 1) == Simplify(Log(a), fuel)
    decreases fuel, 0, 1
  {
    if a.Exponential? {
      SimplifyFuel(a.arg, fuel - 1);
    } else {
      SimplifyFuel(a, fuel - 1);
    }
  }

  lemma {:induction false} ExpFuel(a: Real, fuel: nat)
    requires fuel > 0
    ensures Simplify(Exp(a), fuel).OutOfFuel? || Simplify(Exp(a), fuel + 1) == Simplify(Exp(a), fuel)
    decreases fuel, 0, 1
  {
    if a.Logarithm? {
      SimplifyFuel(a.arg, fuel - 1);
    } else {
      SimplifyFuel(a, fuel - 1);
    }
  }

  lemma {:induction false} ProductFuel(ops: seq<Real>, fuel: nat)
    requires fuel > 0
    ensures Simplify(Product(ops), fuel).OutOfFuel? || Simplify(Product(ops), fuel + 1) == Simplify(Product(ops), fuel)
    decreases fuel, 0, 1
  {
    SimplifyAllFuel(ops, fuel - 1);
  }

  lemma {:induction false} PowerFuel(b: Real, e: Real, fuel: nat)
    requires fuel > 0
    ensures Simplify(Power(b, e), fuel).OutOfFuel? || Simplify(Power(b, e), fuel + 1) == Simplify(Power(b, e), fuel)
    decreases fuel, 0, 1
  {
    SimplifyFuel(b, fuel - 1);
    SimplifyFuel(e, fuel - 1);
  }

  /** The sum case: the operand loop and then the combination of the first pair keep their result. */
  lemma {:induction false} SumFuel(ops: seq<Real>, fuel: nat)
    requires fuel > 0
    ensures Simplify(Sum(ops), fuel).OutOfFuel? || Simplify(Sum(ops), fuel + 1) == Simplify(Sum(ops), fuel)
    decreases fuel, 0, 1
  {
    if |ops| == 1 {
      SimplifyFuel(ops[0], fuel - 1);
    } else {
      SimplifyAllFuel(ops, fuel - 1);
      var all := SimplifyAll(ops, fuel - 1);
      if all.Done? {
        CombineFuel(all.value, fuel - 1);
      }
    }
  }

  lemma {:induction false} CombineFuel(rs: seq<Real>, fuel: nat)
    ensures CombineFirstPair(rs, fuel).OutOfFuel? || CombineFirstPair(rs, fuel + 1) == CombineFirstPair(rs, fuel)
    decreases fuel, 3, 0
  {
    if |rs| >= 2 {
      PairSumFuel(rs[0], rs[1], fuel);
      var ps := PairSum(rs[0], rs[1], fuel);
      if ps.Done? && ps.value.Some? {
        SimplifyFuel(Sum(SumTerms(ps.value.value) + SumTerms(Sum(rs[2..]))), fuel);
      }
    }
  }

  lemma {:induction false} SimplifyAllFuel(ops: seq<Real>, fuel: nat)
    ensures SimplifyAll(ops, fuel).OutOfFuel? || SimplifyAll(ops, fuel + 1) == SimplifyAll(ops, fuel)
    decreases fuel, 1, |ops|
  {
    if ops != [] {
      SimplifyFuel(ops[0], fuel);
      SimplifyAllFuel(ops[1..], fuel);
    }
  }

  lemma {:induction false} PairSumFuel(x: Real, y: Real, fuel: nat)
    ensures PairSum(x, y, fuel).OutOfFuel? || PairSum(x, y, fuel + 1) == PairSum(x, y, fuel)
    decreases fuel, 2, 0
  {
    if x.Logarithm? && y.Logarithm? {
      SimplifyFuel(Product(ProductFactors(x) + ProductFactors(y)), fuel);
    }
  }

  /** Any larger fuel gives the same finished result. */
  lemma {:induction false} FuelIrrelevant(x: Real, fuel: nat, more: nat)
    requires fuel <= more && !Simplify(x, fuel).OutOfFuel?
    ensures Simplify(x, more) == Simplify(x, fuel)
    decreases more - fuel
  {
    if fuel < more {
      SimplifyFuel(x, fuel);
      FuelIrrelevant(x, fuel + 1, more);
    }
  }

  /** Two fuels that both finish agree, so a finished result is a property of x alone. */
  lemma FuelsAgree(x: Real, f1: nat, f2: nat)
    requires !Simplify(x, f1).OutOfFuel? && !Simplify(x, f2).OutOfFuel?
    ensures Simplify(x, f1) == Simplify(x, f2)
  {
    if f1 <= f2 {
      FuelIrrelevant(x, f1, f2);
    } else {
      FuelIrrelevant(x, f2, f1);
    }
  }
}
