/**
 * The sum of rationals as `sum.Simplify` computes it: the first two
 * simplified operands are combined by the pair table, the partial sum is put
 * in front of the remaining operands, and the whole list goes through the
 * simplifier again, so every remaining operand is reduced once more in each
 * round. RatFold follows those rounds, the simplifier is proved to compute
 * it, and its value is proved to be the sum of the operands when no partial
 * sum overflows.
 */
module RealSums {
  import opened Wrappers
  import opened Integers
  import Rationals
  import opened Reals
  import RealLaws

  /** Each rational as a Num operand. */
  function Nums(qs: seq<Rational>): (rs: seq<Real>)
    ensures |rs| == |qs| && forall i :: 0 <= i < |qs| ==> rs[i] == Num(qs[i])
  {
    seq(|qs|, i requires 0 <= i < |qs| => Num(qs[i]))
  }

  /** Each rational reduced, as the simplifier reduces a Num operand. */
  function Reduce(qs: seq<Rational>): (rs: seq<Rational>)
    ensures |rs| == |qs| && forall i :: 0 <= i < |qs| ==> rs[i] == Rationals.SimplifyRational(qs[i])
  {
    seq(|qs|, i requires 0 <= i < |qs| => Rationals.SimplifyRational(qs[i]))
  }

  /** The pair table on two rationals: IntAdd for two integers, RatAdd otherwise. */
  function PairAdd(a: Rational, b: Rational): Rational {
    if a.Integer? && b.Integer? then Rationals.Integer(IntAdd(a.value, b.value)) else Rationals.RatAdd(a, b)
  }

  /**
   * The rounds of sum.Simplify from the partial sum acc in front of the
   * remaining operands vs: all of them are reduced, the first two are
   * combined, and the rest goes round again; a lone partial sum is reduced.
   */
  function RatFold(acc: Rational, vs: seq<Rational>): Rational
    decreases |vs|
  {
    if vs == [] then Rationals.SimplifyRational(acc)
    else RatFold(PairAdd(Rationals.SimplifyRational(acc), Rationals.SimplifyRational(vs[0])), Reduce(vs[1..]))
  }

  /** What sum.Simplify returns for operands that simplify to qs. */
  function RationalSum(qs: seq<Rational>): Rational
    requires |qs| >= 1
  {
    if |qs| == 1 then qs[0] else RatFold(PairAdd(qs[0], qs[1]), qs[2..])
  }

  // ---------------------------------------------------------------------
  // The simplifier computes RatFold
  // ---------------------------------------------------------------------

  /** Every Num operand simplifies to its reduction. */
  lemma SimplifyNums(qs: seq<Rational>, fuel: nat)
    requires fuel > 0
    ensures SimplifyAll(Nums(qs), fuel) == Done(Nums(Reduce(qs)))
  {
    var ops := Nums(qs);
    forall i | 0 <= i < |ops| ensures Simplify(ops[i], fuel) == Done(Nums(Reduce(qs))[i]) {
      RealLaws.NumSimplify(qs[i], fuel);
    }
    RealLaws.SimplifyAllSpec(ops, fuel);
    assert SimplifyAll(ops, fuel).value == Nums(Reduce(qs));
  }

  /** Two rationals go through the pair table as PairAdd. */
  lemma PairSumNums(a: Rational, b: Rational, fuel: nat)
    ensures PairSum(Num(a), Num(b), fuel) == Done(Some(Num(PairAdd(a, b))))
  {
    RealLaws.PairSumTable(Num(a), Num(b), fuel);
  }

  /** One round of a sum of at least two operands whose first pair combines to p. */
  lemma SumRound(ops: seq<Real>, rs: seq<Real>, p: Real, fuel: nat)
    requires fuel >= 1 && |ops| >= 2 && SimplifyAll(ops, fuel - 1) == Done(rs)
    requires |rs| >= 2 && PairSum(rs[0], rs[1], fuel - 1) == Done(Some(p))
    requires !p.Sum?
    ensures Simplify(Sum(ops), fuel) == Simplify(Sum([p] + rs[2..]), fuel - 1)
  {
    assert Simplify(Sum(ops), fuel) == CombineFirstPair(rs, fuel - 1);
    assert CombineFirstPair(rs, fuel - 1) == Add(p, Sum(rs[2..]), fuel - 1);
    assert SumTerms(p) + SumTerms(Sum(rs[2..])) == [p] + rs[2..];
  }

  /** A partial sum in front of Num operands simplifies to RatFold, given enough fuel. */
  lemma {:induction false} FoldSum(acc: Rational, vs: seq<Rational>, fuel: nat)
    requires fuel >= |vs| + 2
    ensures Simplify(Sum([Num(acc)] + Nums(vs)), fuel) == Done(Num(RatFold(acc, vs)))
    decreases |vs|
  {
    var ops := [Num(acc)] + Nums(vs);
    if vs == [] {
      assert ops == [Num(acc)];
      RealLaws.SingletonSum(Num(acc), fuel - 1);
      RealLaws.NumSimplify(acc, fuel - 1);
    } else {
      var f := fuel - 1;
      var qs := [acc] + vs;
      assert ops == Nums(qs);
      SimplifyNums(qs, f);
      var rs := Nums(Reduce(qs));
      var a, b := Rationals.SimplifyRational(acc), Rationals.SimplifyRational(vs[0]);
      assert rs[0] == Num(a) && rs[1] == Num(b);
      PairSumNums(a, b, f);
      var p := PairAdd(a, b);
      SumRound(ops, rs, Num(p), fuel);
      assert rs[2..] == Nums(Reduce(vs[1..]));
      FoldSum(p, Reduce(vs[1..]), f);
    }
  }

  /**
   * A sum whose operands each simplify to a rational simplifies to the
   * RationalSum of those rationals, given one more unit of fuel than there
   * are operands.
   */
  lemma SumOfRationals(ops: seq<Real>, qs: seq<Rational>, fuel: nat)
    requires |ops| == |qs| >= 1 && fuel > |ops|
    requires forall i :: 0 <= i < |ops| ==> Simplify(ops[i], fuel - 1) == Done(Num(qs[i]))
    ensures Simplify(Sum(ops), fuel) == Done(Num(RationalSum(qs)))
  {
    if |ops| == 1 {
      assert ops == [ops[0]];
      RealLaws.SingletonSum(ops[0], fuel - 1);
    } else {
      var f := fuel - 1;
      RealLaws.SimplifyAllSpec(ops, f);
      assert SimplifyAll(ops, f).value == Nums(qs);
      var rs := Nums(qs);
      PairSumNums(qs[0], qs[1], f);
      var p := PairAdd(qs[0], qs[1]);
      SumRound(ops, rs, Num(p), fuel);
      assert [Num(p)] + rs[2..] == [Num(p)] + Nums(qs[2..]);
      FoldSum(p, qs[2..], f);
    }
  }

  // ---------------------------------------------------------------------
  // The value of RatFold
  // ---------------------------------------------------------------------

  /** The number a proper rational denotes (0 for a zero denominator, which denotes none). */
  function Val(u: Rational): real {
    match u
    case Integer(v) => v as real
    case Fraction(n, d) => if d == 0 then 0.0 else n as real / d as real
  }

  /** The sum of the numbers the rationals denote. */
  function SumVal(vs: seq<Rational>): real {
    if vs == [] then 0.0 else Val(vs[0]) + SumVal(vs[1..])
  }

  /** A rational in lowest terms that reduction can handle without overflow. */
  predicate Operand(q: Rational) {
    Rationals.Proper(q) && Rationals.Reduced(q) && (q.Fraction? ==> Rationals.Safe(q.num, q.den))
  }

  /** The cross multiplication by which acc and w are added does not overflow. */
  predicate StepSafe(acc: Rational, w: Rational) {
    var na, da, nw, dw := Rationals.Numerator(acc), Rationals.Denominator(acc), Rationals.Numerator(w), Rationals.Denominator(w);
    Rationals.Safe(na * dw + da * nw, da * dw)
  }

  /** No partial sum of the fold from acc over vs overflows. */
  predicate FoldSafe(acc: Rational, vs: seq<Rational>)
    decreases |vs|
  {
    vs == [] || (StepSafe(acc, vs[0]) && FoldSafe(PairAdd(acc, vs[0]), vs[1..]))
  }

  /** Two quotients with equal cross products are equal. */
  lemma QuotientsEqual(a: real, b: real, n: real, d: real)
    requires b != 0.0 && d != 0.0 && a * d == n * b
    ensures a / b == n / d
  {
    assert a / b == (a * d) / (b * d);
    assert n / d == (n * b) / (b * d);
  }

  /** The sum of two quotients over the product of their denominators. */
  lemma QuotientSum(a: real, b: real, c: real, d: real)
    requires b != 0.0 && d != 0.0
    ensures (a * d + b * c) / (b * d) == a / b + c / d
  {
    assert a / b == (a * d) / (b * d);
    assert c / d == (b * c) / (b * d);
  }

  lemma RepresentsVal(r: Rational, n: int, d: int)
    requires Rationals.Represents(r, n, d)
    ensures Rationals.Proper(r) && Val(r) == n as real / d as real
  {
    match r
    case Integer(v) =>
      assert (v * d) as real == v as real * d as real;
      QuotientsEqual(v as real, 1.0, n as real, d as real);
    case Fraction(a, b) =>
      assert (a * d) as real == a as real * d as real && (n * b) as real == n as real * b as real;
      QuotientsEqual(a as real, b as real, n as real, d as real);
  }

  lemma CrossVal(na: int, da: int, nw: int, dw: int)
    requires da > 0 && dw > 0
    ensures (na * dw + da * nw) as real / (da * dw) as real == na as real / da as real + nw as real / dw as real
  {
    assert (na * dw + da * nw) as real == na as real * dw as real + da as real * nw as real;
    assert (da * dw) as real == da as real * dw as real;
    QuotientSum(na as real, da as real, nw as real, dw as real);
  }

  /** A step of the fold keeps its operands in lowest terms and adds their values. */
  lemma PairAddValue(a: Rational, w: Rational)
    requires Operand(a) && Operand(w) && StepSafe(a, w)
    ensures Operand(PairAdd(a, w))
    ensures Val(PairAdd(a, w)) == Val(a) + Val(w)
  {
    var na: int, da: int, nw: int, dw: int := Rationals.Numerator(a), Rationals.Denominator(a), Rationals.Numerator(w), Rationals.Denominator(w);
    var n, d := na * dw + da * nw, da * dw;
    if a.Integer? && w.Integer? {
      assert n == a.value as int + w.value as int && d == 1;
      Rationals.SafeBounds(n, d);
    } else {
      var r := Rationals.RatAdd(a, w);
      Rationals.RatAddValue(a, w);
      RepresentsVal(r, n, d);
      if r.Fraction? {
        Rationals.ReducedNoLarger(r, n, d);
        Rationals.SafeShrink(r.num, r.den, n, d);
      }
      Rationals.NumeratorDenominator(a);
      Rationals.NumeratorDenominator(w);
      RepresentsVal(a, na, da);
      RepresentsVal(w, nw, dw);
      CrossVal(na, da, nw, dw);
    }
  }

  lemma OperandFixed(q: Rational)
    requires Operand(q)
    ensures Rationals.SimplifyRational(q) == q
  {
    Rationals.ReducedIsFixed(q);
  }

  lemma ReduceFixed(vs: seq<Rational>)
    requires forall i :: 0 <= i < |vs| ==> Operand(vs[i])
    ensures Reduce(vs) == vs
  {
    forall i | 0 <= i < |vs| ensures Reduce(vs)[i] == vs[i] {
      OperandFixed(vs[i]);
    }
  }

  /**
   * Without overflow in any partial sum, folding operands in lowest terms
   * gives a rational in lowest terms whose value is the partial sum plus the
   * sum of the operands.
   */
  lemma {:induction false} FoldValue(acc: Rational, vs: seq<Rational>)
    requires Operand(acc) && forall i :: 0 <= i < |vs| ==> Operand(vs[i])
    requires FoldSafe(acc, vs)
    ensures Operand(RatFold(acc, vs))
    ensures Val(RatFold(acc, vs)) == Val(acc) + SumVal(vs)
    decreases |vs|
  {
    OperandFixed(acc);
    if vs != [] {
      OperandFixed(vs[0]);
      ReduceFixed(vs[1..]);
      var p := PairAdd(acc, vs[0]);
      assert RatFold(acc, vs) == RatFold(p, vs[1..]);
      PairAddValue(acc, vs[0]);
      FoldValue(p, vs[1..]);
      var x, y, z := Val(acc), Val(vs[0]), SumVal(vs[1..]);
      assert SumVal(vs) == y + z;
      assert Val(p) == x + y;
      assert Val(RatFold(p, vs[1..])) == Val(p) + z;
    }
  }

  /** Without overflow in any partial sum, RationalSum is the sum of its operands in lowest terms. */
  lemma RationalSumValue(qs: seq<Rational>)
    requires |qs| >= 1 && forall i :: 0 <= i < |qs| ==> Operand(qs[i])
    requires FoldSafe(qs[0], qs[1..])
    ensures Operand(RationalSum(qs))
    ensures Val(RationalSum(qs)) == SumVal(qs)
  {
    if |qs| >= 2 {
      assert qs[1..][1..] == qs[2..];
      PairAddValue(qs[0], qs[1]);
      FoldValue(PairAdd(qs[0], qs[1]), qs[2..]);
      assert SumVal(qs[1..]) == Val(qs[1]) + SumVal(qs[2..]);
    }
  }

  /**
   * sum.Simplify adds rationals: a sum whose operands simplify to rationals
   * in lowest terms, with no partial sum overflowing, simplifies to a rational
   * in lowest terms whose value is the sum of theirs.
   */
  lemma SumOfRationalsValue(ops: seq<Real>, qs: seq<Rational>, fuel: nat)
    requires |ops| == |qs| >= 1 && fuel > |ops|
    requires forall i :: 0 <= i < |ops| ==> Simplify(ops[i], fuel - 1) == Done(Num(qs[i]))
    requires forall i :: 0 <= i < |qs| ==> Operand(qs[i])
    requires FoldSafe(qs[0], qs[1..])
    ensures Simplify(Sum(ops), fuel).Done? && Simplify(Sum(ops), fuel).value.Num?
    ensures var r := Simplify(Sum(ops), fuel).value.q;
      Operand(r) && Val(r) == SumVal(qs)
  {
    SumOfRationals(ops, qs, fuel);
    RationalSumValue(qs);
  }
}
