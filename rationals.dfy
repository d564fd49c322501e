/**
 * The rational layer: Go's `rational` interface, implemented by `integer`
 * and `fraction`. A fraction is a numerator/denominator pair of int64 values;
 * the zero struct 0/0 is the sentinel `EmptyFraction`, which every rational
 * operation returns in place of an error.
 *
 * The arithmetic is int64 arithmetic with wrap-around, exactly as the Go code
 * computes it. The value properties therefore carry a no-overflow hypothesis,
 * `Safe(n, d)`: the fraction n/d that the operation builds is representable
 * and the product n * d that `Frac` uses for its sign test does not overflow.
 * Reduction needs only `ReduceSafe(n, d)`: the pair left after dividing n
 * and d by their gcd, which is the pair `Frac` then sees, is `Safe`.
 */
module Rationals {
  import opened Wrappers
  import opened Integers
  import opened Arith
  import Text

  /** The two implementations of Go's `rational`. */
  datatype Rational = Integer(value: Int64) | Fraction(num: Int64, den: Int64)

  /** The zero `fraction` struct, 0/0, returned where an operation fails. */
  const EmptyFraction: Rational := Fraction(0, 0)

  // ---------------------------------------------------------------------
  // Meaning of a rational
  // ---------------------------------------------------------------------

  /** A rational that denotes a number: an integer, or a fraction with den > 0. */
  predicate Proper(u: Rational) {
    u.Integer? || u.den > 0
  }

  /** u denotes the number n/d. */
  predicate Represents(u: Rational, n: int, d: int) {
    d != 0 &&
    match u
    case Integer(v) => v * d == n
    case Fraction(a, b) => b > 0 && a * d == n * b
  }

  /** Lowest terms: an integer, or a fraction a/b with b > 1 and gcd(|a|, b) == 1. */
  predicate Reduced(u: Rational) {
    match u
    case Integer(_) => true
    case Fraction(a, b) => b > 1 && NatGcd(Integers.NatAbs(a), b) == 1
  }

  /**
   * No int64 overflow arises from the fraction n/d: d != 0, both are
   * representable, and so is n * d (the product Frac tests the sign of).
   */
  predicate Safe(n: int, d: int) {
    d != 0 && Integers.NatAbs(n * d) <= MaxInt64 && Integers.NatAbs(d) <= MaxInt64
  }

  /**
   * No int64 overflow arises in reducing n/d: d != 0 and the pair left once
   * n and d are divided through by their gcd is Safe. Every Safe pair is
   * ReduceSafe (`SafeReduceSafe`), and so are pairs such as 2^32/2^32 whose
   * own product overflows.
   */
  predicate ReduceSafe(n: int, d: int) {
    d != 0 &&
    var g := NatGcd(Integers.NatAbs(n), Integers.NatAbs(d));
    g > 0 && Safe(n / g, d / g)
  }

  // ---------------------------------------------------------------------
  // The operations of rationals.go
  // ---------------------------------------------------------------------

  /**
   * The fraction a/b with the sign moved to the numerator: |b| becomes the
   * denominator and the numerator is |a| or -|a| as a*b is non-negative or
   * negative. No reduction is done. b == 0 gives EmptyFraction.
   */
  function Frac(a: Int64, b: Int64): (r: Rational)
    ensures r.Fraction?
    ensures b == 0 <==> r == EmptyFraction
    ensures b != 0 ==> r.den == IntAbs(b)
    ensures Safe(a, b) ==>
      && r.den == Integers.NatAbs(b) > 0
      && r.num == (if a * b >= 0 then Integers.NatAbs(a) else -(Integers.NatAbs(a) as int))
      && Represents(r, a, b)
  {
    if b == 0 then EmptyFraction
    else if IntMul(a, b) >= 0 then FracSafe(a, b); Fraction(IntAbs(a), IntAbs(b))
    else FracSafe(a, b); Fraction(IntMinus(IntAbs(a)), IntAbs(b))
  }

  /** The numerator of u read as n/d: 0 for EmptyFraction, the value for an integer. */
  function Numerator(u: Rational): (r: Int64)
    ensures Proper(u) ==> Represents(u, r, Denominator(u))
    ensures u == EmptyFraction ==> r == 0
  {
    match u
    case Integer(_) => u.value
    case Fraction(n, _) => if u == EmptyFraction then 0 else n
  }

  /** The denominator of u read as n/d: 0 for EmptyFraction, 1 for an integer. */
  function Denominator(u: Rational): (r: Int64)
    ensures r == 0 <==> u.Fraction? && u.den == 0
    ensures Proper(u) ==> r > 0
  {
    match u
    case Integer(_) => 1
    case Fraction(_, d) => if u == EmptyFraction then 0 else d
  }

  /**
   * Reduction to lowest terms: an integer is kept; EmptyFraction and a zero
   * denominator give EmptyFraction; a fraction whose denominator divides the
   * numerator collapses to the integer quotient; any other fraction is
   * divided through by the gcd and rebuilt with Frac.
   */
  function SimplifyRational(u: Rational): (r: Rational)
    ensures u.Integer? ==> r == u
    ensures u.Fraction? && u.den == 0 ==> r == EmptyFraction
  {
    match u
    case Integer(_) => u
    case Fraction(n, d) =>
      if u == EmptyFraction then EmptyFraction
      else
        match Mod(n, d)
        case Failure(_) => EmptyFraction
        case Success(rem) =>
          if rem == 0 then
            match Quotient(n, d)
            case Failure(_) => EmptyFraction
            case Success(q) => Integer(q)
          else
            var g := GcdOf(n, d);
            match (Quotient(n, g), Quotient(d, g))
            case (Success(n'), Success(d')) => Frac(n', d')
            case _ => EmptyFraction
  }

  /** The reduced reciprocal; EmptyFraction when u's numerator is 0. */
  function Inv(u: Rational): (r: Rational)
    ensures Numerator(u) == 0 ==> r == EmptyFraction
  {
    SimplifyRational(Frac(Denominator(u), Numerator(u)))
  }

  /** The reduced product; EmptyFraction whenever w's numerator is 0. */
  function RatMul(u: Rational, w: Rational): (r: Rational)
    ensures Numerator(w) == 0 || u == EmptyFraction ==> r == EmptyFraction
  {
    if Numerator(w) == 0 then EmptyFraction
    else
      var d := IntMul(Denominator(u), Denominator(w));
      assert u == EmptyFraction ==> d == 0;
      SimplifyRational(Frac(IntMul(Numerator(u), Numerator(w)), d))
  }

  /** u / w as u times the reciprocal of w; EmptyFraction when w's numerator is 0. */
  function Div(u: Rational, w: Rational): (r: Rational)
    ensures Numerator(w) == 0 || u == EmptyFraction ==> r == EmptyFraction
  {
    RatMul(u, Inv(w))
  }

  /**
   * u^n: u is reduced first; an integer goes through IntPow, a fraction has
   * numerator and denominator raised separately and is rebuilt with Frac,
   * without reducing again. Every IntPow error gives EmptyFraction.
   */
  function RatPow(u: Rational, n: Int64): (r: Rational)
    ensures n < 0 || u == EmptyFraction ==> r == EmptyFraction
  {
    match SimplifyRational(u)
    case Integer(v) =>
      (match IntPow(v, n)
       case Failure(_) => EmptyFraction
       case Success(p) => Integer(p))
    case Fraction(a, b) =>
      (match (IntPow(a, n), IntPow(b, n))
       case (Success(pa), Success(pb)) => Frac(pa, pb)
       case _ => EmptyFraction)
  }

  /** The reduced cross-multiplied sum. */
  function RatAdd(u: Rational, w: Rational): (r: Rational)
    ensures u == EmptyFraction || w == EmptyFraction ==> r == EmptyFraction
  {
    var d := IntMul(Denominator(u), Denominator(w));
    assert u == EmptyFraction || w == EmptyFraction ==> d == 0;
    SimplifyRational(Frac(
      IntAdd(IntMul(Numerator(u), Denominator(w)), IntMul(Denominator(u), Numerator(w))), d))
  }

  /** Negation of the numerator, the denominator kept. */
  function Minus(u: Rational): (r: Rational)
    ensures r.Integer? <==> u.Integer?
    ensures u == EmptyFraction ==> r == EmptyFraction
  {
    match u
    case Integer(v) => Integer(IntMinus(v))
    case Fraction(_, _) => Frac(IntMinus(Numerator(u)), Denominator(u))
  }

  /** u - w as u plus the negation of w. */
  function Subtract(u: Rational, w: Rational): (r: Rational)
    ensures u == EmptyFraction || w == EmptyFraction ==> r == EmptyFraction
  {
    RatAdd(u, Minus(w))
  }

  /** The numerator made non-negative, the denominator kept. */
  function Abs(u: Rational): (r: Rational)
    ensures r.Integer? <==> u.Integer?
    ensures r.Integer? ==> r.value >= 0 || r.value == MinInt64
    ensures u == EmptyFraction ==> r == EmptyFraction
  {
    match u
    case Integer(v) => Integer(IntAbs(v))
    case Fraction(_, _) => Frac(IntAbs(Numerator(u)), Denominator(u))
  }

  /** Go's String(): "%d" for an integer, "num/den" for a fraction. */
  function RationalString(u: Rational): string {
    match u
    case Integer(v) => Text.IntToString(v)
    case Fraction(a, b) => Text.IntToString(a) + "/" + Text.IntToString(b)
  }

  /** Reads back what RationalString renders. */
  function ParseRational(s: string): Option<Rational> {
    var parts := Text.Split(s, "/");
    if |parts| == 1 then
      match Text.ParseInt(parts[0])
      case Some(v) => if InRange(v) then Some(Integer(v)) else None
      case None => None
    else if |parts| == 2 then
      match (Text.ParseInt(parts[0]), Text.ParseInt(parts[1]))
      case (Some(a), Some(b)) =>
        if InRange(a) && InRange(b) then Some(Fraction(a, b)) else None
      case _ => None
    else None
  }

  // ---------------------------------------------------------------------
  // Properties: construction and accessors
  // ---------------------------------------------------------------------

  /** Numerator and Denominator read 0/0 off EmptyFraction and n/1 off an integer. */
  lemma NumeratorDenominator(u: Rational)
    ensures u == EmptyFraction ==> Numerator(u) == 0 && Denominator(u) == 0
    ensures u.Integer? ==> Numerator(u) == u.value && Denominator(u) == 1
    ensures u.Fraction? ==> Numerator(u) == u.num && Denominator(u) == u.den
    ensures Proper(u) ==> Represents(u, Numerator(u), Denominator(u))
  {
  }

  // ---------------------------------------------------------------------
  // Properties: reduction
  // ---------------------------------------------------------------------

  /**
   * A fraction whose denominator divides its numerator collapses to the
   * integer quotient, whatever the size of the numerator and denominator.
   * The one quotient that does not fit, MinInt64 / -1, wraps to MinInt64.
   */
  lemma SimplifyRationalDivisible(u: Rational)
    requires u.Fraction? && u.den != 0 && Divides(u.den, u.num)
    ensures var r := SimplifyRational(u);
      && r.Integer?
      && (r.value * u.den == u.num || (u.num == MinInt64 && u.den == -1 && r.value == MinInt64))
  {
    var n, d := u.num, u.den;
    ModIsTruncRem(n, d);
    TruncDivExact(n, d);
    TruncDivBound(n, d);
    var q := TruncDiv(n, d);
    assert Quotient(n, d) == Success(Wrap(q));
    if !(n == MinInt64 && d == -1) {
      assert InRange(q) by {
        if d == -1 {
          assert q == -(n as int);
        } else if d == 1 {
          assert q == n;
        } else {
          AbsMul(q, d);
          MulAtLeast(Integers.NatAbs(q), Integers.NatAbs(d));
        }
      }
    }
  }

  /**
   * Reducing a fraction n/d that can be reduced without overflow gives a
   * rational in lowest terms of the same value; it is an integer exactly
   * when d divides n, its components are no larger than n and d in
   * magnitude, and a fraction result is itself Safe.
   */
  lemma SimplifyRationalCorrect(u: Rational)
    requires u.Fraction? && ReduceSafe(u.num, u.den)
    ensures var r := SimplifyRational(u);
      && Represents(r, u.num, u.den)
      && Reduced(r)
      && (r.Integer? <==> Divides(u.den, u.num))
      && (r.Integer? ==> Integers.NatAbs(r.value) <= Integers.NatAbs(u.num))
      && (r.Fraction? ==> Integers.NatAbs(r.num) <= Integers.NatAbs(u.num) && r.den <= Integers.NatAbs(u.den))
      && (r.Fraction? ==> Safe(r.num, r.den))
  {
    var n, d := u.num, u.den;
    ModIsTruncRem(n, d);
    RemZero(n, d);
    if TruncRem(n, d) == 0 {
      assert !(n == MinInt64 && d == -1) by {
        if d == -1 {
          NatGcdOne(Integers.NatAbs(n));
          SafeBounds(n, d);
        }
      }
      SimplifyRationalDivisible(u);
      TruncDivBound(n, d);
      TruncDivExact(n, d);
    } else {
      ReduceNonDivisible(n, d);
    }
  }

  /**
   * ReduceSafe is weaker than Safe of the input: 2^32/2^32 and
   * (3·2^31)/2^32 have products that overflow, yet they reduce to 1 and 3/2.
   */
  lemma ReduceBeyondSafe()
    ensures !Safe(0x1_0000_0000, 0x1_0000_0000) && ReduceSafe(0x1_0000_0000, 0x1_0000_0000)
    ensures SimplifyRational(Fraction(0x1_0000_0000, 0x1_0000_0000)) == Integer(1)
    ensures !Safe(0x1_8000_0000, 0x1_0000_0000) && ReduceSafe(0x1_8000_0000, 0x1_0000_0000)
    ensures SimplifyRational(Fraction(0x1_8000_0000, 0x1_0000_0000)) == Fraction(3, 2)
  {
    assert NatGcd(0x1_0000_0000, 0x1_0000_0000) == 0x1_0000_0000 by {
      assert NatGcd(0x1_0000_0000, 0) == 0x1_0000_0000;
    }
    assert NatGcd(0x1_8000_0000, 0x1_0000_0000) == 0x8000_0000 by {
      assert NatGcd(0x8000_0000, 0) == 0x8000_0000;
      assert NatGcd(0x1_0000_0000, 0x8000_0000) == 0x8000_0000;
    }
    SimplifyRationalCorrect(Fraction(0x1_0000_0000, 0x1_0000_0000));
    SimplifyRationalCorrect(Fraction(0x1_8000_0000, 0x1_0000_0000));
    ReducedUnique(SimplifyRational(Fraction(0x1_8000_0000, 0x1_0000_0000)), Fraction(3, 2),
                  0x1_8000_0000, 0x1_0000_0000);
  }

  /** Lowest terms are a fixed point of reduction. */
  lemma ReducedIsFixed(u: Rational)
    requires Reduced(u)
    requires u.Fraction? ==> Safe(u.num, u.den)
    ensures SimplifyRational(u) == u
  {
    if u.Fraction? {
      var a, b := u.num, u.den;
      SafeBounds(a, b);
      DividesCoprime(a, b);
      RemZero(a, b);
      ModIsTruncRem(a, b);
      GcdSafe(a, b);
      assert Quotient(a, 1) == Success(a) && Quotient(b, 1) == Success(b);
      assert Frac(a, b) == u by {
        SafeFracPositive(a, b);
      }
    }
  }

  /** A rational in lowest terms that denotes a safe pair is a fixed point of reduction. */
  lemma ReducedSafeIsFixed(r: Rational, n: int, d: int)
    requires Reduced(r) && Represents(r, n, d) && Safe(n, d)
    ensures SimplifyRational(r) == r
  {
    if r.Fraction? {
      ReducedNoLarger(r, n, d);
      SafeShrink(r.num, r.den, n, d);
    }
    ReducedIsFixed(r);
  }

  /** Reduction is idempotent on everything it can be applied to without overflow. */
  lemma SimplifyRationalIdempotent(u: Rational)
    requires u.Fraction? && u.den != 0 ==> ReduceSafe(u.num, u.den)
    ensures SimplifyRational(SimplifyRational(u)) == SimplifyRational(u)
  {
    if u.Fraction? && u.den != 0 {
      SimplifyRationalCorrect(u);
      ReducedIsFixed(SimplifyRational(u));
    }
  }

  /**
   * Canonical form: two fractions of the same value that reduce without
   * overflow reduce to the same rational.
   */
  lemma SimplifyRationalCanonical(u: Rational, w: Rational)
    requires u.Fraction? && ReduceSafe(u.num, u.den)
    requires w.Fraction? && ReduceSafe(w.num, w.den)
    requires u.num * w.den == w.num * u.den
    ensures SimplifyRational(u) == SimplifyRational(w)
  {
    SimplifyRationalCorrect(u);
    SimplifyRationalCorrect(w);
    RepresentsTransfer(SimplifyRational(w), w.num, w.den, u.num, u.den);
    ReducedUnique(SimplifyRational(u), SimplifyRational(w), u.num, u.den);
  }

  /**
   * Without the no-overflow hypothesis the sign test of Frac can go wrong:
   * -3/(2^62+1) is already in lowest terms, but the product Frac tests
   * wraps to a positive number, so reduction flips the sign, and reducing
   * again flips it back.
   */
  lemma SimplifyRationalOverflow()
    ensures Frac(-3, 0x4000_0000_0000_0001) == Fraction(3, 0x4000_0000_0000_0001)
    ensures SimplifyRational(Fraction(-3, 0x4000_0000_0000_0001)) == Fraction(3, 0x4000_0000_0000_0001)
    ensures SimplifyRational(Fraction(3, 0x4000_0000_0000_0001)) == Fraction(-3, 0x4000_0000_0000_0001)
  {
    OverflowFrac();
    OverflowReduce(-3);
    OverflowReduce(3);
  }

  /**
   * ReducedIsFixed needs its no-overflow hypothesis: -3/(2^62+1) is in
   * lowest terms and still moves under reduction.
   */
  lemma ReducedMovesOnOverflow()
    ensures Reduced(Fraction(-3, 0x4000_0000_0000_0001))
    ensures SimplifyRational(Fraction(-3, 0x4000_0000_0000_0001)) != Fraction(-3, 0x4000_0000_0000_0001)
  {
    OverflowGcd();
    SimplifyRationalOverflow();
  }

  lemma OverflowFrac()
    ensures Frac(-3, 0x4000_0000_0000_0001) == Fraction(3, 0x4000_0000_0000_0001)
    ensures Frac(3, 0x4000_0000_0000_0001) == Fraction(-3, 0x4000_0000_0000_0001)
  {
    OverflowProducts();
  }

  /** Reducing ±3/(2^62 + 1) divides by the gcd 1 and rebuilds the fraction with Frac. */
  lemma OverflowReduce(n: Int64)
    requires n == 3 || n == -3
    ensures SimplifyRational(Fraction(n, 0x4000_0000_0000_0001)) == Frac(n, 0x4000_0000_0000_0001)
  {
    var d: Int64 := 0x4000_0000_0000_0001;
    OverflowGcd();
    assert Mod(n, d) == Success(n);
    assert Quotient(n, 1) == Success(n) && Quotient(d, 1) == Success(d);
  }

  /** 3 and 2^62 + 1 are coprime, and neither divides the other. */
  lemma OverflowGcd()
    ensures GcdOf(-3, 0x4000_0000_0000_0001) == 1 && GcdOf(3, 0x4000_0000_0000_0001) == 1
    ensures NatGcd(3, 0x4000_0000_0000_0001) == 1
    ensures TruncRem(-3, 0x4000_0000_0000_0001) == -3 && TruncRem(3, 0x4000_0000_0000_0001) == 3
  {
    var d := 0x4000_0000_0000_0001;
    assert d % 3 == 2;
    assert NatGcd(3, d) == 1 by {
      assert NatGcd(3, d) == NatGcd(d, 3);
      assert NatGcd(d, 3) == NatGcd(3, 2);
      assert NatGcd(3, 2) == NatGcd(2, 1);
      assert NatGcd(2, 1) == NatGcd(1, 0);
    }
  }

  /** 3 * (2^62 + 1) wraps to a negative int64, and -3 * (2^62 + 1) to a positive one. */
  lemma OverflowProducts()
    ensures IntMul(-3, 0x4000_0000_0000_0001) == 0x3FFF_FFFF_FFFF_FFFD
    ensures IntMul(3, 0x4000_0000_0000_0001) == -0x3FFF_FFFF_FFFF_FFFD
  {
    assert IntMul(-3, 0x4000_0000_0000_0001) == Wrap(-3 * 0x4000_0000_0000_0001);
    assert IntMul(3, 0x4000_0000_0000_0001) == Wrap(3 * 0x4000_0000_0000_0001);
  }

  // ---------------------------------------------------------------------
  // Properties: arithmetic
  // ---------------------------------------------------------------------

  /** RatMul(u, w) is EmptyFraction whenever w's numerator is 0, and for every w when u is. */
  lemma RatMulEmpty(u: Rational, w: Rational)
    ensures Numerator(w) == 0 ==> RatMul(u, w) == EmptyFraction
    ensures RatMul(w, Integer(0)) == EmptyFraction
    ensures RatMul(EmptyFraction, w) == EmptyFraction
  {
  }

  /** Zero times a proper non-zero rational is the integer 0. */
  lemma RatMulZeroLeft(w: Rational)
    requires Proper(w) && Numerator(w) != 0
    ensures RatMul(Integer(0), w) == Integer(0)
  {
    var dw := Denominator(w);
    assert IntMul(0, Numerator(w)) == 0;
    assert IntMul(1, dw) == dw;
    assert Frac(0, dw) == Fraction(0, dw);
    assert RatMul(Integer(0), w) == SimplifyRational(Fraction(0, dw));
    DividesByWitness(dw, 0, 0);
    SimplifyRationalDivisible(Fraction(0, dw));
  }

  /** Without overflow, RatMul is the product in lowest terms. */
  lemma RatMulValue(u: Rational, w: Rational)
    requires Proper(u) && Proper(w) && Numerator(w) != 0
    requires Safe(Numerator(u) * Numerator(w), Denominator(u) * Denominator(w))
    ensures Represents(RatMul(u, w), Numerator(u) * Numerator(w), Denominator(u) * Denominator(w))
    ensures Reduced(RatMul(u, w))
  {
    var n, d := Numerator(u) * Numerator(w), Denominator(u) * Denominator(w);
    SignOfProduct(Denominator(u), Denominator(w));
    SafeBounds(n, d);
    BuildReduced(n, d);
  }

  /** Inv is EmptyFraction on a zero numerator, otherwise the reciprocal in lowest terms. */
  lemma InvValue(u: Rational)
    ensures Numerator(u) == 0 ==> Inv(u) == EmptyFraction
    ensures Proper(u) && Numerator(u) != 0 && Safe(Denominator(u), Numerator(u)) ==>
      Represents(Inv(u), Denominator(u), Numerator(u)) && Reduced(Inv(u))
  {
    if Proper(u) && Numerator(u) != 0 && Safe(Denominator(u), Numerator(u)) {
      var n, d := Denominator(u), Numerator(u);
      var f := Frac(n, d);
      SafeReduceSafe(f.num, f.den);
      SimplifyRationalCorrect(f);
      RepresentsTransfer(SimplifyRational(f), f.num, f.den, n, d);
    }
  }

  /** Dividing by a rational with a zero numerator (including EmptyFraction) fails. */
  lemma DivByZero(u: Rational, w: Rational)
    requires Numerator(w) == 0
    ensures Div(u, w) == EmptyFraction
  {
    InvValue(w);
  }

  /** Without overflow, Div multiplies by the reciprocal: u/w == (nu*dw)/(du*nw). */
  lemma DivValue(u: Rational, w: Rational)
    requires Proper(u) && Proper(w) && Numerator(w) != 0
    requires Safe(Denominator(w), Numerator(w))
    requires Safe(Numerator(u) * Denominator(w), Denominator(u) * Numerator(w))
    ensures Represents(Div(u, w), Numerator(u) * Denominator(w), Denominator(u) * Numerator(w))
    ensures Reduced(Div(u, w))
  {
    InvFacts(w);
    MulByReciprocal(u, Inv(w), Numerator(w), Denominator(w));
  }

  /** Multiplying u by i, where i is a no-larger form of dw/nw, gives (nu*dw)/(du*nw). */
  lemma MulByReciprocal(u: Rational, i: Rational, nw: int, dw: int)
    requires Proper(u) && Proper(i) && Numerator(i) != 0
    requires Numerator(i) * nw == dw * Denominator(i)
    requires Integers.NatAbs(Numerator(i)) <= Integers.NatAbs(dw) && Denominator(i) <= Integers.NatAbs(nw)
    requires Safe(Numerator(u) * dw, Denominator(u) * nw)
    ensures Represents(RatMul(u, i), Numerator(u) * dw, Denominator(u) * nw)
    ensures Reduced(RatMul(u, i))
  {
    var nu, du, ni, di := Numerator(u), Denominator(u), Numerator(i), Denominator(i);
    SafeScaleDown(nu, du, ni, di, dw, nw);
    RatMulValue(u, i);
    MulRearrange(nu, du, ni, di, nw, dw);
    RepresentsTransfer(RatMul(u, i), nu * ni, du * di, nu * dw, du * nw);
  }

  /** Inv(w) is dw/nw in lowest terms, so its components are no larger. */
  lemma InvFacts(w: Rational)
    requires Proper(w) && Numerator(w) != 0
    requires Safe(Denominator(w), Numerator(w))
    ensures var i := Inv(w);
      && Proper(i) && Numerator(i) != 0
      && Numerator(i) * Numerator(w) == Denominator(w) * Denominator(i)
      && Integers.NatAbs(Numerator(i)) <= Integers.NatAbs(Denominator(w))
      && Denominator(i) <= Integers.NatAbs(Numerator(w))
  {
    var i := Inv(w);
    InvValue(w);
    RepresentsPair(i, Denominator(w), Numerator(w));
    ReducedNoLarger(i, Denominator(w), Numerator(w));
  }

  /** EmptyFraction is absorbing for RatAdd. */
  lemma RatAddEmpty(u: Rational)
    ensures RatAdd(EmptyFraction, u) == EmptyFraction
    ensures RatAdd(u, EmptyFraction) == EmptyFraction
  {
    var nu, du := Numerator(u), Denominator(u);
    assert IntMul(0, du) == 0 && IntMul(0, nu) == 0 && IntMul(nu, 0) == 0 && IntMul(du, 0) == 0;
    assert IntAdd(IntMul(0, du), IntMul(0, nu)) == 0;
    assert Frac(IntAdd(IntMul(nu, 0), IntMul(du, 0)), 0) == EmptyFraction;
    assert Frac(0, 0) == EmptyFraction;
  }

  /** Without overflow, RatAdd is the cross-multiplied sum in lowest terms. */
  lemma RatAddValue(u: Rational, w: Rational)
    requires Proper(u) && Proper(w)
    requires Safe(Numerator(u) * Denominator(w) + Denominator(u) * Numerator(w),
                  Denominator(u) * Denominator(w))
    ensures Represents(RatAdd(u, w),
                       Numerator(u) * Denominator(w) + Denominator(u) * Numerator(w),
                       Denominator(u) * Denominator(w))
    ensures Reduced(RatAdd(u, w))
  {
    var nu: int, du: int, nw: int, dw: int := Numerator(u), Denominator(u), Numerator(w), Denominator(w);
    var n, d := nu * dw + du * nw, du * dw;
    CrossSum(Numerator(u), Denominator(u), Numerator(w), Denominator(w));
    assert du > 0 && dw > 0;
    SignOfProduct(du, dw);
    assert d > 0;
    BuildReduced(n, d);
  }

  /** The wrapped cross-multiplied sum is the wrap of the exact one. */
  lemma CrossSum(nu: Int64, du: Int64, nw: Int64, dw: Int64)
    ensures IntAdd(IntMul(nu, dw), IntMul(du, nw)) == Wrap(nu as int * dw + du * nw)
    ensures IntMul(du, dw) == Wrap(du as int * dw)
  {
    calc {
      IntAdd(IntMul(nu, dw), IntMul(du, nw));
      Wrap(Wrap(nu * dw) + Wrap(du * nw));
      { WrapAddLeft(nu * dw, Wrap(du * nw)); }
      Wrap(nu * dw + Wrap(du * nw));
      { WrapAddRight(nu * dw, du * nw); }
      Wrap(nu as int * dw + du * nw);
    }
  }

  /** RatAdd does not depend on the order of its arguments. */
  lemma RatAddCommutes(u: Rational, w: Rational)
    ensures RatAdd(u, w) == RatAdd(w, u)
  {
    var nu, du, nw, dw := Numerator(u), Denominator(u), Numerator(w), Denominator(w);
    assert IntMul(nu, dw) == IntMul(dw, nu);
    assert IntMul(du, nw) == IntMul(nw, du);
    assert IntMul(du, dw) == IntMul(dw, du);
  }

  /** Minus negates the numerator and keeps the denominator; it is an involution. */
  lemma MinusValue(u: Rational)
    ensures u == EmptyFraction ==> Minus(u) == EmptyFraction
    ensures u.Integer? ==> Minus(Minus(u)) == u
    ensures u.Integer? && u.value != MinInt64 ==> Minus(u) == Integer(-u.value)
    ensures u.Fraction? && u.den > 0 && Safe(u.num, u.den) ==>
      Minus(u) == Fraction(-u.num, u.den) && Minus(Minus(u)) == u
  {
    if u.Fraction? && u.den > 0 && Safe(u.num, u.den) {
      SafeBounds(u.num, u.den);
      SafeNegate(u.num, u.den);
      SafeFracPositive(-u.num, u.den);
      SafeFracPositive(u.num, u.den);
    }
  }

  /** Without overflow, Subtract is the cross-multiplied difference in lowest terms. */
  lemma SubtractValue(u: Rational, w: Rational)
    requires Proper(u) && Proper(w)
    requires w.Integer? ==> w.value != MinInt64
    requires w.Fraction? ==> Safe(w.num, w.den)
    requires Safe(Numerator(u) * Denominator(w) - Denominator(u) * Numerator(w),
                  Denominator(u) * Denominator(w))
    ensures Represents(Subtract(u, w),
                       Numerator(u) * Denominator(w) - Denominator(u) * Numerator(w),
                       Denominator(u) * Denominator(w))
    ensures Reduced(Subtract(u, w))
  {
    var m := Minus(w);
    assert Subtract(u, w) == RatAdd(u, m);
    MinusFacts(w);
    NegatedCross(Numerator(u), Denominator(u), Numerator(w), Denominator(w), Numerator(m), Denominator(m));
    RatAddValue(u, m);
  }

  lemma MinusFacts(w: Rational)
    requires Proper(w)
    requires w.Integer? ==> w.value != MinInt64
    requires w.Fraction? ==> Safe(w.num, w.den)
    ensures Proper(Minus(w))
    ensures Numerator(Minus(w)) == -Numerator(w) && Denominator(Minus(w)) == Denominator(w)
  {
    MinusValue(w);
  }

  lemma NegatedCross(nu: int, du: int, nw: int, dw: int, nm: int, dm: int)
    requires nm == -nw && dm == dw
    ensures nu * dm + du * nm == nu * dw - du * nw && du * dm == du * dw
  {
    assert du * nm == -(du * nw);
  }

  /** Abs makes the numerator non-negative, keeps the denominator, and is idempotent. */
  lemma AbsValue(u: Rational)
    ensures u == EmptyFraction ==> Abs(u) == EmptyFraction
    ensures u.Integer? && u.value != MinInt64 ==> Abs(u) == Integer(Integers.NatAbs(u.value))
    ensures u.Integer? ==> Abs(Abs(u)) == Abs(u)
    ensures u.Fraction? && u.den > 0 && Safe(u.num, u.den) ==>
      Abs(u) == Fraction(Integers.NatAbs(u.num), u.den) && Abs(Abs(u)) == Abs(u) && Abs(Minus(u)) == Abs(u)
  {
    if u.Fraction? && u.den > 0 && Safe(u.num, u.den) {
      SafeBounds(u.num, u.den);
      SafeAbs(u.num, u.den);
      SafeFracPositive(Integers.NatAbs(u.num), u.den);
      MinusValue(u);
      SafeNegate(u.num, u.den);
      SafeAbs(-u.num, u.den);
    }
  }

  /**
   * RatPow reduces u first. A negative exponent or 0^0 gives EmptyFraction;
   * a reduced integer goes through IntPow; a reduced fraction a/b gives
   * Frac(a^n, b^n), which is the fraction 1/1 (not the integer 1) for n == 0.
   */
  lemma RatPowCases(u: Rational, n: Int64)
    ensures n < 0 ==> RatPow(u, n) == EmptyFraction
    ensures SimplifyRational(u) == Integer(0) && n == 0 ==> RatPow(u, n) == EmptyFraction
    ensures SimplifyRational(u) == EmptyFraction ==> RatPow(u, n) == EmptyFraction
    ensures SimplifyRational(u).Integer? && n >= 0 && !(SimplifyRational(u).value == 0 && n == 0) ==>
      RatPow(u, n) == Integer(Wrap(ExactPow(SimplifyRational(u).value, n)))
  {
    if n > 0 {
      PowZero(n);
    }
  }

  /** For a reduced fraction a/b, RatPow gives a^n/b^n unreduced when nothing overflows. */
  lemma RatPowFraction(u: Rational, n: Int64)
    requires SimplifyRational(u).Fraction? && Reduced(SimplifyRational(u))
    requires n >= 0
    requires Safe(ExactPow(SimplifyRational(u).num, n), ExactPow(SimplifyRational(u).den, n))
    ensures InRange(ExactPow(SimplifyRational(u).num, n)) && InRange(ExactPow(SimplifyRational(u).den, n))
    ensures RatPow(u, n) == Fraction(ExactPow(SimplifyRational(u).num, n), ExactPow(SimplifyRational(u).den, n))
    ensures n == 0 ==> RatPow(u, n) == Fraction(1, 1)
  {
    var r := SimplifyRational(u);
    var a, b := r.num, r.den;
    assert NatGcd(0, b) == b;
    PowPositive(b, n);
    SafeBounds(ExactPow(a, n), ExactPow(b, n));
    SafeFracPositive(ExactPow(a, n), ExactPow(b, n));
  }

  /** The String of a rational reads back as that rational. */
  lemma RationalStringRoundTrip(u: Rational)
    ensures ParseRational(RationalString(u)) == Some(u)
  {
    match u
    case Integer(v) =>
      var sv := Text.IntToString(v);
      Text.IntRoundTrip(v);
      Text.IntToStringChars(v);
      assert Text.Join([sv], "/") == sv;
      Text.SplitJoin([sv], "/");
    case Fraction(a, b) =>
      var sa, sb := Text.IntToString(a), Text.IntToString(b);
      Text.IntRoundTrip(a);
      Text.IntRoundTrip(b);
      Text.IntToStringChars(a);
      Text.IntToStringChars(b);
      assert Text.Join([sa, sb], "/") == sa + "/" + sb;
      Text.SplitJoin([sa, sb], "/");
  }

  // ---------------------------------------------------------------------
  // Helper lemmas
  // ---------------------------------------------------------------------

  lemma SafeBounds(n: int, d: int)
    requires Safe(n, d)
    ensures Integers.NatAbs(n) <= MaxInt64 && d != MinInt64 && n != MinInt64
    ensures InRange(n) && InRange(d) && InRange(n * d)
  {
    AbsMul(n, d);
    MulAtLeast(Integers.NatAbs(n), Integers.NatAbs(d));
  }

  lemma SafeNegate(n: int, d: int)
    requires Safe(n, d)
    ensures Safe(-n, d)
  {
    assert (-n) * d == -(n * d);
  }

  lemma SafeAbs(n: int, d: int)
    requires Safe(n, d)
    ensures Safe(Integers.NatAbs(n), d)
  {
    AbsMul(n, d);
    AbsMul(Integers.NatAbs(n), d);
  }

  /** Frac of a safe pair with a positive denominator is the pair itself. */
  lemma SafeFracPositive(a: int, b: int)
    requires Safe(a, b) && b > 0
    ensures InRange(a) && InRange(b)
    ensures Frac(a, b) == Fraction(a, b)
  {
    SafeBounds(a, b);
    SignOfProduct(b, a);
    assert a * b == b * a;
  }

  /** What Frac builds from a safe pair a/b. */
  lemma FracSafe(a: Int64, b: Int64)
    requires b != 0
    ensures Safe(a, b) ==>
      var f := if IntMul(a, b) >= 0 then Fraction(IntAbs(a), IntAbs(b)) else Fraction(IntMinus(IntAbs(a)), IntAbs(b));
      && f.den == Integers.NatAbs(b) > 0
      && f.num == (if a * b >= 0 then Integers.NatAbs(a) else -(Integers.NatAbs(a) as int))
      && f.num * b == a * f.den
  {
    if Safe(a, b) {
      SafeBounds(a, b);
      SignedAbs(a, b);
    }
  }

  /** The numerator and denominator of a rational that represents n/d. */
  lemma RepresentsPair(r: Rational, n: int, d: int)
    requires Represents(r, n, d)
    ensures Denominator(r) > 0 && Numerator(r) * d == n * Denominator(r)
  {
  }

  /** The numerator and denominator of a rational in lowest terms. */
  lemma ReducedPair(r: Rational)
    requires Reduced(r)
    ensures Denominator(r) > 0 && NatGcd(Integers.NatAbs(Numerator(r)), Denominator(r)) == 1
    ensures Denominator(r) == 1 <==> r.Integer?
  {
    if r.Integer? {
      NatGcdOne(Integers.NatAbs(r.value));
    }
  }

  /** A cross-multiplied equality carries a representation over to another pair. */
  lemma RepresentsTransfer(r: Rational, n1: int, d1: int, n2: int, d2: int)
    requires Represents(r, n1, d1) && d2 != 0
    requires n1 * d2 == n2 * d1
    ensures Represents(r, n2, d2)
  {
    RepresentsPair(r, n1, d1);
    var a, b := Numerator(r), Denominator(r);
    assert (a * d2) * d1 == (a * d1) * d2 == (n1 * b) * d2 == (n1 * d2) * b == (n2 * b) * d1;
    Cancel(a * d2, n2 * b, d1);
  }

  /** d divides n exactly when Go's remainder n % d is zero. */
  lemma RemZero(n: int, d: int)
    requires d != 0
    ensures Divides(d, n) <==> TruncRem(n, d) == 0
  {
    DividesAbs(d, n);
  }

  /** The gcd of a safe pair is the true gcd, positive and at most |d|. */
  lemma GcdSafe(n: Int64, d: Int64)
    requires Safe(n, d)
    ensures GcdOf(n, d) == NatGcd(Integers.NatAbs(n), Integers.NatAbs(d))
    ensures 0 < GcdOf(n, d) <= Integers.NatAbs(d)
  {
    SafeBounds(n, d);
    NatGcdBound(Integers.NatAbs(n), Integers.NatAbs(d));
  }

  /** Division by a positive exact divisor. */
  lemma ExactQuotient(n: Int64, g: Int64)
    requires g > 0 && Divides(g, n)
    ensures InRange(TruncDiv(n, g))
    ensures Quotient(n, g) == Success(TruncDiv(n, g) as Int64)
    ensures TruncDiv(n, g) * g == n
    ensures Integers.NatAbs(TruncDiv(n, g)) <= Integers.NatAbs(n)
  {
    TruncDivExact(n, g);
    TruncDivBound(n, g);
  }

  /** A quotient denominator of magnitude 1 means the denominator divided the numerator. */
  lemma UnitDenominator(n: int, d: int, d': int, g: int)
    requires d' * g == d && Divides(g, n)
    ensures Integers.NatAbs(d') == 1 ==> Divides(d, n)
  {
    if d' == -1 {
      DividesNegate(g, n);
    }
  }

  /** The only divisor of a that is coprime to a and positive is 1. */
  lemma DividesCoprime(a: int, b: int)
    requires b > 0 && NatGcd(Integers.NatAbs(a), b) == 1
    ensures Divides(b, a) ==> b == 1
  {
    if Divides(b, a) {
      DividesAbs(b, a);
      DividesByWitness(b, b, 1);
      NatGcdGreatest(Integers.NatAbs(a), b, b);
      DividesLe(b, 1);
    }
  }

  /** Frac followed by reduction of a safe pair n/d with d > 0. */
  lemma BuildReduced(n: int, d: int)
    requires Safe(n, d) && d > 0
    ensures InRange(n) && InRange(d)
    ensures Represents(SimplifyRational(Frac(Wrap(n), Wrap(d))), n, d)
    ensures Reduced(SimplifyRational(Frac(Wrap(n), Wrap(d))))
  {
    SafeBounds(n, d);
    SafeFracPositive(n, d);
    SafeReduceSafe(n, d);
    SimplifyRationalCorrect(Fraction(n, d));
  }

  /** The non-divisible branch of SimplifyRational. */
  lemma ReduceNonDivisible(n: Int64, d: Int64)
    requires ReduceSafe(n, d) && TruncRem(n, d) != 0
    ensures var r := SimplifyRational(Fraction(n, d));
      && r.Fraction?
      && Represents(r, n, d)
      && Reduced(r)
      && Safe(r.num, r.den)
      && !Divides(d, n)
      && Integers.NatAbs(r.num) <= Integers.NatAbs(n) && r.den <= Integers.NatAbs(d)
  {
    ModIsTruncRem(n, d);
    RemZero(n, d);
    var g := GcdOf(n, d);
    ReducingQuotients(n, d);
    var n': Int64, d': Int64 := n / g, d / g;
    var r := Frac(n', d');
    assert SimplifyRational(Fraction(n, d)) == r;
    ScaleCross(n', d', n', d', g);
    RepresentsTransfer(r, n', d', n, d);
    AbsMul(n', g);
    AbsMul(d', g);
    GcdOfQuotients(Integers.NatAbs(n'), Integers.NatAbs(d'), g);
    UnitDenominator(n, d, d', g);
    FracKeepsSafe(n', d');
  }

  /** The gcd and the two quotients the non-divisible branch computes. */
  lemma ReducingQuotients(n: Int64, d: Int64)
    requires ReduceSafe(n, d) && TruncRem(n, d) != 0
    ensures var g := GcdOf(n, d);
      && g > 0 && g == NatGcd(Integers.NatAbs(n), Integers.NatAbs(d))
      && Divides(g, n) && Divides(g, d)
      && InRange(n / g) && InRange(d / g)
      && Quotient(n, g) == Success(n / g) && Quotient(d, g) == Success(d / g)
      && (n / g) * g == n && (d / g) * g == d
      && Integers.NatAbs(n / g) <= Integers.NatAbs(n) && Integers.NatAbs(d / g) <= Integers.NatAbs(d)
      && Safe(n / g, d / g)
  {
    NatGcdBound(Integers.NatAbs(n), Integers.NatAbs(d));
    assert !(n == MinInt64 && d == MinInt64);
    var g := GcdOf(n, d);
    assert g == NatGcd(Integers.NatAbs(n), Integers.NatAbs(d));
    ExactQuotient(n, g);
    ExactQuotient(d, g);
    ExactDiv(n, g);
    ExactDiv(d, g);
  }

  /** Frac of a Safe pair is again Safe. */
  lemma FracKeepsSafe(a: Int64, b: Int64)
    requires Safe(a, b)
    ensures Safe(Frac(a, b).num, Frac(a, b).den)
  {
    SafeShrink(Frac(a, b).num, Frac(a, b).den, a, b);
  }

  /** For an exact divisor, Go's truncating quotient and Dafny's `/` agree. */
  lemma ExactDiv(n: int, g: int)
    requires g > 0 && Divides(g, n)
    ensures TruncDiv(n, g) == n / g
  {
    TruncDivExact(n, g);
    Cancel(TruncDiv(n, g), n / g, g);
  }

  /** A Safe pair reduces without overflow. */
  lemma SafeReduceSafe(n: int, d: int)
    requires Safe(n, d)
    ensures ReduceSafe(n, d)
  {
    var g := NatGcd(Integers.NatAbs(n), Integers.NatAbs(d));
    NatGcdDivides(Integers.NatAbs(n), Integers.NatAbs(d));
    NatGcdBound(Integers.NatAbs(n), Integers.NatAbs(d));
    DividesAbs(g, n);
    DividesAbs(g, d);
    var n', d' := n / g, d / g;
    DivTimes(n, g);
    DivTimes(d, g);
    SafeDivide(n', d', g);
  }

  /** Dividing by an exact divisor and multiplying back is the identity. */
  lemma DivTimes(n: int, g: int)
    requires g > 0 && Divides(g, n)
    ensures (n / g) * g == n
  {
  }

  /** Dividing a safe pair through by a common factor keeps it safe. */
  lemma SafeDivide(n': int, d': int, g: int)
    requires g > 0 && Safe(n' * g, d' * g)
    ensures Safe(n', d')
  {
    assert (n' * g) * (d' * g) == (n' * d') * (g * g);
    AbsMul(n' * d', g * g);
    AbsMul(d', g);
    MulAtLeast(g, g);
    MulAtLeast(Integers.NatAbs(n' * d'), g * g);
    MulAtLeast(Integers.NatAbs(d'), g);
  }

  /** A pair no larger than a safe pair (componentwise, in magnitude) is safe. */
  lemma SafeShrink(a: int, b: int, n: int, d: int)
    requires Safe(n, d) && b != 0
    requires Integers.NatAbs(a) <= Integers.NatAbs(n) && Integers.NatAbs(b) <= Integers.NatAbs(d)
    ensures Safe(a, b)
  {
    AbsMul(a, b);
    AbsMul(n, d);
    MulMono(Integers.NatAbs(a), Integers.NatAbs(b), Integers.NatAbs(n), Integers.NatAbs(d));
  }

  /** Two rationals in lowest terms that denote the same number are equal. */
  lemma ReducedUnique(r1: Rational, r2: Rational, n: int, d: int)
    requires Reduced(r1) && Reduced(r2)
    requires Represents(r1, n, d) && Represents(r2, n, d)
    ensures r1 == r2
  {
    RepresentsPair(r1, n, d);
    RepresentsPair(r2, n, d);
    ReducedPair(r1);
    ReducedPair(r2);
    var a1, b1 := Numerator(r1), Denominator(r1);
    var a2, b2 := Numerator(r2), Denominator(r2);
    CrossFromCommon(a1, b1, a2, b2, n, d);
    CoprimeUnique(a1, b1, a2, b2);
  }

  /** A rational in lowest terms is no larger than any pair of the same value. */
  lemma ReducedNoLarger(r: Rational, n: int, d: int)
    requires Reduced(r) && Represents(r, n, d)
    ensures Integers.NatAbs(Numerator(r)) <= Integers.NatAbs(n) && Denominator(r) <= Integers.NatAbs(d)
  {
    RepresentsPair(r, n, d);
    ReducedPair(r);
    var a, b := Numerator(r), Denominator(r);
    NormalizeSign(a, b, n, d);
    CoprimeSmallest(a, b, if d < 0 then -n else n, Integers.NatAbs(d));
  }

  lemma SafeScaleDown(nu: int, du: int, ni: int, di: int, dw: int, nw: int)
    requires Integers.NatAbs(ni) <= Integers.NatAbs(dw) && di <= Integers.NatAbs(nw) && di > 0 && du > 0
    requires Safe(nu * dw, du * nw)
    ensures Safe(nu * ni, du * di)
  {
    AbsMul(nu, ni);
    AbsMul(nu, dw);
    AbsMul(du, nw);
    MulMono(Integers.NatAbs(nu), Integers.NatAbs(ni), Integers.NatAbs(nu), Integers.NatAbs(dw));
    MulMono(du, di, du, Integers.NatAbs(nw));
    SignOfProduct(du, di);
    SafeShrink(nu * ni, du * di, nu * dw, du * nw);
  }
}
