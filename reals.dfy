/**
 * The symbolic layer: Go's `real` interface with its eight implementations
 * (integer, fraction, logarithm, exponential, sum, product, power,
 * undefined), the per-variant simplifier, the constructors Add, Mul and Pow,
 * and the renderer.
 *
 * Go's `sum.Simplify` does not terminate on every input and panics on some,
 * so the simplifier here carries a fuel bound and returns an Outcome:
 * Done(r) is what the Go code returns, Panic is a Go runtime panic (index out
 * of range on an empty sum, a method call on the nil partial sum), and
 * OutOfFuel means the recursion went deeper than the bound.
 */
module Reals {
  import opened Wrappers
  import opened Integers
  import Rationals
  import Text

  type Rational = Rationals.Rational

  /** The closed set of implementations of Go's `real`; integers and fractions sit under Num. */
  datatype Real =
    | Num(q: Rational)
    | Logarithm(arg: Real)
    | Exponential(arg: Real)
    | Sum(operands: seq<Real>)
    | Product(operands: seq<Real>)
    | Power(base: Real, exponent: Real)
    | Undefined

  datatype Outcome<+T> = Done(value: T) | Panic | OutOfFuel

  function IntNum(v: Int64): Real {
    Num(Rationals.Integer(v))
  }

  /** Go's Log and Exp only wrap their argument. */
  function Log(x: Real): (r: Real)
    ensures r.Logarithm? && r.arg == x
  {
    Logarithm(x)
  }

  function Exp(x: Real): (r: Real)
    ensures r.Exponential? && r.arg == x
  {
    Exponential(x)
  }

  /** The operands Add splices in: a sum's own operands, any other value alone. */
  function SumTerms(x: Real): seq<Real> {
    if x.Sum? then x.operands else [x]
  }

  /** The operands Mul splices in: a product's own operands, any other value alone. */
  function ProductFactors(x: Real): seq<Real> {
    if x.Product? then x.operands else [x]
  }

  // ---------------------------------------------------------------------
  // The simplifier
  // ---------------------------------------------------------------------

  /** Go's `Simplify`, one case per implementation. */
  function Simplify(x: Real, fuel: nat): Outcome<Real>
    decreases fuel, 0, 0
  {
    if fuel == 0 then OutOfFuel
    else
      match x
      case Num(q) =>
        if q.Integer? then Done(x) else Done(Num(Rationals.SimplifyRational(q)))
      case Logarithm(a) =>
        if a == IntNum(1) then Done(IntNum(0))
        else if a.Num? && a.q.Fraction? && Rationals.SimplifyRational(a.q) == Rationals.Integer(1) then Done(IntNum(0))
        else if a.Exponential? then Simplify(a.arg, fuel - 1)
        else
          (match Simplify(a, fuel - 1)
           case Done(s) => Done(Log(s))
           case Panic => Panic
           case OutOfFuel => OutOfFuel)
      case Exponential(a) =>
        if a == IntNum(0) then Done(IntNum(1))
        else if a.Num? && a.q.Fraction? && Rationals.SimplifyRational(a.q) == Rationals.Integer(0) then Done(IntNum(1))
        else if a.Logarithm? then Simplify(a.arg, fuel - 1)
        else
          (match Simplify(a, fuel - 1)
           case Done(s) => Done(Log(s))
           case Panic => Panic
           case OutOfFuel => OutOfFuel)
      case Sum(ops) =>
        if |ops| == 1 then Simplify(ops[0], fuel - 1)
        else
          (match SimplifyAll(ops, fuel - 1)
           case Panic => Panic
           case OutOfFuel => OutOfFuel
           case Done(rs) => CombineFirstPair(rs, fuel - 1))
      case Product(ops) =>
        (match SimplifyAll(ops, fuel - 1)
         case Done(rs) => Done(Sum(rs))
         case Panic => Panic
         case OutOfFuel => OutOfFuel)
      case Power(b, e) =>
        (match (Simplify(b, fuel - 1), Simplify(e, fuel - 1))
         case (Done(b'), Done(e')) => Done(Power(b', e'))
         case (Done(_), Panic) => Panic
         case (Done(_), OutOfFuel) => OutOfFuel
         case (Panic, _) => Panic
         case (OutOfFuel, _) => OutOfFuel)
      case Undefined => Done(Undefined)
  }

  /** The loop of `sum.Simplify` and `product.Simplify`: each operand simplified, left to right. */
  function SimplifyAll(ops: seq<Real>, fuel: nat): Outcome<seq<Real>>
    decreases fuel, 1, |ops|
  {
    if ops == [] then Done([])
    else
      match Simplify(ops[0], fuel)
      case Panic => Panic
      case OutOfFuel => OutOfFuel
      case Done(r) =>
        match SimplifyAll(ops[1..], fuel)
        case Done(rs) => Done([r] + rs)
        case Panic => Panic
        case OutOfFuel => OutOfFuel
  }

  /**
   * The rest of `sum.Simplify` once its operands are simplified: the first
   * two are combined by the pair table and the partial sum is added to the
   * remaining operands. Fewer than two operands, or a nil partial sum, is a
   * Go panic.
   */
  function CombineFirstPair(rs: seq<Real>, fuel: nat): Outcome<Real>
    decreases fuel, 3, 0
  {
    if |rs| < 2 then Panic
    else
      match PairSum(rs[0], rs[1], fuel)
      case Panic => Panic
      case OutOfFuel => OutOfFuel
      case Done(None) => Panic
      case Done(Some(p)) => Add(p, Sum(rs[2..]), fuel)
  }

  /**
   * The table that combines the first two simplified operands of a sum.
   * Done(None) is the nil partial sum left when the first operand is neither
   * a rational nor a logarithm.
   */
  function PairSum(x: Real, y: Real, fuel: nat): Outcome<Option<Real>>
    decreases fuel, 2, 0
  {
    match x
    case Num(a) =>
      if a.Integer? && y.Num? && y.q.Integer? then Done(Some(IntNum(IntAdd(a.value, y.q.value))))
      else if y.Num? then Done(Some(Num(Rationals.RatAdd(a, y.q))))
      else Done(Some(Sum([x, y])))
    case Logarithm(_) =>
      if y.Logarithm? then
        (match Mul(x, y, fuel)
         case Done(m) => Done(Some(Log(m)))
         case Panic => Panic
         case OutOfFuel => OutOfFuel)
      else Done(Some(Sum([x, y])))
    case _ => Done(None)
  }

  /** Go's Add: the flattened operands of x then of y, as a sum, simplified. */
  function Add(x: Real, y: Real, fuel: nat): Outcome<Real>
    decreases fuel, 1, 0
  {
    Simplify(Sum(SumTerms(x) + SumTerms(y)), fuel)
  }

  /**
   * Go's Mul: the flattened factors of x then of y, as a product, simplified.
   * Since product.Simplify builds a sum node, so does every finished Mul.
   */
  function Mul(x: Real, y: Real, fuel: nat): (r: Outcome<Real>)
    ensures r.Done? ==> r.value.Sum?
    decreases fuel, 1, 0
  {
    Simplify(Product(ProductFactors(x) + ProductFactors(y)), fuel)
  }

  /** Go's Pow: the power node, simplified; a finished Pow is again a power node. */
  function Pow(b: Real, e: Real, fuel: nat): (r: Outcome<Real>)
    ensures r.Done? ==> r.value.Power?
    ensures r.Panic? ==> fuel > 0 && (Simplify(b, fuel - 1).Panic? || Simplify(e, fuel - 1).Panic?)
    decreases fuel, 1, 0
  {
    Simplify(Power(b, e), fuel)
  }

  // ---------------------------------------------------------------------
  // The renderer
  // ---------------------------------------------------------------------

  /** Go's `String`. */
  function String(x: Real): string
    decreases x, 1
  {
    match x
    case Num(q) => Rationals.RationalString(q)
    case Logarithm(a) => "log(" + String(a) + ")"
    case Exponential(a) => "exp(" + String(a) + ")"
    case Sum(ops) => Text.Join(OperandStrings(x), " + ")
    case Product(ops) => Text.Join(FactorStrings(x), " ")
    case Power(b, e) => Grouped(b) + "^" + Grouped(e)
    case Undefined => "UNDEFINED"
  }

  /** The rendering of each operand of a sum. */
  function OperandStrings(x: Real): (ss: seq<string>)
    requires x.Sum?
    ensures |ss| == |x.operands|
    decreases x, 0
  {
    seq(|x.operands|, i requires 0 <= i < |x.operands| => String(x.operands[i]))
  }

  /** The rendering of each factor of a product, a sum factor in parentheses. */
  function FactorStrings(x: Real): (ss: seq<string>)
    requires x.Product?
    ensures |ss| == |x.operands|
    decreases x, 0
  {
    seq(|x.operands|, i requires 0 <= i < |x.operands| => Factor(x.operands[i]))
  }

  function Factor(x: Real): string
    decreases x, 2
  {
    if x.Sum? then "(" + String(x) + ")" else String(x)
  }

  /** A base or exponent of a power: a sum or a product goes in parentheses. */
  function Grouped(x: Real): string
    decreases x, 2
  {
    if x.Sum? || x.Product? then "(" + String(x) + ")" else String(x)
  }
}
