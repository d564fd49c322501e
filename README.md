# goalgebra in Dafny

This is a model of the exact-arithmetic core of the Go library goalgebra. It has three layers:

- **Integers** (`integers.go`, module `Integers`). This layer wraps Go's `int64`:
  - truncating `Quotient` and `Mod`, both of which report division by zero;
  - wrapping `IntAdd`, `IntMul`, `IntMinus`, `IntAbs` and `IntSubtract`;
  - a recursive `IntPow` that rejects `0^0` and negative exponents;
  - Euclid's `GCD` loop.
- **Rationals** (`rationals.go`, module `Rationals`). A `rational` is an `integer` or a `fraction`. The zero fraction `0/0` is the sentinel `EmptyFraction`, which every operation returns in place of an error. This layer covers:
  - the sign-normalising constructor `Frac`;
  - gcd reduction `SimplifyRational`;
  - `Inv`, `RatMul`, `Div`, `RatPow`, `RatAdd`, `Minus`, `Subtract` and `Abs`;
  - the `String` renderer.
- **Symbolic reals** (`reals.go`, modules `Reals`, `RealLaws`, `RealSums`, `RealFuel`, `RealLoops` and `RealRendering`). The closed set of expression kinds is integer, fraction, logarithm, exponential, sum, product, power and undefined. This layer covers the per-kind `Simplify`, the constructors `Log`, `Exp`, `Add`, `Mul` and `Pow`, and the renderer `String`. `RealSums` follows `sum.Simplify` through a whole list of rational operands, round by round, and proves the value of the result.

Modelling choices:

- **64-bit arithmetic.** `Int64` is a subset type of `int`. `Wrap` reduces an unbounded integer to `int64` by two's-complement wrap-around, which is the rule of the "Integer overflow" subsection of the Go language specification.
  - Every integer operation is the wrapped result of the exact one.
  - Quotient and remainder truncate toward zero (`TruncDiv`, `TruncRem`), as in the "Integer operators" subsection of the same specification.
  - Errors are a `Result` whose `IntError` value replaces Go's error strings.
  - Go's constructor `Int` is the identity on `int64`, so an `integer` is the `Int64` value itself and `Int` has no Dafny counterpart.
- **No-overflow hypotheses.** The value laws of the rational layer carry a hypothesis `Safe(n, d)`. It says the fraction n/d that the operation builds fits in `int64`, and so does the product n·d. Outside that hypothesis the model still computes exactly what the Go code computes.
  - The reduction laws need less. `SimplifyRational` never tests the sign of the input pair. The divisible case never reaches `Frac` (rationals.go:75-81), and the other case calls `Frac` on the pair divided through by the gcd (rationals.go:91). So their hypothesis `ReduceSafe(n, d)` asks only that this reduced pair is `Safe`. `Rationals.ReduceBeyondSafe` shows two inputs, 2^32/2^32 and (3·2^31)/2^32, that are `ReduceSafe` but not `Safe`. `Rationals.SimplifyRationalDivisible` covers the divisible case with no hypothesis at all.
  - `Rationals.SimplifyRationalOverflow` exhibits a case where the wrapped sign test flips the sign of a fraction.
- **The GCD method and GcdOf.** `GCD` is a method with Go's loop, proved equal to the function `GcdOf`. `GcdOf` is Euclid's gcd of |a| and |b| wrapped to `int64`. Dafny functions cannot call methods, so `SimplifyRational` uses `GcdOf`.
- **Panics and non-termination.** `sum.Simplify` can panic and can recurse without bound. Every simplifier function therefore takes a `fuel` bound and returns an `Outcome`:
  - `Done(r)` is Go's result;
  - `Panic` is a Go runtime panic: an index out of range on an empty sum, or a method call on the nil partial sum;
  - `OutOfFuel` marks recursion deeper than the bound.

  `RealFuel.FuelIrrelevant` proves that a `Done` or `Panic` result is the same at every larger fuel, so it is the behaviour of the unbounded program. `RealLaws.RebuiltPairDiverges` and `RealLaws.LogPairDiverges` prove that two concrete sums are `OutOfFuel` at every fuel, that is, that Go's recursion on them never bottoms out. The Go program then dies with a fatal stack overflow ("goroutine stack exceeds") once the goroutine's stack limit is reached; that limit is not modelled.
- **What the code does, not what it appears to intend.** The model follows the code where it differs from the apparent intent:
  - the default rule of the exponential returns a *logarithm* node (reals.go:96), while the `Log` argument case does cancel `exp(log y)` to `y` simplified (reals.go:93-94), so `exp` and `log` cancel in both orders;
  - `product.Simplify` returns a *sum* node (reals.go:213);
  - two logarithms combine as `Log(Mul(x, y))` of the logarithm nodes themselves (reals.go:160);
  - `RatPow` does not reduce a fraction result (rationals.go:122);
  - the logarithm and exponential rules test the unsimplified argument, so `Simplify` is not idempotent (`RealLaws.SimplifyNotIdempotent`).
- **Rendering.** `fmt.Sprintf("%d")` is `Text.IntToString` and `strings.Join` is `Text.Join`. Both come with an inverse, `Text.ParseInt` and `Text.Split`, so the laws about renderings can be stated as round trips. The append loops of `sum.Simplify`, `product.Simplify`, `sum.String` and `product.String` are also written as Dafny loops in `RealLoops`, each proved equal to the function the rest of the model uses.

## Model

| member | source | states |
|---|---|---|
| Integers.Wrap | integers.go:21-27 | The two's-complement wrap is the identity on in-range values and is congruent to its argument modulo 2^64. |
| Integers.Quotient | integers.go:14-19 | Fails, with DivisionByZero, exactly when the divisor is 0. |
| Integers.Mod | integers.go:29-34 | Fails, with DivisionByZero, exactly when the divisor is 0. |
| Integers.DivisionIdentity | integers.go:14-34 | For b ≠ 0, q·b + r == a in int64 arithmetic, where q and r are the quotient and the remainder. The identity is exact except for MinInt64 / -1, where q wraps to MinInt64 and r is 0. Also \|r\| < \|b\|, and a non-zero r has the sign of a. |
| Integers.IntMul | integers.go:21-23 | The exact product when it fits in int64; otherwise a value congruent to it modulo 2^64. |
| Integers.IntAdd | integers.go:25-27 | The exact sum when it fits in int64; otherwise a value congruent to it modulo 2^64. |
| Integers.IntMinus | integers.go:36-38 | -a, except that MinInt64 is its own negation. |
| Integers.IntAbs | integers.go:40-45 | The identity on non-negative values and negation of negative ones; MinInt64 stays MinInt64. The result is ≥ 0 exactly when the input is not MinInt64. |
| Integers.IntPow | integers.go:47-65 | 0^0 fails with UndefinedZeroPow, tested first. Any other negative exponent fails with NegativeExponent. Otherwise the result is the exact power a^b wrapped to int64. |
| Integers.IntPowCases | integers.go:47-59 | It fails exactly on 0^0 or a negative exponent, with the error each case gives. 0^b is 0 for b > 0, and a^0 is 1 for a ≠ 0. |
| Integers.IntPowStep | integers.go:60-64 | For a ≠ 0 and b > 0, IntPow(a, b) is IntMul(IntPow(a, b-1), a). |
| Integers.IntPowExact | integers.go:47-65 | Without overflow, IntPow(a, b) is the exact a^b. |
| Integers.IntSubtract | integers.go:67-69 | The difference a - b wrapped to int64. |
| Integers.SubtractIsAddMinus | integers.go:67-69 | IntSubtract(a, b) == IntAdd(a, IntMinus(b)), and it is exact when a - b fits. |
| Integers.GcdOf | integers.go:71-80 | The gcd divides both inputs, and every common divisor divides it. It is ≥ 0, or MinInt64 when the true gcd is 2^63. It is 0 exactly when both inputs are 0. |
| Integers.GCD | integers.go:71-80 | The loop returns GcdOf(a, b). So the result divides both inputs and every common divisor divides it, and it is ≥ 0 when neither input is MinInt64. The loop invariant keeps the set of common divisors and the gcd of the absolute values; the loop terminates because \|b\| strictly decreases. |
| Integers.GcdOfZero | integers.go:71-80 | GCD(a, 0) == GCD(0, a) == IntAbs(a), and GCD(0, 0) == 0. |
| Text.IntToString | rationals.go:29-31 | "%d" rendering is non-empty and starts with '-' exactly for negative numbers. |
| Text.IntRoundTrip | rationals.go:29-31 | The decimal rendering of v parses back to v. |
| Text.IntToStringInjective | rationals.go:29-31 | Distinct integers render differently. |
| Text.SplitJoin | reals.go:174 | Splitting a join at its separator gives back the parts, provided no part contains the separator's first character. |
| Rationals.Frac | rationals.go:19-27 | Frac(a, 0) is EmptyFraction, and only b == 0 gives it. Otherwise the denominator is IntAbs(b). Without overflow the denominator is \|b\| > 0, the numerator is \|a\| or -\|a\| according to the sign of a·b, and the value a/b is kept. |
| Rationals.Numerator | rationals.go:37-46 | A proper rational denotes Numerator(u)/Denominator(u); EmptyFraction's numerator reads as 0. |
| Rationals.Denominator | rationals.go:48-57 | The denominator reads as 0 exactly for a fraction with a zero denominator, EmptyFraction included, and is positive for every proper rational. |
| Rationals.NumeratorDenominator | rationals.go:37-57 | EmptyFraction reads as (0, 0), an integer n as (n, 1), and any other fraction as its stored fields; every proper rational denotes Numerator/Denominator. |
| Rationals.SimplifyRational | rationals.go:63-92 | An integer is returned unchanged, and a fraction with a zero denominator gives EmptyFraction. |
| Rationals.SimplifyRationalDivisible | rationals.go:67-81 | A fraction whose denominator divides its numerator reduces to the integer quotient, for every size of numerator and denominator. The one quotient that does not fit, MinInt64 / -1, wraps to MinInt64. |
| Rationals.SimplifyRationalCorrect | rationals.go:67-92 | Reducing a fraction n/d whose gcd-reduced pair does not overflow (`ReduceSafe`) gives a rational of value n/d in lowest terms. The result is an integer exactly when d divides n, its parts are no larger than n and d, and a fraction result is itself `Safe`. |
| Rationals.ReduceBeyondSafe | rationals.go:67-92 | 2^32/2^32 reduces to 1 and (3·2^31)/2^32 to 3/2, though neither input is `Safe`; both are `ReduceSafe`. |
| Rationals.ReducedIsFixed | rationals.go:63-92 | A rational already in lowest terms whose sign test does not overflow (`Safe`) is unchanged by reduction. |
| Rationals.ReducedMovesOnOverflow | rationals.go:19-27 | The fraction -3/(2^62+1) is in lowest terms and still changes under reduction, so ReducedIsFixed needs its `Safe` hypothesis. |
| Rationals.SimplifyRationalIdempotent | rationals.go:63-92 | Reducing twice is reducing once, for every integer, for every fraction with a zero denominator, and for every fraction whose gcd-reduced pair does not overflow (`ReduceSafe`). |
| Rationals.SimplifyRationalCanonical | rationals.go:67-92 | Two fractions of equal value whose gcd-reduced pairs do not overflow (`ReduceSafe`) reduce to the same rational. |
| Rationals.SimplifyRationalOverflow | rationals.go:19-27 | Outside the no-overflow hypothesis, -3/(2^62+1) reduces to 3/(2^62+1) and back, because Frac's sign test uses the wrapped product. |
| Rationals.RatMul | rationals.go:94-102 | EmptyFraction whenever w's numerator is 0 or u is EmptyFraction. Its value law is RatMulValue, and RatMulZeroLeft covers a zero left factor. |
| Rationals.RatMulEmpty | rationals.go:94-102 | RatMul(u, w) is EmptyFraction whenever w's numerator is 0. In particular RatMul(u, Int(0)) is EmptyFraction, and so is RatMul(EmptyFraction, w). |
| Rationals.RatMulZeroLeft | rationals.go:94-102 | Int(0) times a proper rational with a non-zero numerator is Int(0). |
| Rationals.RatMulValue | rationals.go:94-102 | Without overflow, RatMul is the product (nu·nw)/(du·dw) in lowest terms. |
| Rationals.Inv | rationals.go:59-61 | EmptyFraction whenever u's numerator is 0. Its value law is InvValue. |
| Rationals.InvValue | rationals.go:59-61 | Inv is EmptyFraction when the numerator is 0, including EmptyFraction itself. Otherwise it is the reciprocal in lowest terms. |
| Rationals.Div | rationals.go:103-105 | EmptyFraction whenever w's numerator is 0 or u is EmptyFraction. Its value law is DivValue. |
| Rationals.DivByZero | rationals.go:103-105 | Dividing by a rational with a zero numerator gives EmptyFraction. |
| Rationals.DivValue | rationals.go:103-105 | Without overflow, Div(u, w) is (nu·dw)/(du·nw) in lowest terms. |
| Rationals.RatAdd | rationals.go:127-135 | EmptyFraction whenever either operand is EmptyFraction. Its other laws are RatAddValue and RatAddCommutes. |
| Rationals.RatAddEmpty | rationals.go:127-135 | EmptyFraction on either side makes the denominator product 0, so the sum is EmptyFraction. |
| Rationals.RatAddValue | rationals.go:127-135 | Without overflow, RatAdd is the cross-multiplied sum (nu·dw + du·nw)/(du·dw) in lowest terms. |
| Rationals.RatAddCommutes | rationals.go:127-135 | RatAdd(u, w) == RatAdd(w, u) for all inputs, overflow included. |
| Rationals.Minus | rationals.go:137-145 | Keeps the kind: an integer stays an integer and a fraction a fraction; EmptyFraction stays EmptyFraction. Its value law is MinusValue. |
| Rationals.MinusValue | rationals.go:137-145 | Minus negates the numerator and keeps the denominator, and it is an involution. Integers wrap; fractions are covered without overflow. EmptyFraction stays EmptyFraction. |
| Rationals.Subtract | rationals.go:147-149 | EmptyFraction whenever either operand is EmptyFraction. Its value law is SubtractValue. |
| Rationals.SubtractValue | rationals.go:147-149 | Without overflow, Subtract is the cross-multiplied difference (nu·dw - du·nw)/(du·dw) in lowest terms. |
| Rationals.Abs | rationals.go:151-159 | Keeps the kind; an integer result is non-negative unless it is MinInt64; EmptyFraction stays EmptyFraction. Its value law is AbsValue. |
| Rationals.AbsValue | rationals.go:151-159 | Abs makes the numerator non-negative, keeps the denominator, and is idempotent. On fractions it ignores the sign, Abs(Minus(u)) == Abs(u). EmptyFraction stays EmptyFraction. |
| Rationals.RatPow | rationals.go:107-125 | EmptyFraction for a negative exponent and for EmptyFraction itself. Its other cases are RatPowCases and RatPowFraction. |
| Rationals.RatPowCases | rationals.go:107-115 | A negative exponent, 0^0, or a u that reduces to EmptyFraction gives EmptyFraction. A u that reduces to an integer v gives the wrapped v^n. |
| Rationals.RatPowFraction | rationals.go:116-122 | A u that reduces to the fraction a/b gives Frac(a^n, b^n) unreduced: a^n/b^n without overflow, and the fraction 1/1 for n == 0. |
| Rationals.RationalString | rationals.go:29-35 | No contract of its own. Its round trip is RationalStringRoundTrip, and RealRendering.RationalNoBlank and RealRendering.FractionRendering describe its output. |
| Rationals.RationalStringRoundTrip | rationals.go:29-35 | The String of every integer and fraction parses back to that rational. |
| Reals.Log | reals.go:37-40 | Log only wraps its argument in a logarithm node. |
| Reals.Exp | reals.go:70-73 | Exp only wraps its argument in an exponential node. |
| Reals.Simplify | reals.go:16-283 | No contract of its own. Its laws are one row each below: NumSimplify, LogSimplify, ExpSimplify, the sum rows from SingletonSum to LogPairDiverges, ProductSimplify, PowerSimplify and UndefinedSimplify, and RealFuel.FuelIrrelevant for the fuel bound. |
| Reals.Add | reals.go:104-121 | No contract of its own. Its laws are AddFlattens and AddIntegers, and the RealSums rows give the value of a sum of rationals. |
| Reals.Mul | reals.go:182-199 | A Mul that finishes is a SUM node, because product.Simplify builds one (reals.go:213). Its other laws are MulFlattens and MulIntegers. |
| Reals.Pow | reals.go:237-239 | A Pow that finishes is again a power node, and a panic comes from simplifying the base or the exponent. PowerSimplify gives the node exactly. |
| Reals.String | reals.go:42-287 | No contract of its own. Its laws are the RealRendering rows and the two RealLoops rendering loops. |
| RealLaws.NumSimplify | reals.go:16-26 | An integer simplifies to itself, and a fraction to SimplifyRational of it. |
| RealLaws.LogSimplify | reals.go:45-59 | A raw argument of integer 1, or a fraction reducing to 1, gives Int(0), and exp(y) gives y simplified. A rational argument otherwise gives Log of its reduction. Any other argument gives Log of the simplified argument, and a failure to simplify it propagates unchanged. |
| RealLaws.ExpSimplify | reals.go:83-97 | A raw argument of integer 0, or a fraction reducing to 0, gives Int(1), and log(y) gives y simplified. Every other argument gives a LOGARITHM node of the simplified argument, and a failure to simplify it propagates unchanged. |
| RealLaws.LogExpCancel | reals.go:45-97 | log(exp y) and exp(log y) both simplify to y simplified. |
| RealLaws.SimplifyNotIdempotent | reals.go:83-97 | exp(1) simplifies to log(1), and simplifying that again gives 0. |
| RealLaws.ProductSimplify | reals.go:208-214 | A product simplifies to a SUM node of its individually simplified factors, with nothing combined; a panic propagates. |
| RealLaws.MulIntegers | reals.go:182-214 | Mul of two integers is the two-operand sum node of those integers. |
| RealLaws.PowerSimplify | reals.go:237-250 | Pow simplifies base and exponent independently and rebuilds the power node. |
| RealLaws.UndefinedSimplify | reals.go:281-283 | Undefined simplifies to itself. |
| RealLaws.SimplifyAllSpec | reals.go:133-136 | The operand loop finishes exactly when every operand does. It then holds each operand's simplification, in order. |
| RealLaws.SimplifyAllFailure | reals.go:133-136 | The first operand that panics or runs out ends the loop the same way. |
| RealLaws.SingletonSum | reals.go:130-132 | A one-operand sum is its operand simplified. |
| RealLaws.EmptySumPanics | reals.go:129-138 | An empty sum is an index-out-of-range panic. |
| RealLaws.PairSumTable | reals.go:137-164 | Integer plus integer uses IntAdd, and any other rational pair uses RatAdd. Logarithm plus logarithm gives Log(Mul(x, y)). Any other partner after a rational or a logarithm gives the two-operand sum. Any other first operand leaves no partial sum. |
| RealLaws.PairStep | reals.go:129-166 | A two-operand sum whose operands finish goes through the pair table then Add to the empty rest, and a nil partial sum panics. |
| RealLaws.SumStep | reals.go:137-166 | A sum of at least two operands that simplify to themselves continues as Add of the partial sum and the remaining operands. |
| RealLaws.NilPartialSumPanics | reals.go:137-166 | A sum of two or more operands that all finish, whose first operand simplifies to something other than a rational or a logarithm, panics on the nil partial sum. |
| RealLaws.UndefinedSumPanics | reals.go:137-166 | UNDEFINED + UNDEFINED panics. |
| RealLaws.IntegerSum | reals.go:129-166 | A sum of any non-empty list of integers left-folds to the integer that their total wraps to. |
| RealLaws.IntegersFixed | reals.go:16-18 | The operand loop leaves a list of integers unchanged. |
| RealLaws.AddIntegers | reals.go:104-121 | Add of two integers is their IntAdd. For example, Add(Int(3), Int(4)) == Int(7). |
| RealLaws.AddFlattens | reals.go:104-121 | Add splices the operands of a sum argument, one level deep, x's operands before y's; any other argument is a single operand. |
| RealLaws.MulFlattens | reals.go:182-199 | Mul splices the factors of a product argument, one level deep, x's before y's, on either side or both; any other argument is a single factor. |
| RealLaws.RationalPair | reals.go:137-166 | Two rationals that are fixed by reduction and not both integers simplify to the reduction of their RatAdd. |
| RealLaws.RationalPairSum | reals.go:137-166 | Two rationals in lowest terms, not both integers, add without overflow to RatAdd(u, w). That is the value of u + w in lowest terms. |
| RealLaws.AddStaysReduced | rationals.go:127-135 | A RatAdd result without overflow is in lowest terms with the cross-multiplied value, and reducing it again changes nothing. |
| RealLaws.RebuiltPairDiverges | reals.go:144-166 | 1 + UNDEFINED never finishes: at every fuel the result is OutOfFuel, because the pair is rebuilt unchanged and fed back through Add. In Go the unbounded recursion ends in a fatal stack overflow. |
| RealLaws.LogPairDiverges | reals.go:157-166 | log(2) + log(3) never finishes: at every fuel the result is OutOfFuel, because Mul of two logarithms is a sum of those logarithms again. In Go the unbounded recursion ends in a fatal stack overflow. |
| RealSums.SimplifyNums | reals.go:133-136 | The operand loop over rational operands yields each rational reduced, in order. |
| RealSums.FoldSum | reals.go:129-166 | A partial sum in front of rational operands simplifies, round by round with every operand reduced again, to RatFold of them. |
| RealSums.SumOfRationals | reals.go:129-166 | A sum whose operands each simplify to a rational simplifies to RationalSum of those rationals, given more fuel than operands. |
| RealSums.PairAddValue | reals.go:137-164 | One pair step on two rationals in lowest terms, without overflow, gives a rational in lowest terms whose value is the sum of theirs. |
| RealSums.FoldValue | reals.go:137-166 | Without overflow in any partial sum, the fold from a partial sum over rationals in lowest terms is in lowest terms and has the value of the partial sum plus the operands. |
| RealSums.RationalSumValue | reals.go:129-166 | Without overflow in any partial sum, RationalSum of rationals in lowest terms is in lowest terms and has the value of their sum. |
| RealSums.SumOfRationalsValue | reals.go:129-166 | sum.Simplify adds rationals: operands that simplify to rationals in lowest terms, with no partial sum overflowing, give a rational in lowest terms whose value is the sum of theirs. |
| RealFuel.SimplifyFuel | reals.go:129-167 | One more unit of fuel does not change a result that was reached. |
| RealFuel.FuelIrrelevant | reals.go:129-167 | A Done or Panic result stays the same at every larger fuel. |
| RealFuel.FuelsAgree | reals.go:129-167 | Any two fuels that both finish give the same result. |
| RealLoops.SimplifyOperands | reals.go:133-136 | Go's append loop over the operands computes SimplifyAll, and on success has one result per operand. The same loop is product.Simplify's (reals.go:209-212), which `RealLaws.ProductSimplify` states through SimplifyAll. |
| RealLoops.SumString | reals.go:169-175 | Go's rendering loop of a sum computes String. |
| RealLoops.ProductString | reals.go:216-229 | Go's rendering loop of a product, with sums parenthesised, computes String. |
| RealRendering.RationalNoBlank | rationals.go:29-35 | A rendered integer or fraction contains no blank. |
| RealRendering.SumStringSplits | reals.go:169-175 | Splitting a sum's rendering at " + " gives each operand's rendering, when no operand renders with a blank. |
| RealRendering.ProductStringSplits | reals.go:216-229 | Splitting a product's rendering at " " gives each factor's rendering, for blank-free non-sum factors. |
| RealRendering.IntegerSumReadsBack | reals.go:169-175 | The rendering of a sum of integers splits and parses back to those integers, in order. |
| RealRendering.IntegerProductReadsBack | reals.go:216-229 | The rendering of a product of integers splits and parses back to those integers, in order. |
| RealRendering.LogArgument | reals.go:42-44 | The rendering is "log(", then the argument's rendering, then ")". |
| RealRendering.ExpArgument | reals.go:79-81 | The rendering is "exp(", then the argument's rendering, then ")". |
| RealRendering.PowerBaseGrouped | reals.go:252-272 | A sum or product base is rendered in parentheses, with its own rendering recoverable between them. |
| RealRendering.PowerExponentGrouped | reals.go:252-272 | A sum or product exponent is rendered as "^(", its own rendering, then ")", after the (grouped) base. |
| RealRendering.PowerPlain | reals.go:252-272 | A base and exponent that are neither sums nor products render as base^exponent with no parentheses. |
| RealRendering.SmallSumRendering | reals.go:169-175 | Sum(1, 2) renders as "1 + 2". |
| RealRendering.PowerRendering | reals.go:252-272 | (1 + 2)^3 renders with its sum base parenthesised. |
| RealRendering.ProductRendering | reals.go:216-229 | Product((1 + 2), log(2)) renders as "(1 + 2) log(2)". |
| RealRendering.UndefinedRendering | reals.go:285-287 | Undefined renders as "UNDEFINED", and exp(undefined) as "exp(UNDEFINED)". |
| RealRendering.FractionRendering | rationals.go:33-35 | The fraction -1/2 renders as "-1/2". |
| RealRendering.EmptySumRendering | reals.go:169-175 | A sum without operands renders as "". |
| RealRendering.RenderingForgetsNesting | reals.go:169-175 | A sum holding the sum 1 + 2 renders the same as 1 + 2, so rendering is not injective on nested sums. |

## Left out

- `toGoSymbol` (every kind) is not modelled. It calls into the external gosymbol library and converts to `float64`.
- The library's demo program `main.go` is not part of this model. It only prints.
- Go's embedded `real` and `rational` interface fields (integers.go:6, rationals.go:12, reals.go:33 and the other structs) are not modelled. They are always nil, and the datatype variants replace them.
- The dead error branch of `GCD` (integers.go:74-76) and the unreachable `return nil` ends (rationals.go:124, 144, 158) are not modelled. No input reaches them: `GCD` calls `Mod` only with a non-zero divisor, and the type switches are exhaustive.
- The internals of `fmt.Sprintf` and `strings.Join` are not modelled. `Text.IntToString` and `Text.Join` stand in for the two uses the renderers make of them.
- General termination of `sum.Simplify` is not modelled; fuel bounds the recursion instead. `OutOfFuel` is not a Go behaviour. It marks an input on which the fuel was too small, or on which Go's recursion never bottoms out and the program dies with a fatal stack overflow (`RealLaws.RebuiltPairDiverges`, `RealLaws.LogPairDiverges`).
- The goroutine stack limit is not modelled. `IntPow` recurses once per unit of the exponent, not in tail position (integers.go:60), so `IntPow(1, 1_000_000_000)` ends the Go program with a fatal "goroutine stack exceeds" error, while `Integers.IntPow` returns `Success(1)`. The same holds for `RatPow`, which calls `IntPow` (rationals.go:111, 117-118). Every result the model states for a deep recursion is what Go computes when the stack suffices.
- Rationals.SimplifyRationalCorrect: requires `ReduceSafe(num, den)`, that is, the pair divided through by the gcd is `Safe`. Without it, `Frac`'s sign test on that pair can choose the wrong sign (`Rationals.SimplifyRationalOverflow`). The hypothesis is slightly stronger than needed in the divisible case, where it excludes n/±1 with n = MinInt64; `Rationals.SimplifyRationalDivisible` covers every divisible input instead.
- Rationals.SimplifyRationalIdempotent: requires `ReduceSafe` for fractions with a non-zero denominator. `Rationals.SimplifyRationalOverflow` shows that reduction is not idempotent once the sign test overflows.
- Rationals.SimplifyRationalCanonical: requires both fractions to be `ReduceSafe`.
- Rationals.RatMulValue: the value law holds only when the product fraction is `Safe`; beyond that the model computes the wrapped result like Go, with no value law.
- Rationals.InvValue: the reciprocal law requires `Safe(den, num)`.
- Rationals.DivValue: requires the reciprocal and the quotient fraction to be `Safe`.
- Rationals.RatAddValue: requires the cross-multiplied sum to be `Safe`.
- Rationals.SubtractValue: requires the negation of w and the cross-multiplied difference to be `Safe`.
- Rationals.MinusValue: the fraction law requires `Safe(num, den)`.
- Rationals.AbsValue: the fraction law requires `Safe(num, den)`.
- Rationals.RatPowFraction: requires `a^n` and `b^n` to form a `Safe` fraction.
- Integers.GCD: the non-negativity promise excludes an input of MinInt64, where `IntAbs` leaves a gcd of 2^63 negative.
- Integers.IntPowExact: exact only without overflow; `Integers.IntPow` itself states the wrapped value for every input.
- RealLaws.IntegerSum: needs more fuel than there are operands. `RealFuel.FuelIrrelevant` carries the result to any larger fuel.
- RealLaws.RationalPairSum: covers two rational operands, not both integers, only. Two integers are covered by `RealLaws.AddIntegers`. Sums of any length are covered by `RealSums.SumOfRationals` and `RealSums.SumOfRationalsValue`.
- Rationals.ReducedIsFixed: requires `Safe` for fractions. Without it, reduction can move a fraction that is already in lowest terms (`Rationals.ReducedMovesOnOverflow`).
- RealSums.RationalSumValue: requires operands in lowest terms (`Operand`) and no partial sum to overflow (`FoldSafe`); beyond that `RealSums.SumOfRationals` still gives the wrapped result Go computes, with no value law.
- RealSums.FoldValue: requires the same `Operand` and `FoldSafe` hypotheses as `RealSums.RationalSumValue`.
- RealSums.SumOfRationalsValue: requires the same `Operand` and `FoldSafe` hypotheses as `RealSums.RationalSumValue`.
