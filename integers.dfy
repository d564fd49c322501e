/**
 * The integer layer: Go's `integer` wrapper around `int64`.
 *
 * Values are the mathematical integers in the int64 range (`Int64`).
 * Addition, multiplication and negation wrap around modulo 2^64 as Go's
 * "Integer overflow" rule prescribes; `Wrap` makes that explicit.
 * Division and remainder truncate toward zero as Go's integer operators do,
 * which differs from Dafny's Euclidean `/` and `%`.
 */
module Integers {
  import opened Wrappers

  const MinInt64: int := -0x8000_0000_0000_0000
  const MaxInt64: int := 0x7FFF_FFFF_FFFF_FFFF
  /** 2^64, the modulus of two's-complement int64 arithmetic. */
  const Modulus: int := 0x1_0000_0000_0000_0000

  predicate InRange(x: int) {
    MinInt64 <= x <= MaxInt64
  }

  /** The values a Go `int64` can hold. */
  type Int64 = x: int | -0x8000_0000_0000_0000 <= x <= 0x7FFF_FFFF_FFFF_FFFF

  /** The three error conditions the integer layer reports. */
  datatype IntError =
    | DivisionByZero      // "Division by 0"
    | UndefinedZeroPow    // "Undefined 0^0"
    | NegativeExponent    // "exponent in IntPow must be non negative"

  // ---------------------------------------------------------------------
  // Mathematical helpers
  // ---------------------------------------------------------------------

  function NatAbs(x: int): nat {
    if x < 0 then -x else x
  }

  /** x^n over the unbounded integers. */
  function ExactPow(x: int, n: nat): int {
    if n == 0 then 1 else ExactPow(x, n - 1) * x
  }

  /** `d` divides `n` (every `d` divides 0; 0 divides only 0). */
  predicate Divides(d: int, n: int) {
    if d == 0 then n == 0 else n % d == 0
  }

  /** Quotient truncated toward zero, as Go's `/` on integers. */
  function TruncDiv(a: int, b: int): int
    requires b != 0
  {
    if (a < 0) == (b < 0) then NatAbs(a) / NatAbs(b) else -(NatAbs(a) / NatAbs(b))
  }

  /** Remainder of the truncated division, as Go's `%` on integers. */
  function TruncRem(a: int, b: int): int
    requires b != 0
  {
    if a < 0 then -(NatAbs(a) % NatAbs(b)) else NatAbs(a) % NatAbs(b)
  }

  /** Two's-complement wrap-around of an unbounded integer into int64. */
  function Wrap(x: int): (r: Int64)
    ensures InRange(x) ==> r == x
    ensures (x - r) % Modulus == 0
  {
    (x - MinInt64) % Modulus + MinInt64
  }

  // ---------------------------------------------------------------------
  // The operations of integers.go
  // ---------------------------------------------------------------------

  /** Truncating quotient; division by zero is an error. */
  function Quotient(a: Int64, b: Int64): (r: Result<Int64, IntError>)
    ensures r.Failure? <==> b == 0
    ensures r.Failure? ==> r.error == DivisionByZero
  {
    if b == 0 then Failure(DivisionByZero) else Success(Wrap(TruncDiv(a, b)))
  }

  function IntMul(a: Int64, b: Int64): (r: Int64)
    ensures InRange(a * b) ==> r == a * b
    ensures (a * b - r) % Modulus == 0
  {
    Wrap(a * b)
  }

  function IntAdd(a: Int64, b: Int64): (r: Int64)
    ensures InRange(a + b) ==> r == a + b
    ensures (a + b - r) % Modulus == 0
  {
    Wrap(a + b)
  }

  /** Truncating remainder; division by zero is an error. */
  function Mod(a: Int64, b: Int64): (r: Result<Int64, IntError>)
    ensures r.Failure? <==> b == 0
    ensures r.Failure? ==> r.error == DivisionByZero
  {
    if b == 0 then Failure(DivisionByZero) else Success(Wrap(TruncRem(a, b)))
  }

  function IntMinus(a: Int64): (r: Int64)
    ensures a != MinInt64 ==> r == -a
    ensures a == MinInt64 ==> r == MinInt64
  {
    Wrap(-(a as int))
  }

  /** Absolute value; the most negative int64 is its own negation. */
  function IntAbs(a: Int64): (r: Int64)
    ensures a >= 0 ==> r == a
    ensures a < 0 && a != MinInt64 ==> r == -a
    ensures a == MinInt64 ==> r == MinInt64
    ensures r >= 0 <==> a != MinInt64
  {
    if a < 0 then IntMinus(a) else a
  }

  /**
   * a^b by recursion on b. 0^0 and negative exponents are errors (0^0 is
   * tested first); otherwise the result is the wrapped power.
   */
  function IntPow(a: Int64, b: Int64): (r: Result<Int64, IntError>)
    ensures r == if a == 0 && b == 0 then Failure(UndefinedZeroPow)
                 else if b < 0 then Failure(NegativeExponent)
                 else Success(Wrap(ExactPow(a, b)))
    decreases if b < 0 then 0 else b
  {
    if a == 0 && b == 0 then Failure(UndefinedZeroPow)
    else if b < 0 then Failure(NegativeExponent)
    else if a == 0 then PowZero(b); Success(0)
    else if b == 0 then Success(1)
    else
      match IntPow(a, IntSubtract(b, 1))
      case Failure(e) => Failure(e)
      case Success(p) =>
        IntMulPowStep(a, b);
        Success(IntMul(p, a))
  }

  function IntSubtract(a: Int64, b: Int64): (r: Int64)
    ensures r == Wrap(a - b)
  {
    WrapAddRight(a, -(b as int));
    IntAdd(a, IntMinus(b))
  }

  /** The reference greatest common divisor of two naturals (Euclid). */
  function NatGcd(x: nat, y: nat): nat
    decreases y
  {
    if y == 0 then x else NatGcd(y, x % y)
  }

  /**
   * What `GCD` returns: the greatest common divisor of |a| and |b| as an
   * int64, which is the most negative int64 when that divisor is 2^63.
   */
  function GcdOf(a: Int64, b: Int64): (g: Int64)
    ensures Divides(g, a) && Divides(g, b)
    ensures forall d :: Divides(d, a) && Divides(d, b) ==> Divides(d, g)
    ensures g >= 0 || g == MinInt64
    ensures g == 0 <==> a == 0 && b == 0
  {
    var n := NatGcd(NatAbs(a), NatAbs(b));
    NatGcdDivides(NatAbs(a), NatAbs(b));
    NatGcdBound(NatAbs(a), NatAbs(b));
    assert n != 0 ==> Divides(Wrap(n), a) && Divides(Wrap(n), b) by {
      if n != 0 {
        DividesAbs(n, a);
        DividesAbs(n, b);
        if n == Modulus / 2 {
          WrapHalf();
          DividesNegate(n, a);
          DividesNegate(n, b);
        }
      }
    }
    forall d | Divides(d, a) && Divides(d, b) ensures Divides(d, Wrap(n)) {
      DividesAbs(d, a);
      DividesAbs(d, b);
      NatGcdGreatest(NatAbs(a), NatAbs(b), NatAbs(d));
      DividesAbs(d, n);
      if n == Modulus / 2 {
        WrapHalf();
        DividesNegate(d, n);
      }
    }
    Wrap(n)
  }

  /**
   * Euclid's algorithm on int64, as the loop in integers.go runs it:
   * while b != 0, (a, b) := (b, a mod b); then |a|.
   */
  method GCD(a0: Int64, b0: Int64) returns (g: Int64)
    ensures g == GcdOf(a0, b0)
    ensures Divides(g, a0) && Divides(g, b0)
    ensures forall d :: Divides(d, a0) && Divides(d, b0) ==> Divides(d, g)
    ensures a0 != MinInt64 && b0 != MinInt64 ==> g >= 0
  {
    var a, b := a0, b0;
    while b != 0
      invariant NatGcd(NatAbs(a), NatAbs(b)) == NatGcd(NatAbs(a0), NatAbs(b0))
      invariant forall d :: Divides(d, a) && Divides(d, b) <==> Divides(d, a0) && Divides(d, b0)
      invariant a == MinInt64 ==> a == a0 || a == b0
      invariant b == MinInt64 ==> b == b0
      decreases NatAbs(b)
    {
      var r := Mod(a, b).value;
      CommonDivisorsStep(a, b);
      a, b := b, r;
    }
    g := IntAbs(a);
    DividesAbs(g, a);
    forall d | Divides(d, a) ensures Divides(d, g) {
      DividesAbs(d, a);
      DividesAbs(d, g);
    }
  }

  // ---------------------------------------------------------------------
  // Properties of the integer layer
  // ---------------------------------------------------------------------

  /**
   * Quotient and Mod truncate toward zero: the remainder is smaller than the
   * divisor in magnitude and has the sign of the dividend, and
   * Quotient(a, b) * b + Mod(a, b) == a in int64 arithmetic, exactly unless
   * the quotient overflows (MinInt64 / -1, which wraps to MinInt64).
   */
  lemma DivisionIdentity(a: Int64, b: Int64)
    requires b != 0
    ensures var q, r := Quotient(a, b).value, Mod(a, b).value;
      && IntAdd(IntMul(q, b), r) == a
      && (!(a == MinInt64 && b == -1) ==> q * b + r == a)
      && (a == MinInt64 && b == -1 ==> q == MinInt64 && r == 0)
      && NatAbs(r) < NatAbs(b)
      && (r == 0 || (r < 0 <==> a < 0))
  {
    var q0, r0 := TruncDiv(a, b), TruncRem(a, b);
    TruncDivRem(a, b);
    var q, r := Quotient(a, b).value, Mod(a, b).value;
    assert r == r0;
    if a == MinInt64 && b == -1 {
      assert q0 == Modulus / 2;
      assert q == MinInt64;
      assert q * b + r == Modulus / 2;
    } else {
      assert InRange(q0) by { TruncDivBound(a, b); }
      assert q == q0;
    }
    calc {
      IntAdd(IntMul(q, b), r);
      { WrapMulLeft(q, b); }
      Wrap(IntMul(q, b) + r);
      { WrapAddLeft(q * b, r); }
      Wrap(q * b + r);
      { WrapMulLeft(q0, b); WrapMulLeft(q, b); }
      Wrap(q0 * b + r);
    }
  }

  /** IntPow's error cases and its values at the edges. */
  lemma IntPowCases(a: Int64, b: Int64)
    ensures IntPow(a, b).Failure? <==> (a == 0 && b == 0) || b < 0
    ensures a == 0 && b == 0 ==> IntPow(a, b) == Failure(UndefinedZeroPow)
    ensures b < 0 && !(a == 0 && b == 0) ==> IntPow(a, b) == Failure(NegativeExponent)
    ensures a == 0 && b > 0 ==> IntPow(a, b) == Success(0)
    ensures a != 0 && b == 0 ==> IntPow(a, b) == Success(1)
  {
    if a == 0 && b > 0 {
      PowZero(b);
    }
  }

  /** The recursive step: a^b == a^(b-1) * a in int64 arithmetic. */
  lemma IntPowStep(a: Int64, b: Int64)
    requires a != 0 && b > 0
    ensures IntPow(a, b) == Success(IntMul(IntPow(a, b - 1).value, a))
  {
    IntMulPowStep(a, b);
  }

  /** Without overflow, IntPow is the exact power. */
  lemma IntPowExact(a: Int64, b: Int64)
    requires b >= 0 && !(a == 0 && b == 0)
    requires InRange(ExactPow(a, b))
    ensures IntPow(a, b) == Success(ExactPow(a, b))
  {
  }

  /** Subtraction is addition of the negation, and is exact without overflow. */
  lemma SubtractIsAddMinus(a: Int64, b: Int64)
    ensures IntSubtract(a, b) == IntAdd(a, IntMinus(b))
    ensures InRange(a - b) ==> IntSubtract(a, b) == a - b
  {
  }

  /** GCD at the edges: GCD(a, 0) is IntAbs(a), so GCD(0, 0) == 0. */
  lemma GcdOfZero(a: Int64)
    ensures GcdOf(a, 0) == IntAbs(a)
    ensures GcdOf(0, a) == IntAbs(a)
    ensures GcdOf(0, 0) == 0
  {
    assert NatGcd(NatAbs(0), NatAbs(a)) == NatGcd(NatAbs(a), 0) by {
      if a != 0 {
        assert 0 % NatAbs(a) == 0;
      }
    }
  }

  // ---------------------------------------------------------------------
  // Wrap-around arithmetic
  // ---------------------------------------------------------------------

  lemma WrapCongruent(x: int, y: int)
    requires (x - y) % Modulus == 0
    ensures Wrap(x) == Wrap(y)
  {
    var k := (x - y) / Modulus;
    assert x == y + Modulus * k;
  }

  lemma WrapAddLeft(x: int, y: int)
    ensures Wrap(Wrap(x) + y) == Wrap(x + y)
  {
    WrapCongruent(Wrap(x) + y, x + y);
  }

  /** Adding to a wrapped sum wraps like adding to the exact sum. */
  lemma IntAddThenAdd(x: int, y: int, a: Int64, b: Int64, t: int)
    requires x == IntAdd(a, b) + t && y == a as int + b as int + t
    ensures Wrap(x) == Wrap(y)
  {
    WrapAddLeft(a as int + b as int, t);
  }

  lemma WrapAddRight(x: int, y: int)
    ensures Wrap(x + Wrap(y)) == Wrap(x + y)
  {
    WrapCongruent(x + Wrap(y), x + y);
  }

  lemma WrapMulLeft(x: int, y: int)
    ensures Wrap(Wrap(x) * y) == Wrap(x * y)
  {
    var k := (x - Wrap(x)) / Modulus;
    assert x - Wrap(x) == Modulus * k;
    assert x * y - Wrap(x) * y == Modulus * (k * y);
    MulMod(Modulus, k * y);
    WrapCongruent(Wrap(x) * y, x * y);
  }

  lemma IntMulPowStep(a: Int64, b: nat)
    requires b > 0
    ensures IntMul(Wrap(ExactPow(a, b - 1)), a) == Wrap(ExactPow(a, b))
  {
    WrapMulLeft(ExactPow(a, b - 1), a);
  }

  lemma WrapHalf()
    ensures Wrap(Modulus / 2) == MinInt64
  {
  }

  lemma PowZero(n: nat)
    requires n > 0
    ensures ExactPow(0, n) == 0
  {
  }

  // ---------------------------------------------------------------------
  // Truncating division
  // ---------------------------------------------------------------------

  lemma TruncDivRem(a: int, b: int)
    requires b != 0
    ensures TruncDiv(a, b) * b + TruncRem(a, b) == a
    ensures NatAbs(TruncRem(a, b)) < NatAbs(b)
    ensures TruncRem(a, b) == 0 || (TruncRem(a, b) < 0 <==> a < 0)
    ensures NatAbs(TruncRem(a, b)) == NatAbs(a) % NatAbs(b)
  {
    var q, r := NatAbs(a) / NatAbs(b), NatAbs(a) % NatAbs(b);
    assert NatAbs(a) == q * NatAbs(b) + r;
    MulSign(q, b);
  }

  lemma MulSign(q: int, b: int)
    ensures q * b == (if b < 0 then -(q * NatAbs(b)) else q * NatAbs(b))
    ensures (-q) * b == -(q * b)
  {
  }

  lemma TruncDivBound(a: int, b: int)
    requires b != 0
    ensures NatAbs(TruncDiv(a, b)) <= NatAbs(a)
  {
    DivLe(NatAbs(a), NatAbs(b));
  }

  lemma DivLe(x: nat, y: nat)
    requires y > 0
    ensures x / y <= x
  {
    var q: nat := x / y;
    assert q * y <= x;
    MulAtLeast(q, y);
  }

  /** Exact division: when b divides a, truncating division is exact. */
  lemma TruncDivExact(a: int, b: int)
    requires b != 0 && Divides(b, a)
    ensures TruncDiv(a, b) * b == a
    ensures TruncRem(a, b) == 0
  {
    DividesAbs(b, a);
    TruncDivRem(a, b);
  }

  // ---------------------------------------------------------------------
  // Divisibility
  // ---------------------------------------------------------------------

  /** A multiple of d leaves no remainder. */
  lemma MulMod(d: int, k: int)
    requires d != 0
    ensures (d * k) % d == 0
  {
    var q, r := (d * k) / d, (d * k) % d;
    assert d * k == d * q + r;
    assert r == d * (k - q);
    NonzeroMultiple(d, k - q);
  }

  /** A non-zero multiple of d is at least |d| in magnitude. */
  lemma NonzeroMultiple(d: int, t: int)
    ensures t != 0 ==> NatAbs(d * t) >= NatAbs(d)
  {
    AbsMul(d, t);
    if t != 0 {
      MulAtLeast(NatAbs(d), NatAbs(t));
    }
  }

  lemma MulAtLeast(x: nat, m: nat)
    requires m > 0
    ensures x * m >= x
  {
  }

  lemma AbsMul(x: int, y: int)
    ensures NatAbs(x * y) == NatAbs(x) * NatAbs(y)
  {
    if x < 0 && y < 0 {
      assert x * y == (-x) * (-y);
    } else if x < 0 {
      assert -(x * y) == (-x) * y;
    } else if y < 0 {
      assert -(x * y) == x * (-y);
    }
  }

  /** A remainder-free division has a witness quotient. */
  lemma DividesWitness(d: int, n: int)
    requires d != 0 && Divides(d, n)
    ensures n == d * (n / d)
  {
  }

  lemma DividesByWitness(d: int, n: int, k: int)
    requires n == d * k
    ensures Divides(d, n)
  {
    if d != 0 {
      MulMod(d, k);
    }
  }

  lemma DividesNegate(d: int, n: int)
    requires Divides(d, n)
    ensures Divides(-d, n) && Divides(d, -n)
  {
    if d != 0 {
      DividesWitness(d, n);
      var k := n / d;
      DividesByWitness(-d, n, -k);
      DividesByWitness(d, -n, -k);
    }
  }

  lemma DividesAbs(d: int, n: int)
    ensures Divides(d, n) <==> Divides(NatAbs(d), NatAbs(n))
  {
    if Divides(d, n) {
      if d < 0 { DividesNegate(d, n); }
      if n < 0 { DividesNegate(NatAbs(d), n); }
    }
    if Divides(NatAbs(d), NatAbs(n)) {
      if d < 0 { DividesNegate(NatAbs(d), NatAbs(n)); }
      if n < 0 { DividesNegate(if d < 0 then d else NatAbs(d), NatAbs(n)); }
    }
  }

  lemma DividesLinear(d: int, x: int, y: int, c: int)
    requires Divides(d, x) && Divides(d, y)
    ensures Divides(d, x + c * y)
  {
    if d != 0 {
      DividesWitness(d, x);
      DividesWitness(d, y);
      var kx, ky := x / d, y / d;
      assert x + c * y == d * (kx + c * ky);
      DividesByWitness(d, x + c * y, kx + c * ky);
    }
  }

  /** A positive divisor of a positive number is not larger than it. */
  lemma DividesLe(d: int, n: int)
    requires d > 0 && n > 0 && Divides(d, n)
    ensures d <= n
  {
    DividesWitness(d, n);
    var k := n / d;
    assert k > 0;
    MulAtLeast(d, k);
  }

  /** One loop step of Euclid keeps the common divisors. */
  lemma CommonDivisorsStep(a: Int64, b: Int64)
    requires b != 0
    ensures forall d :: Divides(d, a) && Divides(d, b) <==> Divides(d, b) && Divides(d, Mod(a, b).value)
    ensures NatAbs(Mod(a, b).value) == NatAbs(a) % NatAbs(b)
  {
    ModIsTruncRem(a, b);
    forall d ensures Divides(d, a) && Divides(d, b) <==> Divides(d, b) && Divides(d, TruncRem(a, b)) {
      CommonDivisorStep(a, b, d);
    }
  }

  lemma ModIsTruncRem(a: Int64, b: Int64)
    requires b != 0
    ensures Mod(a, b).value == TruncRem(a, b)
    ensures NatAbs(TruncRem(a, b)) == NatAbs(a) % NatAbs(b)
  {
    TruncDivRem(a, b);
  }

  lemma CommonDivisorStep(a: int, b: int, d: int)
    requires b != 0
    ensures Divides(d, a) && Divides(d, b) <==> Divides(d, b) && Divides(d, TruncRem(a, b))
  {
    TruncDivRem(a, b);
    var q, r := TruncDiv(a, b), TruncRem(a, b);
    assert r == a + (-q) * b;
    assert a == r + q * b;
    if Divides(d, a) && Divides(d, b) {
      DividesLinear(d, a, b, -q);
    }
    if Divides(d, b) && Divides(d, r) {
      DividesLinear(d, r, b, q);
    }
  }

  // ---------------------------------------------------------------------
  // The reference gcd
  // ---------------------------------------------------------------------

  lemma {:induction false} NatGcdDivides(x: nat, y: nat)
    ensures Divides(NatGcd(x, y), x) && Divides(NatGcd(x, y), y)
    decreases y
  {
    if y == 0 {
      DividesByWitness(x, x, 1);
      DividesByWitness(x, 0, 0);
    } else {
      var g := NatGcd(y, x % y);
      assert NatGcd(x, y) == g;
      NatGcdDivides(y, x % y);
      DividesLinear(g, x % y, y, x / y);
      assert x % y + (x / y) * y == x;
    }
  }

  lemma {:induction false} NatGcdGreatest(x: nat, y: nat, d: int)
    requires Divides(d, x) && Divides(d, y)
    ensures Divides(d, NatGcd(x, y))
    decreases y
  {
    if y != 0 {
      DividesLinear(d, x, y, -(x / y));
      NatGcdGreatest(y, x % y, d);
    }
  }

  lemma NatGcdBound(x: nat, y: nat)
    ensures x <= Modulus / 2 && y <= Modulus / 2 ==> NatGcd(x, y) <= Modulus / 2
    ensures NatGcd(x, y) == 0 <==> x == 0 && y == 0
    ensures x > 0 ==> NatGcd(x, y) <= x
    ensures y > 0 ==> NatGcd(x, y) <= y
  {
    NatGcdDivides(x, y);
    var g := NatGcd(x, y);
    if g == 0 {
    } else {
      if x > 0 { DividesLe(g, x); }
      if y > 0 { DividesLe(g, y); }
    }
    if x == 0 && y == 0 {
      assert g == 0;
    }
  }
}
