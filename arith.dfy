/**
 * Facts about the unbounded integers that the proofs about fractions rest
 * on: signs of products, cancellation, and the gcd of scaled and of
 * coprime pairs.
 */
module Arith {
  import opened Integers

  /** The sign of a product with a positive factor. */
  lemma SignOfProduct(x: int, y: int)
    ensures x > 0 && y > 0 ==> x * y > 0
    ensures x > 0 && y < 0 ==> x * y < 0
    ensures x > 0 && y == 0 ==> x * y == 0
  {
    if x > 0 && y > 0 {
      MulAtLeast(x, y);
    } else if x > 0 && y < 0 {
      MulAtLeast(x, -y);
      assert x * y == -(x * -y);
    }
  }

  lemma Cancel(x: int, y: int, k: int)
    requires k != 0 && x * k == y * k
    ensures x == y
  {
    assert (x - y) * k == 0;
  }

  lemma MulMono(x: nat, y: nat, x': nat, y': nat)
    requires x <= x' && y <= y'
    ensures x * y <= x' * y'
  {
    assert x * y <= x' * y;
    assert x' * y <= x' * y';
  }

  /** A multiple of m other than 0 is at least m in magnitude. */
  lemma MulBound(m: int, t: int)
    requires m > 0
    ensures t > 0 ==> m * t >= m
    ensures t < 0 ==> m * t <= -m
  {
    if t > 0 {
      MulAtLeast(m, t);
    } else if t < 0 {
      MulAtLeast(m, -t);
      assert m * t == -(m * -t);
    }
  }

  lemma PowPositive(b: int, n: nat)
    requires b > 0
    ensures ExactPow(b, n) > 0
  {
    if n > 0 {
      PowPositive(b, n - 1);
      SignOfProduct(ExactPow(b, n - 1), b);
    }
  }

  /** Multiplying the sign of a*b into |a| and |b| keeps their product. */
  lemma SignedAbs(a: int, b: int)
    requires b != 0
    ensures (if a * b >= 0 then NatAbs(a) else -(NatAbs(a) as int)) * b == a * NatAbs(b)
  {
    if a > 0 && b < 0 {
      SignOfProduct(a, b);
      assert -a * b == a * -b;
    } else if a < 0 && b > 0 {
      SignOfProduct(b, a);
    } else if a < 0 && b < 0 {
      SignOfProduct(-a, -b);
      assert a * b == (-a) * (-b);
      assert -a * b == a * -b;
    } else if a > 0 && b > 0 {
      SignOfProduct(a, b);
    }
  }

  /** Uniqueness of the Euclidean remainder. */
  lemma ModUnique(n: int, m: int, q: int, r: int)
    requires m > 0 && n == m * q + r && 0 <= r < m
    ensures n % m == r
  {
    var q', r' := n / m, n % m;
    assert m * (q - q') == r' - r;
    MulBound(m, q - q');
  }

  /** (k*x) % (k*y) == k * (x % y). */
  lemma ModScale(k: nat, x: nat, y: nat)
    requires k > 0 && y > 0
    ensures k * y > 0
    ensures (k * x) % (k * y) == k * (x % y)
  {
    SignOfProduct(k, y);
    var q, r := x / y, x % y;
    assert x == q * y + r;
    assert k * x == (k * y) * q + k * r;
    assert k * y - k * r == k * (y - r);
    SignOfProduct(k, y - r);
    MulAtLeast(r, k);
    ModUnique(k * x, k * y, q, k * r);
  }

  /** gcd(k*x, k*y) == k * gcd(x, y). */
  lemma {:induction false} NatGcdScale(k: nat, x: nat, y: nat)
    ensures NatGcd(k * x, k * y) == k * NatGcd(x, y)
    decreases y
  {
    if y == 0 {
      assert k * y == 0;
    } else if k == 0 {
      assert k * x == 0 && k * y == 0;
    } else {
      ModScale(k, x, y);
      assert NatGcd(k * x, k * y) == NatGcd(k * y, k * (x % y));
      NatGcdScale(k, y, x % y);
    }
  }

  lemma NatGcdOne(x: nat)
    ensures NatGcd(x, 1) == 1
  {
    assert x % 1 == 0;
  }

  /** Dividing through by the gcd leaves coprime quotients. */
  lemma GcdOfQuotients(x': nat, y': nat, g: nat)
    requires g > 0 && g == NatGcd(x' * g, y' * g)
    ensures NatGcd(x', y') == 1
  {
    NatGcdScale(g, x', y');
    assert g * x' == x' * g && g * y' == y' * g;
    Cancel(NatGcd(x', y'), 1, g);
  }

  /** |a| * d == |c| * b when a * d == c * b with b and d positive. */
  lemma AbsCross(a: int, b: int, c: int, d: int)
    requires b > 0 && d > 0 && a * d == c * b
    ensures d * NatAbs(a) == b * NatAbs(c)
  {
    AbsMul(a, d);
    AbsMul(c, b);
  }

  /** Gauss: if a/b == c/d with gcd(|a|, b) == 1, then b divides d. */
  lemma CoprimeCross(a: int, b: int, c: int, d: int)
    requires b > 0 && d > 0 && NatGcd(NatAbs(a), b) == 1
    requires a * d == c * b
    ensures Divides(b, d)
  {
    NatGcdScale(d, NatAbs(a), b);
    AbsCross(a, b, c, d);
    DividesByWitness(b, d * NatAbs(a), NatAbs(c));
    DividesByWitness(b, d * b, d);
    NatGcdGreatest(d * NatAbs(a), d * b, b);
  }

  /** a1/b1 and a2/b2 both equal to n/d are equal to each other. */
  lemma CrossFromCommon(a1: int, b1: int, a2: int, b2: int, n: int, d: int)
    requires d != 0 && a1 * d == n * b1 && a2 * d == n * b2
    ensures a1 * b2 == a2 * b1
  {
    assert (a1 * b2) * d == (a1 * d) * b2 == (n * b1) * b2;
    assert (a2 * b1) * d == (a2 * d) * b1 == (n * b2) * b1;
    Cancel(a1 * b2, a2 * b1, d);
  }

  /** Two coprime pairs with positive second components and equal cross products are equal. */
  lemma CoprimeUnique(a1: int, b1: int, a2: int, b2: int)
    requires b1 > 0 && b2 > 0
    requires NatGcd(NatAbs(a1), b1) == 1 && NatGcd(NatAbs(a2), b2) == 1
    requires a1 * b2 == a2 * b1
    ensures a1 == a2 && b1 == b2
  {
    CoprimeCross(a1, b1, a2, b2);
    CoprimeCross(a2, b2, a1, b1);
    DividesLe(b1, b2);
    DividesLe(b2, b1);
    Cancel(a1, a2, b1);
  }

  /** A coprime pair equal to n'/d' with d' > 0 is no larger than it. */
  lemma CoprimeSmallest(a: int, b: int, n': int, d': int)
    requires b > 0 && d' > 0 && NatGcd(NatAbs(a), b) == 1
    requires a * d' == n' * b
    ensures NatAbs(a) <= NatAbs(n') && b <= d'
  {
    CoprimeCross(a, b, n', d');
    DividesLe(b, d');
    DividesWitness(b, d');
    var k := d' / b;
    SignOfProduct(b, k);
    assert (a * k) * b == n' * b;
    Cancel(a * k, n', b);
    AbsMul(a, k);
    MulAtLeast(NatAbs(a), k);
  }

  /** Moving the sign of d onto n. */
  lemma NormalizeSign(a: int, b: int, n: int, d: int)
    requires a * d == n * b
    ensures a * NatAbs(d) == (if d < 0 then -n else n) * b
  {
    if d < 0 {
      assert a * NatAbs(d) == -(a * d);
      assert (-n) * b == -(n * b);
    }
  }

  lemma MulRearrange(nu: int, du: int, ni: int, di: int, nw: int, dw: int)
    requires ni * nw == dw * di
    ensures (nu * ni) * (du * nw) == (nu * dw) * (du * di)
  {
    assert (nu * ni) * (du * nw) == (nu * du) * (ni * nw);
    assert (nu * dw) * (du * di) == (nu * du) * (dw * di);
  }

  /** Cross multiplication by a common factor. */
  lemma ScaleCross(x: int, y: int, z: int, w: int, g: int)
    requires x * w == z * y
    ensures x * (w * g) == (z * g) * y
  {
    assert x * (w * g) == (x * w) * g;
    assert (z * g) * y == (z * y) * g;
  }
}
