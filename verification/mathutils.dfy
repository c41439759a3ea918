/**
 * Integer helpers of the simplifier: power by squaring, gcd by Euclid's
 * algorithm, lcm, Java's truncating division, and the fractional-number test.
 * Java `long` arithmetic is modelled with unbounded integers.
 */
module MathUtils {
  import opened Wrappers
  import opened Expressions

  /** Reference definition of b^n. */
  function Pow(b: int, n: nat): int {
    if n == 0 then 1 else b * Pow(b, n - 1)
  }

  lemma {:induction false} PowAdd(b: int, m: nat, n: nat)
    ensures Pow(b, m + n) == Pow(b, m) * Pow(b, n)
  {
    if m > 0 {
      PowAdd(b, m - 1, n);
      assert Pow(b, m + n) == b * Pow(b, m - 1 + n);
    }
  }

  lemma {:induction false} PowSquare(b: int, k: nat)
    ensures Pow(b * b, k) == Pow(b, 2 * k)
  {
    if k > 0 {
      PowSquare(b, k - 1);
      PowAdd(b, 2, 2 * (k - 1));
      assert Pow(b, 2) == b * b by {
        assert Pow(b, 1) == b;
      }
      calc {
        Pow(b * b, k);
        (b * b) * Pow(b * b, k - 1);
        (b * b) * Pow(b, 2 * (k - 1));
        Pow(b, 2) * Pow(b, 2 * (k - 1));
        Pow(b, 2 * k);
      }
    }
  }

  /**
   * `integerPower`: exponentiation by squaring, with the two base cases
   * exponent 0 and exponent 1. Callers only pass non-negative exponents.
   */
  function IntegerPower(base: int, exponent: nat): (r: int)
    ensures r == Pow(base, exponent)
    decreases exponent
  {
    if exponent == 0 then 1
    else if exponent == 1 then base
    else if exponent % 2 == 0 then
      PowEven(base, exponent);
      IntegerPower(base * base, exponent / 2)
    else
      PowOdd(base, exponent);
      base * IntegerPower(base * base, (exponent - 1) / 2)
  }

  /** b^n = (b*b)^(n/2) for even n. */
  lemma PowEven(b: int, n: nat)
    requires n % 2 == 0
    ensures Pow(b * b, n / 2) == Pow(b, n)
  {
    PowSquare(b, n / 2);
  }

  /** b^n = b * (b*b)^((n-1)/2) for odd n. */
  lemma PowOdd(b: int, n: nat)
    requires n % 2 == 1
    ensures b * Pow(b * b, (n - 1) / 2) == Pow(b, n)
  {
    PowSquare(b, (n - 1) / 2);
    assert Pow(b, n) == b * Pow(b, n - 1);
  }

  /**
   * The older `integerPower` of the framework package, as written: its
   * first base case tests the base instead of the exponent. `fuel` bounds
   * the recursion; None means the recursion has not ended within it.
   */
  function LegacyIntegerPower(base: int, exponent: nat, fuel: nat): Option<int>
    decreases fuel
  {
    if fuel == 0 then None
    else if base == 0 then Some(1)
    else if exponent == 1 then Some(base)
    else if exponent % 2 == 0 then LegacyIntegerPower(base * base, exponent / 2, fuel - 1)
    else
      match LegacyIntegerPower(base * base, (exponent - 1) / 2, fuel - 1)
      case None => None
      case Some(p) => Some(base * p)
  }

  /** As written, a zero base gives 1 for every exponent, though 0^2 is 0. */
  lemma LegacyPowerOfZero()
    ensures LegacyIntegerPower(0, 2, 1) == Some(1)
    ensures IntegerPower(0, 2) == 0
  {
  }

  /**
   * As written, a nonzero base with exponent 0 never reaches a base case
   * over unbounded integers. Under Java's 64-bit `long` an even base squares
   * to 0 within six steps and then returns 1, so there only odd bases
   * recurse without end.
   */
  lemma {:induction false} LegacyPowerZeroExponentDiverges(base: int, fuel: nat)
    requires base != 0
    ensures LegacyIntegerPower(base, 0, fuel) == None
    decreases fuel
  {
    if fuel > 0 {
      assert base * base != 0;
      LegacyPowerZeroExponentDiverges(base * base, fuel - 1);
    }
  }

  function Abs(a: int): nat {
    if a < 0 then -a else a
  }

  /** d divides n; zero divides only zero. */
  predicate Divides(d: int, n: int) {
    if d == 0 then n == 0 else n % d == 0
  }

  lemma DividesWitness(d: int, n: int)
    requires d != 0 && Divides(d, n)
    ensures n == d * (n / d)
  {
  }

  lemma MultipleDivides(d: int, k: int)
    ensures Divides(d, d * k)
  {
    if d != 0 {
      var n := d * k;
      assert n == d * (n / d) + n % d;
      assert d * k - d * (n / d) == n % d;
      assert d * (k - n / d) == n % d;
      if k - n / d != 0 {
        assert Abs(d * (k - n / d)) >= Abs(d) by {
          MulAbsBound(d, k - n / d);
        }
      }
    }
  }

  lemma MulAbsBound(d: int, q: int)
    requires d != 0 && q != 0
    ensures Abs(d * q) >= Abs(d)
  {
    if q > 0 {
      if d > 0 {
        assert d * q >= d * 1;
      } else {
        assert d * q <= d * 1;
      }
    } else {
      if d > 0 {
        assert d * q <= d * -1;
      } else {
        assert d * q >= d * -1;
      }
    }
  }

  /** A common divisor of x and y divides every x * q + y. */
  lemma DividesLinear(d: int, x: int, y: int, q: int)
    requires Divides(d, x) && Divides(d, y)
    ensures Divides(d, x * q + y)
  {
    if d != 0 {
      DividesWitness(d, x);
      DividesWitness(d, y);
      var kx, ky := x / d, y / d;
      assert x * q + y == d * (kx * q + ky) by {
        calc {
          x * q + y;
          (d * kx) * q + d * ky;
          d * (kx * q) + d * ky;
          d * (kx * q + ky);
        }
      }
      MultipleDivides(d, kx * q + ky);
    }
  }

  lemma DividesAbs(d: int, n: int)
    ensures Divides(d, n) <==> Divides(d, Abs(n))
  {
    if d != 0 {
      if Divides(d, n) {
        DividesLinear(d, n, 0, -1);
      }
      if Divides(d, Abs(n)) {
        DividesLinear(d, Abs(n), 0, -1);
      }
    }
  }

  /** Euclid's algorithm on non-negative arguments. */
  function ComputeGcd(a: nat, b: nat): (g: nat)
    ensures Divides(g, a) && Divides(g, b)
    ensures forall d :: Divides(d, a) && Divides(d, b) ==> Divides(d, g)
    decreases b
  {
    if b == 0 then
      assert Divides(a, 0) by {
        if a != 0 { MultipleDivides(a, 0); }
      }
      assert Divides(a, a) by {
        MultipleDivides(a, 1);
      }
      a
    else
      var g := ComputeGcd(b, a % b);
      assert a == b * (a / b) + a % b;
      DividesLinear(g, b, a % b, a / b);
      assert b * (a / b) == (a / b) * b;
      assert forall d :: Divides(d, a) && Divides(d, b) ==> Divides(d, g) by {
        forall d | Divides(d, a) && Divides(d, b) ensures Divides(d, g) {
          DividesLinear(d, b, a, -(a / b));
          assert b * -(a / b) + a == a % b;
        }
      }
      g
  }

  /** `gcd`: the greatest common divisor of the absolute values. */
  function Gcd(a: int, b: int): (g: nat)
    ensures Divides(g, a) && Divides(g, b)
    ensures forall d :: Divides(d, a) && Divides(d, b) ==> Divides(d, g)
    ensures b == 0 ==> g == Abs(a)
    ensures g == 0 <==> a == 0 && b == 0
  {
    DividesAbs(ComputeGcd(Abs(a), Abs(b)), a);
    DividesAbs(ComputeGcd(Abs(a), Abs(b)), b);
    forall d | Divides(d, a) && Divides(d, b) ensures Divides(d, Abs(a)) && Divides(d, Abs(b)) {
      DividesAbs(d, a);
      DividesAbs(d, b);
    }
    ComputeGcd(Abs(a), Abs(b))
  }

  /** The gcd is greatest: every common divisor other than 0 is at most it. */
  lemma GcdGreatest(a: int, b: int, d: int)
    requires !(a == 0 && b == 0)
    requires Divides(d, a) && Divides(d, b)
    ensures d <= Gcd(a, b)
  {
    var g := Gcd(a, b);
    assert Divides(d, g);
    if d > g {
      assert d != 0;
      DividesWitness(d, g);
      var q := g / d;
      if q != 0 {
        MulAbsBound(d, q);
      }
    }
  }

  /** `lcm`: |a| / gcd(a, b) * |b|; a and b must not both be 0. */
  function Lcm(a: int, b: int): (m: nat)
    requires !(a == 0 && b == 0)
    ensures Divides(a, m) && Divides(b, m)
    ensures m == 0 <==> a == 0 || b == 0
  {
    LcmFacts(a, b);
    Abs(a) / Gcd(a, b) * Abs(b)
  }

  lemma LcmFacts(a: int, b: int)
    requires !(a == 0 && b == 0)
    ensures Gcd(a, b) > 0 && Abs(a) / Gcd(a, b) >= 0
    ensures var m := Abs(a) / Gcd(a, b) * Abs(b);
      Divides(a, m) && Divides(b, m) && (m == 0 <==> a == 0 || b == 0)
  {
    var g := Gcd(a, b);
    DividesAbs(g, a);
    DividesAbs(g, b);
    DividesWitness(g, Abs(a));
    DividesWitness(g, Abs(b));
    var ka, kb := Abs(a) / g, Abs(b) / g;
    assert ka >= 0 && kb >= 0;
    var m := ka * Abs(b);
    assert m == Abs(a) * kb by {
      calc {
        m;
        ka * (g * kb);
        (ka * g) * kb;
        (g * ka) * kb;
        Abs(a) * kb;
      }
    }
    MultipleDivides(Abs(b), ka);
    assert Abs(b) * ka == m;
    DividesAbs(Abs(b), m);
    MultipleDivides(Abs(a), kb);
    assert Abs(a) * kb == m;
    DividesSign(Abs(a), a, m);
    DividesSign(Abs(b), b, m);
  }

  lemma DividesSign(d: int, e: int, n: int)
    requires d == Abs(e) && Divides(d, n)
    ensures Divides(e, n)
  {
    if e < 0 {
      DividesWitness(d, n);
      var k := n / d;
      assert n == e * -k;
      MultipleDivides(e, -k);
    }
  }

  /**
   * Java's `/` on longs: the quotient truncated toward zero, so its
   * magnitude is the floor of the magnitudes' quotient.
   */
  function JavaDiv(a: int, b: int): (q: int)
    requires b != 0
    ensures Abs(q) == Abs(a) / Abs(b)
    ensures q < 0 ==> (a < 0) != (b < 0)
    ensures q > 0 ==> (a < 0) == (b < 0)
  {
    DivNonnegative(Abs(a), Abs(b));
    if (a < 0) != (b < 0) then -(Abs(a) / Abs(b)) else Abs(a) / Abs(b)
  }

  lemma DivNonnegative(x: int, y: int)
    requires x >= 0 && y > 0
    ensures x / y >= 0
  {
  }

  lemma DivOfMultiple(n: nat, d: nat, k: nat)
    requires d > 0 && n == d * k
    ensures n / d == k
  {
    var q, r := n / d, n % d;
    assert d * q + r == n && 0 <= r < d;
    var t := q - k;
    assert d * t == -r by {
      assert d * q - d * k == -r;
    }
  }

  /** When b divides a exactly, Java's quotient is the exact quotient. */
  lemma JavaDivExact(a: int, b: int)
    requires b != 0 && Divides(b, a)
    ensures JavaDiv(a, b) * b == a
  {
    DividesWitness(b, a);
    var k := a / b;
    assert Abs(a) == Abs(b) * Abs(k) by {
      assert a == b * k;
      if b < 0 && k < 0 { assert a == (-b) * (-k); }
      else if b < 0 { assert -a == (-b) * k; }
      else if k < 0 { assert -a == b * (-k); }
    }
    DivOfMultiple(Abs(a), Abs(b), Abs(k));
    var q := JavaDiv(a, b);
    assert Abs(q) == Abs(k);
    if k == 0 {
    } else if (a < 0) != (b < 0) {
      assert k < 0 && q < 0;
    } else {
      assert k > 0 && q > 0;
    }
  }

  /** `isFractional` (and the identical older `isRational`): a Division of two Constants. */
  predicate IsFractional(e: Expr) {
    e.BinaryOperation? && e.bop == Division && e.first.Constant? && e.second.Constant?
  }

  lemma IsFractionalShape(e: Expr)
    ensures IsFractional(e) <==> exists n, d :: e == BinaryOperation(Division, Constant(n), Constant(d))
  {
    if IsFractional(e) {
      assert e == BinaryOperation(Division, Constant(e.first.value), Constant(e.second.value));
    }
  }
}
