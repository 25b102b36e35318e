/**
 * Helpers shared by every exercise page (js/utils.js): Euclid's gcd, the
 * perfect-square test, fraction reduction with a positive denominator, the
 * randCoef rejection loop, the Fisher-Yates shuffle and the sign rules used
 * to print one term of a polynomial.
 */
module Utils {

  datatype Option<T> = None | Some(value: T)

  datatype Result<T> = Ok(value: T) | Err(message: string)

  function Abs(x: int): (r: nat)
    ensures r == x || r == -x
  {
    if x < 0 then -x else x
  }

  // ---------------------------------------------------------------------
  // Divisibility
  // ---------------------------------------------------------------------

  /** `d` divides `n`: `n` is an integer multiple of `d`. */
  ghost predicate Divides(d: int, n: int)
  {
    exists k :: n == d * k
  }

  lemma DividesBy(d: int, n: int, k: int)
    requires n == d * k
    ensures Divides(d, n)
  {
  }

  lemma DividesSelf(d: int)
    ensures Divides(d, d) && Divides(d, 0)
  {
    DividesBy(d, d, 1);
    DividesBy(d, 0, 0);
  }

  /** A common divisor of `x` and `y` divides every combination `x + m*y`. */
  lemma DividesLinear(d: int, x: int, y: int, m: int)
    requires Divides(d, x) && Divides(d, y)
    ensures Divides(d, x + y * m)
  {
    var i :| x == d * i;
    var j :| y == d * j;
    assert y * m == d * (j * m);
    DividesBy(d, x + y * m, i + j * m);
  }

  lemma DividesMultiple(d: int, x: int, m: int)
    requires Divides(d, x)
    ensures Divides(d, x * m)
  {
    DividesSelf(d);
    DividesLinear(d, 0, x, m);
  }

  lemma DividesNegate(d: int, x: int)
    ensures Divides(d, x) <==> Divides(d, -x)
  {
    if Divides(d, x) {
      DividesMultiple(d, x, -1);
    }
    if Divides(d, -x) {
      DividesMultiple(d, -x, -1);
    }
  }

  lemma DividesAbs(d: int, x: int)
    ensures Divides(d, x) <==> Divides(d, Abs(x))
  {
    DividesNegate(d, x);
  }

  lemma DividesTrans(d: int, e: int, n: int)
    requires Divides(d, e) && Divides(e, n)
    ensures Divides(d, n)
  {
    var i :| e == d * i;
    var j :| n == e * j;
    assert n == d * (i * j);
    DividesBy(d, n, i * j);
  }

  lemma DividesScale(d: int, n: int, c: int)
    requires Divides(d, n)
    ensures Divides(d * c, n * c)
  {
    var i :| n == d * i;
    assert n * c == (d * c) * i;
    DividesBy(d * c, n * c, i);
  }

  /** For a nonzero divisor, divisibility is exact integer division. */
  lemma DividesExact(d: int, n: int)
    requires d != 0
    ensures Divides(d, n) <==> n % d == 0
    ensures Divides(d, n) ==> d * (n / d) == n
  {
    if Divides(d, n) {
      var k :| n == d * k;
      DivModUnique(n, d, k, 0);
    }
    if n % d == 0 {
      DividesBy(d, n, n / d);
    }
  }

  lemma PositiveFactor(d: int, k: int)
    requires d > 0 && d * k > 0
    ensures k >= 1
  {
  }

  lemma DividesBounded(d: nat, n: nat)
    requires d > 0 && n > 0 && Divides(d, n)
    ensures d <= n
  {
    var k :| n == d * k;
    PositiveFactor(d, k);
    assert d * k == d + d * (k - 1);
  }

  lemma DividesAntisymmetric(a: nat, b: nat)
    requires Divides(a, b) && Divides(b, a)
    ensures a == b
  {
    if a == 0 {
      var k :| b == a * k;
    } else if b == 0 {
      var k :| a == b * k;
    } else {
      DividesBounded(a, b);
      DividesBounded(b, a);
    }
  }

  lemma MulPositive(x: int, y: int)
    requires x > 0 && y > 0
    ensures x * y > 0 && x * y >= x && x * y >= y
  {
    assert x * y == x + x * (y - 1);
    assert x * y == y + (x - 1) * y;
  }

  /** Quotient and remainder of Euclidean division are unique. */
  lemma DivModUnique(x: int, y: int, q: int, r: int)
    requires y != 0 && x == y * q + r && 0 <= r < Abs(y)
    ensures x / y == q && x % y == r
  {
    var q', r' := x / y, x % y;
    assert x == y * q' + r' && 0 <= r' < Abs(y);
    MulDifference(y, q, q');
    var k := q - q';
    assert y * k == r' - r;
    if k != 0 {
      AbsProductAtLeast(y, k);
    }
  }

  lemma MulDifference(y: int, q: int, q': int)
    ensures y * (q - q') == y * q - y * q'
  {
  }

  /** A nonzero multiple of y is at least |y| in absolute value. */
  lemma AbsProductAtLeast(y: int, k: int)
    requires y != 0 && k != 0
    ensures Abs(y * k) >= Abs(y)
  {
    if y > 0 && k > 0 {
      MulPositive(y, k);
    } else if y > 0 {
      MulPositive(y, -k);
      assert y * k == -(y * (-k));
    } else if k > 0 {
      MulPositive(-y, k);
      assert y * k == -((-y) * k);
    } else {
      MulPositive(-y, -k);
      assert y * k == (-y) * (-k);
    }
  }

  lemma CancelNonzero(x: int, y: int, c: int)
    requires c != 0 && x * c == y * c
    ensures x == y
  {
    assert (x - y) * c == 0;
  }

  // ---------------------------------------------------------------------
  // gcd (js/utils.js:11-20)
  // ---------------------------------------------------------------------

  /** Euclid's remainder sequence on natural numbers. */
  function EuclidGcd(a: nat, b: nat): nat
    decreases b
  {
    if b == 0 then a else EuclidGcd(b, a % b)
  }

  /** gcd(a, b) of js/utils.js: absolute values, the two zero guards, then Euclid. */
  function Gcd(a: int, b: int): nat
  {
    var x, y := Abs(a), Abs(b);
    if x == 0 then y else if y == 0 then x else EuclidGcd(x, y)
  }

  /** Each Euclid step keeps the set of common divisors. */
  lemma {:induction false} EuclidCommonDivisors(a: nat, b: nat, d: int)
    ensures (Divides(d, a) && Divides(d, b)) <==> Divides(d, EuclidGcd(a, b))
    decreases b
  {
    if b == 0 {
      DividesSelf(d);
    } else {
      EuclidCommonDivisors(b, a % b, d);
      var q := a / b;
      assert a % b == a + b * (-q);
      assert a == a % b + b * q;
      if Divides(d, a) && Divides(d, b) {
        DividesLinear(d, a, b, -q);
      }
      if Divides(d, b) && Divides(d, a % b) {
        DividesLinear(d, a % b, b, q);
      }
    }
  }

  lemma GcdIsEuclid(a: int, b: int)
    ensures Gcd(a, b) == EuclidGcd(Abs(a), Abs(b))
  {
    if Abs(a) == 0 && Abs(b) != 0 {
      assert EuclidGcd(0, Abs(b)) == EuclidGcd(Abs(b), 0);
    }
  }

  /**
   * The common divisors of a and b are exactly the divisors of gcd(a, b):
   * gcd divides both arguments, and it is the greatest common divisor.
   */
  lemma GcdCommonDivisors(a: int, b: int, d: int)
    ensures (Divides(d, a) && Divides(d, b)) <==> Divides(d, Gcd(a, b))
  {
    GcdIsEuclid(a, b);
    DividesAbs(d, a);
    DividesAbs(d, b);
    EuclidCommonDivisors(Abs(a), Abs(b), d);
  }

  lemma GcdDividesBoth(a: int, b: int)
    ensures Divides(Gcd(a, b), a) && Divides(Gcd(a, b), b)
  {
    DividesSelf(Gcd(a, b));
    GcdCommonDivisors(a, b, Gcd(a, b));
  }

  /** gcd(a, b) is 0 exactly when both arguments are 0 (gcd(0, 0) = 0). */
  lemma GcdZero(a: int, b: int)
    ensures Gcd(a, b) == 0 <==> a == 0 && b == 0
  {
    if Gcd(a, b) == 0 {
      GcdDividesBoth(a, b);
      var i :| a == 0 * i;
      var j :| b == 0 * j;
    }
  }

  /** gcd ignores the signs and the order of its arguments. */
  lemma GcdSymmetric(a: int, b: int)
    ensures Gcd(a, b) == Gcd(b, a) == Gcd(-a, b) == Gcd(a, -b)
  {
    GcdDividesBoth(a, b);
    GcdDividesBoth(b, a);
    GcdCommonDivisors(a, b, Gcd(b, a));
    GcdCommonDivisors(b, a, Gcd(a, b));
    DividesAntisymmetric(Gcd(a, b), Gcd(b, a));
  }

  /** If g*h divides g > 0, then h is a unit; for h >= 0 it is 1. */
  lemma UnitFromDivides(g: int, h: int)
    requires g > 0 && h >= 0 && Divides(g * h, g)
    ensures h == 1
  {
    var m :| g == (g * h) * m;
    assert g * (h * m) == g * 1;
    CancelNonzero(h * m, 1, g);
    ProductOne(h, m);
  }

  lemma ProductOne(h: int, m: int)
    requires h >= 0 && h * m == 1
    ensures h == 1
  {
  }

  lemma CommonDivisorScaled(h: int, ka: int, kb: int, g: int)
    requires Divides(h, ka) && Divides(h, kb)
    ensures Divides(g * h, g * ka) && Divides(g * h, g * kb)
  {
    DividesScale(h, ka, g);
    DividesScale(h, kb, g);
    assert h * g == g * h && ka * g == g * ka && kb * g == g * kb;
  }

  /** Dividing both arguments by their gcd leaves coprime quotients. */
  lemma GcdQuotientsCoprime(a: int, b: int)
    requires a != 0 || b != 0
    ensures Gcd(a, b) > 0
    ensures Gcd(a, b) * (a / Gcd(a, b)) == a && Gcd(a, b) * (b / Gcd(a, b)) == b
    ensures Gcd(a / Gcd(a, b), b / Gcd(a, b)) == 1
  {
    var g := Gcd(a, b);
    GcdZero(a, b);
    GcdDividesBoth(a, b);
    DividesExact(g, a);
    DividesExact(g, b);
    var ka, kb := a / g, b / g;
    var h := Gcd(ka, kb);
    GcdDividesBoth(ka, kb);
    CommonDivisorScaled(h, ka, kb, g);
    var gh := (g as int) * (h as int);
    GcdCommonDivisors(a, b, gh);
    UnitFromDivides(g, h);
  }

  /** Scaling both arguments scales Euclid's result. */
  lemma {:induction false} EuclidGcdScale(a: nat, b: nat, c: nat)
    ensures EuclidGcd(a * c, b * c) == c * EuclidGcd(a, b)
    decreases b
  {
    if b == 0 {
    } else if c == 0 {
      assert EuclidGcd(0, 0) == 0;
    } else {
      MulPositive(b, c);
      var q, r := a / b, a % b;
      assert a * c == (b * c) * q + r * c;
      assert r * c < b * c;
      DivModUnique(a * c, b * c, q, r * c);
      EuclidGcdScale(b, r, c);
    }
  }

  /**
   * Two reduced fractions p1/q1 and p2/q2 with positive denominators that
   * have the same value are the same pair: the reduced form is canonical.
   */
  lemma ReducedFormUnique(p1: int, q1: int, p2: int, q2: int)
    requires q1 > 0 && q2 > 0 && Gcd(p1, q1) == 1 && Gcd(p2, q2) == 1
    requires p1 * q2 == p2 * q1
    ensures p1 == p2 && q1 == q2
  {
    ReducedDenominatorDivides(p1, q1, p2, q2);
    ReducedDenominatorDivides(p2, q2, p1, q1);
    DividesAntisymmetric(q1, q2);
  }

  lemma AbsMul(x: int, c: int)
    requires c > 0
    ensures Abs(x * c) == Abs(x) * c
  {
    if x < 0 {
      assert x * c < 0 by { MulPositive(-x, c); }
    } else {
      assert x * c >= 0;
    }
  }

  /** gcd(p*c, q*c) = c * gcd(p, q) for c > 0. */
  lemma GcdScale(p: int, q: int, c: int)
    requires c > 0
    ensures Gcd(p * c, q * c) == c * Gcd(p, q)
  {
    GcdIsEuclid(p * c, q * c);
    GcdIsEuclid(p, q);
    AbsMul(p, c);
    AbsMul(q, c);
    EuclidGcdScale(Abs(p), Abs(q), c);
  }

  lemma ReducedDenominatorDivides(p1: int, q1: int, p2: int, q2: int)
    requires q1 > 0 && q2 > 0 && Gcd(p1, q1) == 1
    requires p1 * q2 == p2 * q1
    ensures Divides(q1, q2)
  {
    // q1 divides p1*q2 and q1*q2, hence their gcd, which is q2 * gcd(p1, q1).
    DividesBy(q1, p1 * q2, p2);
    DividesBy(q1, q1 * q2, q2);
    GcdCommonDivisors(p1 * q2, q1 * q2, q1);
    GcdScale(p1, q1, q2);
  }

  /**
   * The computation of js/utils.js:11-20: absolute values, the zero guards,
   * then the remainder loop until the second value is 0.
   */
  method ComputeGcd(a: int, b: int) returns (g: nat)
    ensures g == Gcd(a, b)
  {
    var x: nat, y: nat := Abs(a), Abs(b);
    if x == 0 {
      return y;
    }
    if y == 0 {
      return x;
    }
    while y != 0
      invariant EuclidGcd(x, y) == Gcd(a, b)
      decreases y
    {
      x, y := y, x % y;
    }
    g := x;
  }

  // ---------------------------------------------------------------------
  // isSquare (js/utils.js:119-123)
  // ---------------------------------------------------------------------

  /** Integer square root: the largest r with r*r <= n. */
  function Isqrt(n: nat): (r: nat)
    ensures r * r <= n < (r + 1) * (r + 1)
  {
    if n == 0 then 0
    else
      var s := Isqrt(n - 1);
      if (s + 1) * (s + 1) <= n then s + 1
      else s
  }

  function IsSquare(n: int): bool
  {
    n >= 0 && Isqrt(n) * Isqrt(n) == n
  }

  lemma SquareMonotone(x: nat, y: nat)
    requires x < y
    ensures x * x < y * y
  {
    assert y * y - x * x == (y - x) * (y + x);
    MulPositive(y - x, y + x);
  }

  /** isSquare(n) holds exactly when n is the square of an integer (so never for n < 0). */
  lemma IsSquareIff(n: int)
    ensures IsSquare(n) <==> exists k: int :: k * k == n
  {
    if IsSquare(n) {
      var r := Isqrt(n);
      assert r * r == n;
    }
    if exists k: int :: k * k == n {
      var k: int :| k * k == n;
      var m := Abs(k);
      assert m * m == n;
      IsqrtOfSquare(m, n);
    }
  }

  /** The integer square root of m² is m. */
  lemma IsqrtOfSquare(m: nat, n: nat)
    requires m * m == n
    ensures Isqrt(n) == m
  {
    var r := Isqrt(n);
    assert r * r <= n < (r + 1) * (r + 1);
    if m < r {
      SquareMonotone(m, r);
    } else if m > r + 1 {
      SquareMonotone(r + 1, m);
    }
  }

  // ---------------------------------------------------------------------
  // formatFraction (js/utils.js:85-100)
  // ---------------------------------------------------------------------

  /** What formatFraction prints: an integer, a fraction, or NaN for 0/0. */
  datatype Shown = Whole(n: int) | Ratio(num: int, den: int) | NotANumber

  function FormatFraction(numerator: int, denominator: int): Shown
  {
    if denominator == 1 then Whole(numerator)
    else if denominator == -1 then Whole(-numerator)
    else
      var g := Gcd(numerator, denominator);
      if g == 0 then NotANumber
      else
        var n0, d0 := numerator / g, denominator / g;
        var n1, d1 := if d0 < 0 then -n0 else n0, if d0 < 0 then -d0 else d0;
        if d1 == 1 then Whole(n1) else Ratio(n1, d1)
  }

  /** `s` is a reduced display of the fraction n/d. */
  ghost predicate Displays(s: Shown, n: int, d: int)
  {
    match s
    case Whole(w) => w * d == n
    case Ratio(p, q) => q > 1 && Gcd(p, q) == 1 && p * d == n * q
    case NotANumber => false
  }

  /** Dividing n/d by g = gcd(n, d) and moving the sign to the numerator gives a reduced equal fraction. */
  lemma ReduceBySignedGcd(n: int, d: int)
    requires d != 0
    ensures Gcd(n, d) > 0
    ensures var g := Gcd(n, d);
            var n0, d0 := n / g, d / g;
            var n1, d1 := if d0 < 0 then -n0 else n0, if d0 < 0 then -d0 else d0;
            d1 > 0 && Gcd(n1, d1) == 1 && n1 * d == n * d1
  {
    var g := Gcd(n, d);
    GcdQuotientsCoprime(n, d);
    var n0, d0 := n / g, d / g;
    assert g * n0 == n && g * d0 == d;
    assert d0 != 0;
    EqualRatio(n0, d0, g, n, d);
    if d0 < 0 {
      GcdSymmetric(n0, d0);
      GcdSymmetric(-n0, d0);
      assert Gcd(-n0, -d0) == 1;
      NegateBoth(n0, d0, n, d);
    }
  }

  lemma EqualRatio(n0: int, d0: int, g: int, n: int, d: int)
    requires g * n0 == n && g * d0 == d
    ensures n0 * d == n * d0
  {
    assert n0 * (g * d0) == (g * n0) * d0;
  }

  lemma NegateBoth(n0: int, d0: int, n: int, d: int)
    requires n0 * d == n * d0
    ensures (-n0) * d == n * (-d0)
  {
  }

  /**
   * For a nonzero denominator, formatFraction prints the same value in
   * lowest terms with a positive denominator, an integer when that
   * denominator is 1. With a zero denominator it prints ±1/0, or NaN for 0/0.
   */
  lemma FormatFractionReduced(numerator: int, denominator: int)
    ensures denominator != 0 ==> Displays(FormatFraction(numerator, denominator), numerator, denominator)
    ensures denominator == 0 && numerator != 0 ==>
              FormatFraction(numerator, denominator) == Ratio(if numerator < 0 then -1 else 1, 0)
    ensures denominator == 0 && numerator == 0 ==> FormatFraction(numerator, denominator) == NotANumber
  {
    if denominator == 0 {
      FormatFractionZeroDenominator(numerator);
    } else if denominator != 1 && denominator != -1 {
      FormatFractionGeneral(numerator, denominator);
    }
  }

  lemma FormatFractionZeroDenominator(numerator: int)
    ensures numerator != 0 ==> FormatFraction(numerator, 0) == Ratio(if numerator < 0 then -1 else 1, 0)
    ensures numerator == 0 ==> FormatFraction(numerator, 0) == NotANumber
  {
    if numerator != 0 {
      var g := Gcd(numerator, 0);
      assert g == Abs(numerator);
      DivModUnique(numerator, g, if numerator < 0 then -1 else 1, 0);
      DivModUnique(0, g, 0, 0);
    }
  }

  lemma FormatFractionGeneral(numerator: int, denominator: int)
    requires denominator != 0 && denominator != 1 && denominator != -1
    ensures Displays(FormatFraction(numerator, denominator), numerator, denominator)
  {
    ReduceBySignedGcd(numerator, denominator);
    var g := Gcd(numerator, denominator);
    var n0, d0 := numerator / g, denominator / g;
    var n1, d1 := if d0 < 0 then -n0 else n0, if d0 < 0 then -d0 else d0;
    assert FormatFraction(numerator, denominator) == if d1 == 1 then Whole(n1) else Ratio(n1, d1);
  }

  /** The (numerator, denominator) pair a reduced display stands for. */
  function ShownPair(s: Shown): (int, int)
  {
    match s
    case Whole(w) => (w, 1)
    case Ratio(p, q) => (p, q)
    case NotANumber => (0, 0)
  }

  lemma DisplaysPair(s: Shown, n: int, d: int)
    requires Displays(s, n, d)
    ensures ShownPair(s).1 > 0 && Gcd(ShownPair(s).0, ShownPair(s).1) == 1
    ensures ShownPair(s).0 * d == n * ShownPair(s).1
  {
    if s.Whole? {
      GcdOne(s.n);
    }
  }

  lemma GcdOne(w: int)
    ensures Gcd(w, 1) == 1
  {
    GcdDividesBoth(w, 1);
    if w != 0 {
      var k :| 1 == Gcd(w, 1) * k;
      PositiveFactor(Gcd(w, 1), k);
      MulPositive(Gcd(w, 1), k);
    }
  }

  /** Two fractions of the same value are printed identically. */
  lemma FormatFractionCanonical(n1: int, d1: int, n2: int, d2: int)
    requires d1 != 0 && d2 != 0 && n1 * d2 == n2 * d1
    ensures FormatFraction(n1, d1) == FormatFraction(n2, d2)
  {
    var s1, s2 := FormatFraction(n1, d1), FormatFraction(n2, d2);
    FormatFractionReduced(n1, d1);
    FormatFractionReduced(n2, d2);
    DisplaysPair(s1, n1, d1);
    DisplaysPair(s2, n2, d2);
    var p1, q1, p2, q2 := ShownPair(s1).0, ShownPair(s1).1, ShownPair(s2).0, ShownPair(s2).1;
    SameRatio(p1, q1, p2, q2, n1, d1, n2, d2);
    ReducedFormUnique(p1, q1, p2, q2);
  }

  lemma SameRatio(p1: int, q1: int, p2: int, q2: int, n1: int, d1: int, n2: int, d2: int)
    requires d1 != 0 && d2 != 0 && n1 * d2 == n2 * d1
    requires p1 * d1 == n1 * q1 && p2 * d2 == n2 * q2
    ensures p1 * q2 == p2 * q1
  {
    // Both cross products, scaled by d1·d2, are q1·q2 times n1·d2 = n2·d1.
    Regroup(p1, q2, d1, d2);
    Regroup(n1, q1, q2, d2);
    Regroup(p2, q1, d1, d2);
    Regroup(n2, q2, q1, d1);
    assert q2 * q1 == q1 * q2;
    ProductNonzero(d1, d2);
    CancelNonzero(p1 * q2, p2 * q1, d1 * d2);
  }

  /** The two regroupings of a product of four factors. */
  lemma Regroup(a: int, b: int, c: int, d: int)
    ensures (a * b) * (c * d) == (a * c) * (b * d)
    ensures (a * b) * (c * d) == (a * d) * (b * c)
  {
  }

  lemma ProductNonzero(x: int, y: int)
    requires x != 0 && y != 0
    ensures x * y != 0
  {
    AbsProductAtLeast(x, y);
  }

  // ---------------------------------------------------------------------
  // randCoef (js/utils.js:40-49)
  // ---------------------------------------------------------------------

  /** One pass of the do-while: the randInt value and the `Math.random() < 0.3` coin. */
  datatype Draw = Draw(value: int, negate: bool)

  function Signed(d: Draw, allowNegative: bool): int
  {
    if allowNegative && d.negate then -d.value else d.value
  }

  predicate Accepted(v: int, avoidZero: bool)
  {
    !avoidZero || v != 0
  }

  /** The values randCoef(min, max, allowNegative, avoidZero) can return. */
  predicate CoefOutcome(v: int, min: int, max: int, allowNegative: bool, avoidZero: bool)
  {
    (min <= v <= max || (allowNegative && min <= -v <= max)) && (avoidZero ==> v != 0)
  }

  /**
   * The rejection loop over a finite stream of draws: the first accepted
   * draw, or None when the stream runs out (the source would keep drawing).
   */
  method RandCoef(draws: seq<Draw>, min: int, max: int, allowNegative: bool, avoidZero: bool)
    returns (r: Option<int>)
    requires forall i :: 0 <= i < |draws| ==> min <= draws[i].value <= max
    ensures r.Some? ==> CoefOutcome(r.value, min, max, allowNegative, avoidZero)
    ensures r.Some? ==> exists i :: 0 <= i < |draws| && r.value == Signed(draws[i], allowNegative)
                           && forall j :: 0 <= j < i ==> !Accepted(Signed(draws[j], allowNegative), avoidZero)
    ensures r.None? <==> forall i :: 0 <= i < |draws| ==> !Accepted(Signed(draws[i], allowNegative), avoidZero)
  {
    var i := 0;
    while i < |draws|
      invariant 0 <= i <= |draws|
      invariant forall j :: 0 <= j < i ==> !Accepted(Signed(draws[j], allowNegative), avoidZero)
    {
      var n := Signed(draws[i], allowNegative);
      if Accepted(n, avoidZero) {
        return Some(n);
      }
      i := i + 1;
    }
    r := None;
  }

  // ---------------------------------------------------------------------
  // shuffleArray (js/utils.js:129-134)
  // ---------------------------------------------------------------------

  function Swap<T>(s: seq<T>, i: nat, j: nat): (r: seq<T>)
    requires i < |s| && j < |s|
    ensures |r| == |s|
  {
    s[i := s[j]][j := s[i]]
  }

  lemma SwapPermutes<T>(s: seq<T>, i: nat, j: nat)
    requires i < |s| && j < |s|
    ensures multiset(Swap(s, i, j)) == multiset(s)
  {
  }

  /**
   * The array when the loop counter of Fisher-Yates has come down to i: the
   * positions |s|-1, ..., i+1 have each been exchanged, in that order, with
   * picks[k] <= k.
   */
  function AfterSwaps<T>(s: seq<T>, picks: seq<nat>, i: int): (r: seq<T>)
    requires |picks| == |s| && -1 <= i < |s|
    requires forall k :: 0 <= k < |picks| ==> picks[k] <= k
    ensures |r| == |s|
    decreases |s| - i
  {
    if i == |s| - 1 then s else Swap(AfterSwaps(s, picks, i + 1), i + 1, picks[i + 1])
  }

  /** The whole shuffle: the loop stops at i = 0 (at -1 for an empty array). */
  function Shuffle<T>(s: seq<T>, picks: seq<nat>): seq<T>
    requires |picks| == |s|
    requires forall k :: 0 <= k < |picks| ==> picks[k] <= k
  {
    AfterSwaps(s, picks, if |s| == 0 then -1 else 0)
  }

  /** Fisher-Yates only exchanges elements: every intermediate array is a permutation. */
  lemma {:induction false} AfterSwapsPermutation<T>(s: seq<T>, picks: seq<nat>, i: int)
    requires |picks| == |s| && -1 <= i < |s|
    requires forall k :: 0 <= k < |picks| ==> picks[k] <= k
    ensures multiset(AfterSwaps(s, picks, i)) == multiset(s)
    decreases |s| - i
  {
    if i < |s| - 1 {
      AfterSwapsPermutation(s, picks, i + 1);
      SwapPermutes(AfterSwaps(s, picks, i + 1), i + 1, picks[i + 1]);
    }
  }

  /** The shuffle is a permutation of its input. */
  lemma ShufflePermutes<T>(s: seq<T>, picks: seq<nat>)
    requires |picks| == |s|
    requires forall k :: 0 <= k < |picks| ==> picks[k] <= k
    ensures |Shuffle(s, picks)| == |s| && multiset(Shuffle(s, picks)) == multiset(s)
  {
    AfterSwapsPermutation(s, picks, if |s| == 0 then -1 else 0);
  }

  /** The destructuring swap [array[i], array[j]] = [array[j], array[i]]. */
  method SwapInPlace<T>(a: array<T>, i: nat, j: nat)
    requires i < a.Length && j < a.Length
    modifies a
    ensures a[..] == Swap(old(a[..]), i, j)
  {
    a[i], a[j] := a[j], a[i];
  }

  /** In-place shuffle; `picks[i]` plays the role of the random index j drawn at step i. */
  method ShuffleArray<T>(a: array<T>, picks: seq<nat>)
    requires |picks| == a.Length
    requires forall k :: 0 <= k < |picks| ==> picks[k] <= k
    modifies a
    ensures a[..] == Shuffle(old(a[..]), picks)
    ensures multiset(a[..]) == multiset(old(a[..]))
  {
    var i := a.Length - 1;
    while i > 0
      invariant if a.Length == 0 then i == -1 else 0 <= i < a.Length
      invariant a[..] == AfterSwaps(old(a[..]), picks, i)
    {
      SwapInPlace(a, i, picks[i]);
      i := i - 1;
    }
    ShufflePermutes(old(a[..]), picks);
  }

  // ---------------------------------------------------------------------
  // formatTerm (js/utils.js:58-67): sign and unit-coefficient rules
  // ---------------------------------------------------------------------

  /** The sign printed in front of a term: none, a leading minus, or the ' + ' / ' − ' separators. */
  datatype TermSign = NoSign | LeadingMinus | PlusSeparator | MinusSeparator

  /** '0', '', or sign + optional digits of |coef| + variable. */
  datatype TermText = ZeroText | EmptyText | Term(sign: TermSign, digits: Option<nat>, variable: string)

  function FormatTerm(coef: int, variable: string, isFirst: bool): TermText
  {
    if coef == 0 then (if isFirst then ZeroText else EmptyText)
    else
      var sign := if isFirst then (if coef < 0 then LeadingMinus else NoSign)
                  else (if coef > 0 then PlusSeparator else MinusSeparator);
      if variable == "" then Term(sign, Some(Abs(coef)), "")
      else if Abs(coef) == 1 then Term(sign, None, variable)
      else Term(sign, Some(Abs(coef)), variable)
  }

  /** The coefficient a reader of the printed term recovers (an absent digit means 1). */
  function ReadCoefficient(t: TermText): int
  {
    match t
    case ZeroText => 0
    case EmptyText => 0
    case Term(sign, digits, _) =>
      var magnitude := if digits.Some? then digits.value else 1;
      if sign == LeadingMinus || sign == MinusSeparator then -magnitude else magnitude
  }

  /**
   * A printed term reads back as its coefficient and variable; a separator is
   * printed exactly when the term is not first; the digit is omitted exactly
   * for a coefficient ±1 in front of a variable; a zero term prints '0' first
   * and nothing later.
   */
  lemma FormatTermReadsBack(coef: int, variable: string, isFirst: bool)
    ensures ReadCoefficient(FormatTerm(coef, variable, isFirst)) == coef
    ensures coef == 0 ==> FormatTerm(coef, variable, isFirst) == if isFirst then ZeroText else EmptyText
    ensures coef != 0 ==> FormatTerm(coef, variable, isFirst).Term?
                          && FormatTerm(coef, variable, isFirst).variable == variable
                          && (FormatTerm(coef, variable, isFirst).sign in {PlusSeparator, MinusSeparator} <==> !isFirst)
                          && (FormatTerm(coef, variable, isFirst).digits.None? <==> variable != "" && Abs(coef) == 1)
  {
  }
}
