/**
 * Rational arithmetic of the fractions page (js/fractions.js): lcm, the
 * four operations over a common denominator or by the reciprocal, the final
 * simplification step, and the numbers drawn by the exercise generator.
 * Numerators and denominators are integers; the input reader replaces a
 * zero denominator by 1 (js/fractions.js:24, 31, 33), so both operand
 * denominators are nonzero.
 */
module Fractions {
  import opened Utils

  datatype Frac = Frac(num: int, den: int)

  /** f stands for the same rational number as n/d (cross-multiplication). */
  predicate SameValue(f: Frac, n: int, d: int)
  {
    f.num * d == n * f.den
  }

  /** lcm(a, b) = |a*b| / gcd(a, b) (js/fractions.js:160-162). */
  function Lcm(a: int, b: int): (m: int)
    requires a != 0 && b != 0
    ensures m > 0 && m * Gcd(a, b) == Abs(a * b)
    ensures m % a == 0 && m % b == 0
  {
    LcmExact(a, b);
    Abs(a * b) / Gcd(a, b)
  }

  lemma LcmExact(a: int, b: int)
    requires a != 0 && b != 0
    ensures Gcd(a, b) > 0
    ensures Abs(a * b) / Gcd(a, b) > 0
    ensures (Abs(a * b) / Gcd(a, b)) * Gcd(a, b) == Abs(a * b)
    ensures (Abs(a * b) / Gcd(a, b)) % a == 0 && (Abs(a * b) / Gcd(a, b)) % b == 0
  {
    var g := Gcd(a, b);
    GcdZero(a, b);
    GcdDividesBoth(a, b);
    DividesExact(g, a);
    DividesExact(g, b);
    var ka, kb := a / g, b / g;
    // |a*b| / g = |a| * |kb| = |ka| * |b|
    AbsProduct(a, b);
    AbsProduct(g, ka);
    AbsProduct(g, kb);
    var m := Abs(a) * Abs(kb);
    LcmAlgebra(Abs(a), Abs(b), Abs(ka), Abs(kb), g);
    DivModUnique(Abs(a * b), g, m, 0);
    MultipleOfAbs(a, Abs(kb));
    MultipleOfAbs(b, Abs(ka));
    MulPositive(Abs(a), Abs(kb));
  }

  lemma LcmAlgebra(x: int, y: int, kx: int, ky: int, g: int)
    requires x == g * kx && y == g * ky
    ensures x * y == (x * ky) * g && x * ky == kx * y
  {
    assert x * ky == (g * kx) * ky == kx * (g * ky);
  }

  lemma AbsProduct(x: int, y: int)
    ensures Abs(x * y) == Abs(x) * Abs(y)
  {
    if x < 0 && y < 0 {
      assert x * y == (-x) * (-y);
    } else if x < 0 {
      assert x * y == -((-x) * y);
    } else if y < 0 {
      assert x * y == -(x * (-y));
    }
  }

  lemma MultipleOfAbs(a: int, k: int)
    requires a != 0
    ensures (Abs(a) * k) % a == 0
  {
    var s := if a < 0 then -k else k;
    assert Abs(a) * k == a * s;
    DividesBy(a, a * s, s);
    DividesExact(a, a * s);
  }

  /**
   * Both numerators rescaled onto the common denominator ppcm = lcm(den1, den2),
   * each multiplied by ppcm / den_i (js/fractions.js:198-209, 253-263).
   */
  function Rescale(num1: int, den1: int, num2: int, den2: int): (r: (int, int, int))
    requires den1 != 0 && den2 != 0
    ensures r.2 > 0
    ensures r.0 * den1 == num1 * r.2 && r.1 * den2 == num2 * r.2
  {
    var ppcm := Lcm(den1, den2);
    var mult1, mult2 := ppcm / den1, ppcm / den2;
    DividesExact(den1, ppcm);
    DividesExact(den2, ppcm);
    ScaleNumerator(num1, mult1, den1, ppcm);
    ScaleNumerator(num2, mult2, den2, ppcm);
    (num1 * mult1, num2 * mult2, ppcm)
  }

  lemma ScaleNumerator(num: int, mult: int, den: int, ppcm: int)
    requires den * mult == ppcm
    ensures (num * mult) * den == num * ppcm
  {
    assert (num * mult) * den == num * (den * mult);
  }

  /**
   * simplifyStep (js/fractions.js:384-417): the sign moves to the numerator,
   * then both parts are divided by gcd(|num|, |den|) when it exceeds 1.
   * A zero denominator is not guarded against.
   */
  function SimplifyStep(num: int, den: int): Frac
  {
    var divisor := Gcd(Abs(num), Abs(den));
    var finalNum, finalDen := if den < 0 then -num else num, if den < 0 then -den else den;
    if divisor > 1 then Frac(finalNum / divisor, finalDen / divisor)
    else Frac(finalNum, finalDen)
  }

  /** The step prints an integer when the final denominator is 1 (js/fractions.js:410). */
  predicate IsWhole(f: Frac)
  {
    f.den == 1
  }

  /**
   * For den != 0 the step yields the same rational number with a positive
   * denominator in lowest terms. For den == 0 the denominator stays 0.
   */
  lemma SimplifyStepReduced(num: int, den: int)
    ensures den != 0 ==> SimplifyStep(num, den).den > 0
                         && Gcd(SimplifyStep(num, den).num, SimplifyStep(num, den).den) == 1
                         && SameValue(SimplifyStep(num, den), num, den)
    ensures den == 0 ==> SimplifyStep(num, den).den == 0
  {
    var divisor := Gcd(Abs(num), Abs(den));
    assert divisor == Gcd(num, den);
    var fn, fd := if den < 0 then -num else num, if den < 0 then -den else den;
    GcdSymmetric(num, den);
    GcdSymmetric(-num, den);
    assert Gcd(fn, fd) == divisor;
    if den == 0 {
      if divisor > 1 {
        DivModUnique(0, divisor, 0, 0);
      }
    } else {
      assert fn * den == num * fd;
      if divisor > 1 {
        GcdQuotientsCoprime(fn, fd);
        var n0, d0 := fn / divisor, fd / divisor;
        assert divisor * n0 == fn && divisor * d0 == fd;
        PositiveFactor(divisor, d0);
        ScaledSameValue(n0, d0, divisor, num, den);
      } else {
        GcdZero(num, den);
      }
    }
  }

  lemma ScaledSameValue(n0: int, d0: int, g: int, num: int, den: int)
    requires g > 0
    requires (g * n0) * den == num * (g * d0)
    ensures n0 * den == num * d0
  {
    assert g * (n0 * den) == g * (num * d0);
    CancelNonzero(n0 * den, num * d0, g);
  }

  /** Two fractions of equal value simplify to the same pair. */
  lemma SimplifyStepCanonical(n1: int, d1: int, n2: int, d2: int)
    requires d1 != 0 && d2 != 0 && n1 * d2 == n2 * d1
    ensures SimplifyStep(n1, d1) == SimplifyStep(n2, d2)
  {
    SimplifyStepReduced(n1, d1);
    SimplifyStepReduced(n2, d2);
    var r1, r2 := SimplifyStep(n1, d1), SimplifyStep(n2, d2);
    SameRatio(r1.num, r1.den, r2.num, r2.den, n1, d1, n2, d2);
    ReducedFormUnique(r1.num, r1.den, r2.num, r2.den);
  }

  // ---------------------------------------------------------------------
  // The four operations (js/fractions.js:175-342)
  // ---------------------------------------------------------------------

  /** The fraction handed to simplifyStep by solveAddition. */
  function AdditionBeforeSimplify(num1: int, den1: int, num2: int, den2: int): Frac
    requires den1 != 0 && den2 != 0
  {
    if den1 == den2 then Frac(num1 + num2, den1)
    else
      var r := Rescale(num1, den1, num2, den2);
      Frac(r.0 + r.1, r.2)
  }

  /** The fraction handed to simplifyStep by solveSoustraction. */
  function SubtractionBeforeSimplify(num1: int, den1: int, num2: int, den2: int): Frac
    requires den1 != 0 && den2 != 0
  {
    if den1 == den2 then Frac(num1 - num2, den1)
    else
      var r := Rescale(num1, den1, num2, den2);
      Frac(r.0 - r.1, r.2)
  }

  function SolveAddition(num1: int, den1: int, num2: int, den2: int): Frac
    requires den1 != 0 && den2 != 0
  {
    var f := AdditionBeforeSimplify(num1, den1, num2, den2);
    SimplifyStep(f.num, f.den)
  }

  function SolveSubtraction(num1: int, den1: int, num2: int, den2: int): Frac
    requires den1 != 0 && den2 != 0
  {
    var f := SubtractionBeforeSimplify(num1, den1, num2, den2);
    SimplifyStep(f.num, f.den)
  }

  function SolveMultiplication(num1: int, den1: int, num2: int, den2: int): Frac
  {
    SimplifyStep(num1 * num2, den1 * den2)
  }

  /** Dividing multiplies by the reciprocal: num1*den2 over den1*num2. */
  function SolveDivision(num1: int, den1: int, num2: int, den2: int): Frac
  {
    SimplifyStep(num1 * den2, den1 * num2)
  }

  /**
   * Before simplification, the sum and the difference over the common
   * denominator are num1/den1 ± num2/den2, on both the same-denominator
   * path and the lcm path.
   */
  lemma CommonDenominatorValue(num1: int, den1: int, num2: int, den2: int)
    requires den1 != 0 && den2 != 0
    ensures AdditionBeforeSimplify(num1, den1, num2, den2).den != 0
    ensures SameValue(AdditionBeforeSimplify(num1, den1, num2, den2), num1 * den2 + num2 * den1, den1 * den2)
    ensures SubtractionBeforeSimplify(num1, den1, num2, den2).den != 0
    ensures SameValue(SubtractionBeforeSimplify(num1, den1, num2, den2), num1 * den2 - num2 * den1, den1 * den2)
  {
    if den1 != den2 {
      var r := Rescale(num1, den1, num2, den2);
      RescaledCombination(num1, den1, num2, den2, r.0, r.1, r.2);
    } else {
      assert (num1 + num2) * (den1 * den2) == (num1 * den2 + num2 * den1) * den1;
      assert (num1 - num2) * (den1 * den2) == (num1 * den2 - num2 * den1) * den1;
    }
  }

  lemma RescaledCombination(num1: int, den1: int, num2: int, den2: int, n1: int, n2: int, c: int)
    requires n1 * den1 == num1 * c && n2 * den2 == num2 * c
    ensures (n1 + n2) * (den1 * den2) == (num1 * den2 + num2 * den1) * c
    ensures (n1 - n2) * (den1 * den2) == (num1 * den2 - num2 * den1) * c
  {
    assert n1 * (den1 * den2) == (num1 * c) * den2;
    assert n2 * (den1 * den2) == (num2 * c) * den1;
  }

  /**
   * solveAddition and solveSoustraction end in lowest terms with a positive
   * denominator, equal to num1/den1 + num2/den2 and num1/den1 - num2/den2.
   */
  lemma AddSubtractCorrect(num1: int, den1: int, num2: int, den2: int)
    requires den1 != 0 && den2 != 0
    ensures var r := SolveAddition(num1, den1, num2, den2);
            r.den > 0 && Gcd(r.num, r.den) == 1 && SameValue(r, num1 * den2 + num2 * den1, den1 * den2)
    ensures var r := SolveSubtraction(num1, den1, num2, den2);
            r.den > 0 && Gcd(r.num, r.den) == 1 && SameValue(r, num1 * den2 - num2 * den1, den1 * den2)
  {
    CommonDenominatorValue(num1, den1, num2, den2);
    var fa := AdditionBeforeSimplify(num1, den1, num2, den2);
    var fs := SubtractionBeforeSimplify(num1, den1, num2, den2);
    SimplifyStepReduced(fa.num, fa.den);
    SimplifyStepReduced(fs.num, fs.den);
    var ra, rs := SimplifyStep(fa.num, fa.den), SimplifyStep(fs.num, fs.den);
    MulNonzero(den1, den2);
    SameRatio(ra.num, ra.den, num1 * den2 + num2 * den1, den1 * den2, fa.num, fa.den,
              num1 * den2 + num2 * den1, den1 * den2);
    SameRatio(rs.num, rs.den, num1 * den2 - num2 * den1, den1 * den2, fs.num, fs.den,
              num1 * den2 - num2 * den1, den1 * den2);
  }

  lemma MulNonzero(x: int, y: int)
    requires x != 0 && y != 0
    ensures x * y != 0
  {
  }

  /** The same-denominator shortcut prints exactly what the lcm path would. */
  lemma SameDenominatorShortcut(num1: int, num2: int, den: int)
    requires den != 0
    ensures var r := Rescale(num1, den, num2, den);
            SimplifyStep(num1 + num2, den) == SimplifyStep(r.0 + r.1, r.2)
            && SimplifyStep(num1 - num2, den) == SimplifyStep(r.0 - r.1, r.2)
  {
    var r := Rescale(num1, den, num2, den);
    RescaledCombination(num1, den, num2, den, r.0, r.1, r.2);
    SameDenominatorCancel(num1 + num2, den, r.0 + r.1, r.2);
    SameDenominatorCancel(num1 - num2, den, r.0 - r.1, r.2);
    SimplifyStepCanonical(num1 + num2, den, r.0 + r.1, r.2);
    SimplifyStepCanonical(num1 - num2, den, r.0 - r.1, r.2);
  }

  lemma SameDenominatorCancel(n: int, den: int, m: int, c: int)
    requires den != 0
    requires m * (den * den) == (n * den) * c
    ensures n * c == m * den
  {
    assert (m * den) * den == (n * c) * den;
    CancelNonzero(m * den, n * c, den);
  }

  /** Addition and multiplication do not depend on the order of the operands. */
  lemma Commutative(num1: int, den1: int, num2: int, den2: int)
    requires den1 != 0 && den2 != 0
    ensures SolveAddition(num1, den1, num2, den2) == SolveAddition(num2, den2, num1, den1)
    ensures SolveMultiplication(num1, den1, num2, den2) == SolveMultiplication(num2, den2, num1, den1)
  {
    CommonDenominatorValue(num1, den1, num2, den2);
    CommonDenominatorValue(num2, den2, num1, den1);
    var f := AdditionBeforeSimplify(num1, den1, num2, den2);
    var g := AdditionBeforeSimplify(num2, den2, num1, den1);
    MulNonzero(den1, den2);
    assert den2 * den1 == den1 * den2;
    assert num2 * den1 + num1 * den2 == num1 * den2 + num2 * den1;
    SameRatio(f.num, f.den, g.num, g.den, num1 * den2 + num2 * den1, den1 * den2,
              num1 * den2 + num2 * den1, den1 * den2);
    SimplifyStepCanonical(f.num, f.den, g.num, g.den);
    assert num1 * num2 == num2 * num1 && den1 * den2 == den2 * den1;
  }

  /**
   * solveMultiplication gives num1*num2 / den1*den2 in lowest terms; a
   * fraction times its reciprocal is 1/1.
   */
  lemma MultiplicationCorrect(num1: int, den1: int, num2: int, den2: int)
    requires den1 != 0 && den2 != 0
    ensures var r := SolveMultiplication(num1, den1, num2, den2);
            r.den > 0 && Gcd(r.num, r.den) == 1 && SameValue(r, num1 * num2, den1 * den2)
    ensures num1 != 0 ==> SolveMultiplication(num1, den1, den1, num1) == Frac(1, 1)
  {
    MulNonzero(den1, den2);
    SimplifyStepReduced(num1 * num2, den1 * den2);
    if num1 != 0 {
      MulNonzero(num1, den1);
      assert 1 * (den1 * num1) == (num1 * den1) * 1;
      SimplifyStepCanonical(num1 * den1, den1 * num1, 1, 1);
      assert SimplifyStep(1, 1) == Frac(1, 1) by {
        GcdOne(1);
      }
    }
  }

  /**
   * solveDivision: with num2 != 0 the result is (num1/den1) / (num2/den2), so
   * multiplying it back by num2/den2 returns num1/den1 in lowest terms. With
   * num2 == 0 the denominator den1*num2 is 0 and nothing stops the step.
   */
  lemma DivisionCorrect(num1: int, den1: int, num2: int, den2: int)
    requires den1 != 0 && den2 != 0
    ensures num2 != 0 ==>
              var q := SolveDivision(num1, den1, num2, den2);
              q.den > 0 && SameValue(q, num1 * den2, den1 * num2)
              && SolveMultiplication(q.num, q.den, num2, den2) == SimplifyStep(num1, den1)
    ensures num2 == 0 ==> SolveDivision(num1, den1, num2, den2).den == 0
  {
    SimplifyStepReduced(num1 * den2, den1 * num2);
    if num2 != 0 {
      var q := SolveDivision(num1, den1, num2, den2);
      MulNonzero(den1, num2);
      MulNonzero(q.den, den2);
      assert q.num * (den1 * num2) == (num1 * den2) * q.den;
      BackMultiplied(q.num, q.den, num1, den1, num2, den2);
      SimplifyStepCanonical(q.num * num2, q.den * den2, num1, den1);
    }
  }

  lemma BackMultiplied(qn: int, qd: int, num1: int, den1: int, num2: int, den2: int)
    requires den2 != 0 && qn * (den1 * num2) == (num1 * den2) * qd
    ensures (qn * num2) * den1 == num1 * (qd * den2)
  {
    assert (qn * num2) * den1 == qn * (den1 * num2);
    assert num1 * (qd * den2) == (num1 * den2) * qd;
  }

  /**
   * solveSimplification (js/fractions.js:347-379): a fraction whose gcd is 1
   * is kept as is; otherwise both parts are divided by the gcd, without
   * moving the sign.
   */
  function SolveSimplification(num: int, den: int): Frac
    requires den != 0
  {
    var divisor := Gcd(Abs(num), Abs(den));
    GcdZero(Abs(num), Abs(den));
    if divisor == 1 then Frac(num, den)
    else Frac(num / divisor, den / divisor)
  }

  lemma SolveSimplificationReduced(num: int, den: int)
    requires den != 0
    ensures var r := SolveSimplification(num, den);
            r.den != 0 && Gcd(r.num, r.den) == 1 && SameValue(r, num, den) && (r.den < 0 <==> den < 0)
  {
    var g := Gcd(num, den);
    assert g == Gcd(Abs(num), Abs(den));
    GcdQuotientsCoprime(num, den);
    if g != 1 {
      var n0, d0 := num / g, den / g;
      assert g * n0 == num && g * d0 == den;
      ScaledSameValue(n0, d0, g, num, den);
      if den > 0 { PositiveFactor(g, d0); } else { PositiveFactor(g, -d0); }
    }
  }

  /**
   * The simplified fraction is in lowest terms, equal to num/den, keeps the
   * sign of the denominator, leaves an irreducible fraction untouched, and
   * agrees with simplifyStep up to the sign move.
   */
  lemma SolveSimplificationCorrect(num: int, den: int)
    requires den != 0
    ensures var r := SolveSimplification(num, den);
            Gcd(r.num, r.den) == 1 && SameValue(r, num, den) && (r.den < 0 <==> den < 0)
            && (Gcd(num, den) == 1 ==> r == Frac(num, den))
            && SimplifyStep(num, den) == if r.den < 0 then Frac(-r.num, -r.den) else r
  {
    SolveSimplificationReduced(num, den);
    var r := SolveSimplification(num, den);
    SignMoved(r, num, den);
  }

  /** Moving the sign of a reduced fraction equal to num/den gives simplifyStep's result. */
  lemma SignMoved(r: Frac, num: int, den: int)
    requires den != 0 && r.den != 0 && Gcd(r.num, r.den) == 1 && SameValue(r, num, den)
    ensures SimplifyStep(num, den) == if r.den < 0 then Frac(-r.num, -r.den) else r
  {
    var s := if r.den < 0 then Frac(-r.num, -r.den) else r;
    GcdSymmetric(r.num, r.den);
    GcdSymmetric(-r.num, r.den);
    assert s.den > 0 && Gcd(s.num, s.den) == 1 && SameValue(s, num, den);
    SimplifyStepReduced(num, den);
    var t := SimplifyStep(num, den);
    SameRatio(t.num, t.den, s.num, s.den, num, den, num, den);
    ReducedFormUnique(t.num, t.den, s.num, s.den);
  }

  // ---------------------------------------------------------------------
  // generateFraction (js/fractions.js:84-126)
  // ---------------------------------------------------------------------

  /** The simplification exercise: num = k1*factor, den = k2*factor. */
  function GenerateSimplification(factor: int, k1: int, k2: int): Frac
  {
    Frac(k1 * factor, k2 * factor)
  }

  /** Every generated simplification exercise can be reduced: gcd >= 2. */
  lemma GeneratedSimplificationReducible(factor: int, k1: int, k2: int)
    requires 2 <= factor <= 6 && 1 <= k1 <= 8 && 2 <= k2 <= 8
    ensures var f := GenerateSimplification(factor, k1, k2);
            f.den > 0 && Gcd(f.num, f.den) >= 2
  {
    var f := GenerateSimplification(factor, k1, k2);
    MulPositive(k1, factor);
    MulPositive(k2, factor);
    DividesBy(factor, f.num, k1);
    DividesBy(factor, f.den, k2);
    GcdCommonDivisors(f.num, f.den, factor);
    GcdZero(f.num, f.den);
    DividesBounded(factor, Gcd(f.num, f.den));
  }

  /**
   * The second numerator of a subtraction exercise as generated
   * (js/fractions.js:103-111): when num2/den2 exceeds num1/den1 it becomes
   * floor(num1*den2/den1), raised to 1 if that is 0.
   */
  function SubtractionNum2(num1: int, den1: int, num2: int, den2: int): int
    requires den1 > 0 && den2 > 0
  {
    var r := Rescale(num1, den1, num2, den2);
    if r.1 > r.0 then
      var lowered := num1 * den2 / den1;
      if lowered < 1 then 1 else lowered
    else num2
  }

  /** The exercise is num1/den1 - num2/den2 with a nonnegative value. */
  predicate NonNegativeDifference(num1: int, den1: int, num2: int, den2: int)
  {
    num1 * den2 - num2 * den1 >= 0
  }

  lemma SignOfProduct(u: int, p: int)
    requires p > 0
    ensures u > 0 <==> u * p > 0
    ensures u < 0 <==> u * p < 0
  {
    if u > 0 {
      MulPositive(u, p);
    } else if u < 0 {
      MulPositive(-u, p);
      assert (-u) * p == -(u * p);
    }
  }

  /** Comparing two fractions rescaled onto a common positive denominator c. */
  lemma CompareScaled(x: int, y: int, xn: int, yn: int, c: int, d1: int, d2: int)
    requires c > 0 && d1 > 0 && d2 > 0 && x * d1 == xn * c && y * d2 == yn * c
    ensures y > x <==> yn * d1 > xn * d2
  {
    assert (y - x) * (d1 * d2) == (yn * d1 - xn * d2) * c by {
      assert x * (d1 * d2) == (x * d1) * d2;
      assert y * (d1 * d2) == (y * d2) * d1;
    }
    MulPositive(d1, d2);
    SignOfProduct(y - x, d1 * d2);
    SignOfProduct(yn * d1 - xn * d2, c);
  }

  lemma RescaleCompare(num1: int, den1: int, num2: int, den2: int)
    requires den1 > 0 && den2 > 0
    ensures var r := Rescale(num1, den1, num2, den2);
            r.1 > r.0 <==> num2 * den1 > num1 * den2
  {
    var r := Rescale(num1, den1, num2, den2);
    CompareScaled(r.0, r.1, num1, num2, r.2, den1, den2);
  }

  lemma FloorBelow(x: int, d: int)
    requires d > 0
    ensures d * (x / d) <= x
  {
    assert x == d * (x / d) + x % d;
  }

  /** Where floor(num1*den2/den1) >= 1, the lowered numerator keeps the difference nonnegative. */
  lemma SubtractionGeneratorWhenFloorPositive(num1: int, den1: int, num2: int, den2: int)
    requires den1 > 0 && den2 > 0
    requires num1 * den2 / den1 >= 1 || num2 * den1 <= num1 * den2
    ensures NonNegativeDifference(num1, den1, SubtractionNum2(num1, den1, num2, den2), den2)
  {
    RescaleCompare(num1, den1, num2, den2);
    var q := num1 * den2 / den1;
    if num2 * den1 > num1 * den2 {
      assert SubtractionNum2(num1, den1, num2, den2) == q;
      FloorBelow(num1 * den2, den1);
      assert q * den1 == den1 * q;
    }
  }

  /**
   * As written, the fallback num2 = 1 can make the difference negative:
   * 1/10 - 1/2 is generated from num1 = 1, den1 = 10, den2 = 2.
   */
  lemma SubtractionGeneratorNegative()
    ensures SubtractionNum2(1, 10, 1, 2) == 1
    ensures !NonNegativeDifference(1, 10, SubtractionNum2(1, 10, 1, 2), 2)
  {
    RescaleCompare(1, 10, 1, 2);
  }

  /**
   * Corrected generator: when the second fraction is the larger one the two
   * fractions are exchanged, so the difference is never negative and every
   * drawn value stays in its range.
   */
  function GenerateSubtraction(num1: int, den1: int, num2: int, den2: int): (r: (int, int, int, int))
    requires den1 > 0 && den2 > 0
    ensures NonNegativeDifference(r.0, r.1, r.2, r.3)
    ensures (r.0, r.1, r.2, r.3) == (num1, den1, num2, den2) || (r.0, r.1, r.2, r.3) == (num2, den2, num1, den1)
  {
    RescaleCompare(num1, den1, num2, den2);
    var common := Rescale(num1, den1, num2, den2);
    if common.1 > common.0 then (num2, den2, num1, den1) else (num1, den1, num2, den2)
  }
}
