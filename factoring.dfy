// Factoring (js/factorisation.js): common factor, difference of squares,
// perfect square, and the two recognisers of tests/factorisation.test.js
// used as the reference for what the identities must accept.

module Factoring {
  import opened Utils
  import opened Expansion

  // ---------------------------------------------------------------- common factor

  /** What solveFacteurCommun shows: pgcd·(qa·x + qb). */
  datatype CommonFactor = CommonFactor(pgcd: nat, qa: int, qb: int)

  /**
   * solveFacteurCommun: pgcd = gcd(a, b), then a / pgcd and b / pgcd. With
   * a = b = 0 the page divides by gcd = 0 (NaN); that case is None here.
   */
  function SolveCommonFactor(a: int, b: int): (r: Option<CommonFactor>)
    ensures r.None? <==> a == 0 && b == 0
    ensures r.Some? ==> r.value.pgcd > 0 && r.value.pgcd * r.value.qa == a && r.value.pgcd * r.value.qb == b
    ensures r.Some? ==> Gcd(r.value.qa, r.value.qb) == 1
  {
    GcdZero(a, b);
    var pgcd := Gcd(a, b);
    if pgcd == 0 then None
    else
      GcdQuotientsCoprime(a, b);
      Some(CommonFactor(pgcd, a / pgcd, b / pgcd))
  }

  /** The factor taken out is the greatest: every common divisor of a and b divides it. */
  lemma CommonFactorIsGreatest(a: int, b: int, d: int)
    requires a != 0 || b != 0
    ensures Divides(d, a) && Divides(d, b) <==> Divides(d, SolveCommonFactor(a, b).value.pgcd)
  {
    GcdCommonDivisors(a, b, d);
  }

  /** The factored form is the same polynomial: pgcd·(qa·x + qb) = a·x + b. */
  lemma CommonFactorExpandsBack(a: int, b: int, x: int)
    requires a != 0 || b != 0
    ensures SolveCommonFactor(a, b).value.pgcd * (SolveCommonFactor(a, b).value.qa * x + SolveCommonFactor(a, b).value.qb)
            == a * x + b
  {
    var f := SolveCommonFactor(a, b).value;
    Distribute(f.pgcd, f.qa, f.qb, x);
  }

  lemma Distribute(p: int, u: int, v: int, x: int)
    ensures p * (u * x + v) == (p * u) * x + p * v
  {
  }

  /**
   * generateFactorisation 'facteur-commun': a = factor·innerA and
   * b = factor·innerB with factor in [2, 5] and inner values nonzero, so the
   * page always has a factor of at least 2 to take out.
   */
  lemma GeneratedCommonFactorAtLeastTwo(factor: int, innerA: int, innerB: int)
    requires 2 <= factor <= 5 && 1 <= Abs(innerA) <= 5 && 1 <= Abs(innerB) <= 5
    ensures SolveCommonFactor(factor * innerA, factor * innerB).Some?
    ensures SolveCommonFactor(factor * innerA, factor * innerB).value.pgcd >= factor
  {
    var a, b := factor * innerA, factor * innerB;
    MulNonzeroInt(factor, innerA);
    DividesBy(factor, a, innerA);
    DividesBy(factor, b, innerB);
    GcdCommonDivisors(a, b, factor);
    GcdZero(a, b);
    DividesBounded(factor, Gcd(a, b));
  }

  // ---------------------------------------------------------------- identities

  /** solveDiffCarres: a²x² - b² = (ax - b)(ax + b), as the two factors (a, -b) and (a, b). */
  function SolveDifferenceOfSquaresFactoring(a: int, b: int): (r: ((int, int), (int, int)))
    ensures forall x :: (r.0.0 * x + r.0.1) * (r.1.0 * x + r.1.1) == (a * a) * x * x - b * b
  {
    ((a, -b), (a, b))
  }

  /** The trinomial the perfect-square page displays: a²x² ± 2ab·x + b². */
  function PerfectSquareDisplay(a: int, b: int, isPlus: bool): Poly
  {
    var middle := 2 * a * b * (if isPlus then 1 else -1);
    Poly(a * a, middle, b * b)
  }

  /** solveCarreParfait: the factor (ax ± b) whose square is the displayed trinomial. */
  function SolvePerfectSquare(a: int, b: int, isPlus: bool): (r: (int, int))
    ensures forall x :: (r.0 * x + r.1) * (r.0 * x + r.1) == Eval(PerfectSquareDisplay(a, b, isPlus), x)
  {
    if isPlus then (a, b) else (a, -b)
  }

  /** Factoring undoes the expansion page: the factors expand back with solveDouble. */
  lemma FactoringUndoesExpansion(a: int, b: int, isPlus: bool)
    ensures SolveDouble(a, -b, a, b) == Poly(a * a, 0, -(b * b))
    ensures var f := SolvePerfectSquare(a, b, isPlus);
            SolveDouble(f.0, f.1, f.0, f.1) == PerfectSquareDisplay(a, b, isPlus)
  {
    var f := SolvePerfectSquare(a, b, isPlus);
    SameValuesSamePoly(SolveDouble(f.0, f.1, f.0, f.1), PerfectSquareDisplay(a, b, isPlus));
    SameValuesSamePoly(SolveDouble(a, -b, a, b), Poly(a * a, 0, -(b * b)));
  }

  // ---------------------------------------------------------------- recognisers

  /** The square root the recognisers take (Math.sqrt of a perfect square). */
  function Root(n: nat): (r: nat)
    requires IsSquare(n)
    ensures r * r == n
  {
    Isqrt(n)
  }

  /** checkDiffCarres: coefX2·x² + constante is a²x² - b² when constante < 0 and both are squares. */
  function CheckDifferenceOfSquares(coefX2: int, constante: int): (r: Option<(nat, nat)>)
    ensures r.Some? <==> constante < 0 && IsSquare(coefX2) && IsSquare(-constante)
    ensures r.Some? ==> r.value.0 * r.value.0 == coefX2 && r.value.1 * r.value.1 == -constante && r.value.1 > 0
  {
    if constante >= 0 then None
    else
      var a2 := coefX2;
      var b2 := Abs(constante);
      if !IsSquare(a2) || !IsSquare(b2) then None
      else Some((Root(a2), Root(b2)))
  }

  /** Whatever checkDiffCarres accepts, the difference-of-squares factoring is right for it. */
  lemma RecognisedDifferenceFactors(coefX2: int, constante: int, x: int)
    requires CheckDifferenceOfSquares(coefX2, constante).Some?
    ensures var (a, b) := CheckDifferenceOfSquares(coefX2, constante).value;
            var f := SolveDifferenceOfSquaresFactoring(a, b);
            (f.0.0 * x + f.0.1) * (f.1.0 * x + f.1.1) == coefX2 * x * x + constante
  {
  }

  /** checkDiffCarres accepts every expression the 'diff-carres' page builds, and recovers its a and b. */
  lemma DifferenceRecogniserRoundTrip(a: nat, b: nat)
    requires b >= 1
    ensures CheckDifferenceOfSquares(a * a, -(b * b)) == Some((a, b))
  {
    IsqrtOfSquare(a, a * a);
    IsqrtOfSquare(b, b * b);
    MulPositive(b, b);
  }

  /** checkCarreParfait: outer coefficients squares and coefX = ±2·√coefX2·√constante. */
  function CheckPerfectSquare(coefX2: int, coefX: int, constante: int): (r: Option<(nat, nat, bool)>)
    ensures r.Some? ==> IsSquare(coefX2) && IsSquare(constante)
    ensures r.Some? ==> var (a, b, isPlus) := r.value;
                        a * a == coefX2 && b * b == constante && coefX == (if isPlus then 2 * a * b else -(2 * a * b))
    ensures IsSquare(coefX2) && IsSquare(constante)
            && (coefX == 2 * Root(coefX2) * Root(constante) || coefX == -(2 * Root(coefX2) * Root(constante)))
            ==> r.Some?
  {
    if !IsSquare(coefX2) || !IsSquare(constante) then None
    else
      var a := Root(coefX2);
      var b := Root(constante);
      var expected2ab := 2 * a * b;
      if coefX == expected2ab then Some((a, b, true))
      else if coefX == -expected2ab then Some((a, b, false))
      else None
  }

  /** checkCarreParfait accepts every trinomial the 'carre-parfait' page displays, recovering a, b and the sign. */
  lemma PerfectSquareRecogniserRoundTrip(a: nat, b: nat, isPlus: bool)
    requires a >= 1 && b >= 1
    ensures var p := PerfectSquareDisplay(a, b, isPlus);
            CheckPerfectSquare(p.c2, p.c1, p.c0) == Some((a, b, isPlus))
  {
    var p := PerfectSquareDisplay(a, b, isPlus);
    IsqrtOfSquare(a, a * a);
    IsqrtOfSquare(b, b * b);
    assert IsSquare(p.c2) && Root(p.c2) == a;
    assert IsSquare(p.c0) && Root(p.c0) == b;
    MulPositive(a, b);
    var ab2 := 2 * a * b;
    assert ab2 > 0;
    assert p.c1 == (if isPlus then ab2 else -ab2);
  }

  /** Whatever checkCarreParfait accepts is the square of the factor solveCarreParfait shows. */
  lemma RecognisedPerfectSquareFactors(coefX2: int, coefX: int, constante: int, x: int)
    requires CheckPerfectSquare(coefX2, coefX, constante).Some?
    ensures var (a, b, isPlus) := CheckPerfectSquare(coefX2, coefX, constante).value;
            var f := SolvePerfectSquare(a, b, isPlus);
            (f.0 * x + f.1) * (f.0 * x + f.1) == coefX2 * x * x + coefX * x + constante
  {
    var r := CheckPerfectSquare(coefX2, coefX, constante).value;
    SquareOfRecognised(r.0, r.1, r.2, coefX2, coefX, constante, x);
  }

  lemma SquareOfRecognised(a: int, b: int, isPlus: bool, coefX2: int, coefX: int, constante: int, x: int)
    requires a * a == coefX2 && b * b == constante && coefX == (if isPlus then 2 * a * b else -(2 * a * b))
    ensures var f := SolvePerfectSquare(a, b, isPlus);
            (f.0 * x + f.1) * (f.0 * x + f.1) == coefX2 * x * x + coefX * x + constante
  {
    assert PerfectSquareDisplay(a, b, isPlus) == Poly(coefX2, coefX, constante);
    var f := SolvePerfectSquare(a, b, isPlus);
    assert (f.0 * x + f.1) * (f.0 * x + f.1) == Eval(PerfectSquareDisplay(a, b, isPlus), x);
  }
}
