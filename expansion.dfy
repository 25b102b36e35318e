// Expanding products (js/developpement.js): k(ax + b), (ax + b)(cx + d) and
// the three remarkable identities, as coefficient triples.

module Expansion {
  import opened Utils

  /** c2·x² + c1·x + c0 with integer coefficients. */
  datatype Poly = Poly(c2: int, c1: int, c0: int)

  function Eval(p: Poly, x: int): int
  {
    p.c2 * x * x + p.c1 * x + p.c0
  }

  /** Two triples are equal exactly when they agree at 0, 1 and -1, hence everywhere. */
  lemma {:induction false} SameValuesSamePoly(p: Poly, q: Poly)
    requires Eval(p, 0) == Eval(q, 0) && Eval(p, 1) == Eval(q, 1) && Eval(p, -1) == Eval(q, -1)
    ensures p == q
  {
    assert p.c0 == q.c0;
    assert p.c2 + p.c1 == q.c2 + q.c1;
    assert p.c2 - p.c1 == q.c2 - q.c1;
  }

  /** solveSimple: k(ax + b) = (k·a)x + k·b. */
  function SolveSimple(k: int, a: int, b: int): (r: Poly)
    ensures r.c2 == 0
    ensures forall x :: Eval(r, x) == k * (a * x + b)
  {
    var term1 := k * a;
    var term2 := k * b;
    Poly(0, term1, term2)
  }

  /** solveDouble: (ax + b)(cx + d) = ac·x² + (ad + bc)·x + bd. */
  function SolveDouble(a: int, b: int, c: int, d: int): (r: Poly)
    ensures forall x :: Eval(r, x) == (a * x + b) * (c * x + d)
  {
    var t1 := a * c;
    var t2 := a * d;
    var t3 := b * c;
    var t4 := b * d;
    var middle := t2 + t3;
    Poly(t1, middle, t4)
  }

  /** solveCarreSomme: (ax + b)² = a²x² + 2ab·x + b². */
  function SolveSquareOfSum(a: int, b: int): (r: Poly)
    ensures forall x :: Eval(r, x) == (a * x + b) * (a * x + b)
  {
    Poly(a * a, 2 * a * b, b * b)
  }

  /** solveCarreDiff: (ax - b)² = a²x² - 2ab·x + b². */
  function SolveSquareOfDifference(a: int, b: int): (r: Poly)
    ensures forall x :: Eval(r, x) == (a * x - b) * (a * x - b)
  {
    Poly(a * a, -2 * a * b, b * b)
  }

  /** solveDiffCarresDev: (ax + b)(ax - b) = a²x² - b². */
  function SolveDifferenceOfSquares(a: int, b: int): (r: Poly)
    ensures r.c1 == 0
    ensures forall x :: Eval(r, x) == (a * x + b) * (a * x - b)
  {
    Poly(a * a, 0, -(b * b))
  }

  /** The three identities are the double distributivity with the factors repeated or negated. */
  lemma IdentitiesAreDoubleProducts(a: int, b: int)
    ensures SolveSquareOfSum(a, b) == SolveDouble(a, b, a, b)
    ensures SolveSquareOfDifference(a, b) == SolveDouble(a, -b, a, -b)
    ensures SolveDifferenceOfSquares(a, b) == SolveDouble(a, b, a, -b)
  {
    SameValuesSamePoly(SolveSquareOfSum(a, b), SolveDouble(a, b, a, b));
    SameValuesSamePoly(SolveSquareOfDifference(a, b), SolveDouble(a, -b, a, -b));
    SameValuesSamePoly(SolveDifferenceOfSquares(a, b), SolveDouble(a, b, a, -b));
  }

  /** generateDeveloppement 'simple': k from randCoef(2, 5, true, true), a from randCoef(1, 5, true, true), b nonzero. */
  lemma GeneratedSimpleNonzero(k: int, a: int, b: int)
    requires CoefOutcome(k, 2, 5, true, true) && CoefOutcome(a, 1, 5, true, true) && CoefOutcome(b, -5, 5, false, true)
    ensures SolveSimple(k, a, b).c1 != 0 && SolveSimple(k, a, b).c0 != 0
  {
    MulNonzeroInt(k, a);
    MulNonzeroInt(k, b);
  }

  lemma MulNonzeroInt(x: int, y: int)
    requires x != 0 && y != 0
    ensures x * y != 0
  {
    if x > 0 && y > 0 {
      MulPositive(x, y);
    } else if x > 0 {
      MulPositive(x, -y);
    } else if y > 0 {
      MulPositive(-x, y);
    } else {
      MulPositive(-x, -y);
    }
  }

  /**
   * generateDeveloppement 'double': all four inputs are nonzero, so are the
   * x² and constant coefficients; the x coefficient ad + bc may vanish.
   */
  lemma GeneratedDoubleOuterNonzero(a: int, b: int, c: int, d: int)
    requires CoefOutcome(a, 1, 4, true, true) && CoefOutcome(b, -5, 5, false, true)
    requires CoefOutcome(c, 1, 4, true, true) && CoefOutcome(d, -5, 5, false, true)
    ensures SolveDouble(a, b, c, d).c2 != 0 && SolveDouble(a, b, c, d).c0 != 0
  {
    MulNonzeroInt(a, c);
    MulNonzeroInt(b, d);
  }

  /** (x + 1)(x - 1): the generator can produce an expansion without an x term. */
  lemma GeneratedDoubleMiddleMayVanish()
    ensures CoefOutcome(1, 1, 4, true, true) && CoefOutcome(-1, -5, 5, false, true)
    ensures SolveDouble(1, 1, 1, -1).c1 == 0
  {
  }

  /** generateDeveloppement identities: a in [1, 4] and b in [1, 5], so every coefficient is nonzero. */
  lemma GeneratedIdentitiesNonzero(a: int, b: int)
    requires 1 <= a <= 4 && 1 <= b <= 5
    ensures SolveSquareOfSum(a, b).c2 > 0 && SolveSquareOfSum(a, b).c1 > 0 && SolveSquareOfSum(a, b).c0 > 0
    ensures SolveSquareOfDifference(a, b).c1 < 0
    ensures SolveDifferenceOfSquares(a, b).c0 < 0
  {
    MulPositive(a, b);
    MulPositive(a, a);
    MulPositive(b, b);
  }
}
