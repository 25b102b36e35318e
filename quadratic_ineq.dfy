// Second-degree inequations a·x² + b·x + c ⋈ 0 (js/inequations2.js): the
// associated equation with ordered roots, the sign table, and the decision
// table that turns (number of roots, sign of a, sign ⋈) into a solution set.

module QuadraticInequations {
  import opened Utils
  import opened Quadratics
  import LinearInequations

  type Op = LinearInequations.Op

  /** solveEquation: the same roots as the equation page, but x1 = min and x2 = max. */
  function SolveEquation(a: real, b: real, c: real, s: real): (r: Roots)
    requires a != 0.0
    requires Discriminant(a, b, c) > 0.0 ==> IsSqrt(s, Discriminant(a, b, c))
    ensures r.TwoRoots? <==> Discriminant(a, b, c) > 0.0
    ensures r.DoubleRoot? <==> Discriminant(a, b, c) == 0.0
    ensures r.NoRoot? <==> Discriminant(a, b, c) < 0.0
  {
    var delta := b * b - 4.0 * a * c;
    if delta > 0.0 then
      var x1 := (-b - s) / (2.0 * a);
      var x2 := (-b + s) / (2.0 * a);
      TwoRoots(if x1 <= x2 then x1 else x2, if x1 <= x2 then x2 else x1)
    else if delta == 0.0 then
      DoubleRoot(-b / (2.0 * a))
    else
      NoRoot
  }

  /** The ordered roots are strictly increasing and are the roots the equation page finds. */
  lemma SolveEquationOrdered(a: real, b: real, c: real, s: real, x: real)
    requires a != 0.0
    requires Discriminant(a, b, c) > 0.0 ==> IsSqrt(s, Discriminant(a, b, c))
    ensures SolveEquation(a, b, c, s).TwoRoots? ==> SolveEquation(a, b, c, s).x1 < SolveEquation(a, b, c, s).x2
    ensures Contains(SolveEquation(a, b, c, s), x) <==> Contains(SolveByDiscriminant(a, b, c, s), x)
    ensures Contains(SolveEquation(a, b, c, s), x) <==> Trinomial(a, b, c, x) == 0.0
  {
    if Discriminant(a, b, c) > 0.0 {
      RootOrder(a, b, c, s);
    }
    SolveByDiscriminantExact(a, b, c, s, x);
  }

  /** A solution set as the page prints it. */
  datatype SolutionSet =
    | AllReals                                   // S = ℝ
    | Empty                                      // S = ∅
    | AllBut(x0: real)                           // S = ℝ \ {x0}
    | Single(x0: real)                           // S = {x0}
    | Outside(x1: real, x2: real, closed: bool)  // ]-∞ ; x1] ∪ [x2 ; +∞[, open or closed at the roots
    | Inside(x1: real, x2: real, closed: bool)   // [x1 ; x2], open or closed

  predicate InSet(S: SolutionSet, x: real)
  {
    match S
    case AllReals => true
    case Empty => false
    case AllBut(x0) => x != x0
    case Single(x0) => x == x0
    case Outside(x1, x2, closed) => x < x1 || x > x2 || (closed && (x == x1 || x == x2))
    case Inside(x1, x2, closed) => (x1 < x < x2) || (closed && (x == x1 || x == x2))
  }

  /** getSignIntervals: where the trinomial is positive and where it is negative. */
  datatype SignIntervals = SignIntervals(positive: SolutionSet, negative: SolutionSet)

  function GetSignIntervals(a: real, solution: Roots): (r: SignIntervals)
    requires a != 0.0
    ensures solution.NoRoot? ==> (r.positive.AllReals? <==> a > 0.0) && (r.negative.AllReals? <==> a < 0.0)
  {
    match solution
    case NoRoot =>
      if a > 0.0 then SignIntervals(AllReals, Empty) else SignIntervals(Empty, AllReals)
    case DoubleRoot(x0) =>
      if a > 0.0 then SignIntervals(AllBut(x0), Empty) else SignIntervals(Empty, AllBut(x0))
    case TwoRoots(x1, x2) =>
      if a > 0.0 then SignIntervals(Outside(x1, x2, false), Inside(x1, x2, false))
      else SignIntervals(Inside(x1, x2, false), Outside(x1, x2, false))
  }

  // ---------------------------------------------------------------- sign facts

  /** With Δ < 0, a·P(x) > 0 everywhere; with Δ = 0, a·P(x) >= 0 and vanishes only at -b / 2a. */
  lemma SignWithoutTwoRoots(a: real, b: real, c: real, x: real)
    requires a != 0.0 && Discriminant(a, b, c) <= 0.0
    ensures Discriminant(a, b, c) < 0.0 ==> a * Trinomial(a, b, c, x) > 0.0
    ensures Discriminant(a, b, c) == 0.0 ==> a * Trinomial(a, b, c, x) >= 0.0
    ensures Discriminant(a, b, c) == 0.0 ==> (a * Trinomial(a, b, c, x) == 0.0 <==> x == -b / (2.0 * a))
  {
    var w := 2.0 * a * x + b;
    CompletedSquare(a, b, c, x);
    SquareNonNegative(w);
    assert 4.0 * (a * Trinomial(a, b, c, x)) == w * w - Discriminant(a, b, c);
    if Discriminant(a, b, c) == 0.0 {
      SquaresEqual(w, 0.0);
      LinearInverse(a, b, x, 0.0);
    }
  }

  /** With two roots, P(x) = a·(x - x1)·(x - x2). */
  lemma Factored(a: real, b: real, c: real, s: real, x: real)
    requires a != 0.0 && Discriminant(a, b, c) > 0.0 && IsSqrt(s, Discriminant(a, b, c))
    ensures Trinomial(a, b, c, x)
            == a * (x - SolveEquation(a, b, c, s).x1) * (x - SolveEquation(a, b, c, s).x2)
  {
    var r := SolveEquation(a, b, c, s);
    var sum, prod := r.x1 + r.x2, r.x1 * r.x2;
    Vieta(a, b, c, s);
    var d := SolveByDiscriminant(a, b, c, s);
    assert sum == d.x1 + d.x2 && prod == d.x1 * d.x2;
    assert a * sum == -b;
    assert a * prod == c;
    assert a * (x - r.x1) * (x - r.x2) == a * x * x - (a * sum) * x + a * prod;
  }

  /** Sign of (x - x1)(x - x2) for x1 < x2. */
  lemma OrderedProductSign(x: real, x1: real, x2: real)
    requires x1 < x2
    ensures (x - x1) * (x - x2) > 0.0 <==> (x < x1 || x > x2)
    ensures (x - x1) * (x - x2) < 0.0 <==> (x1 < x && x < x2)
  {
    if x < x1 {
      assert (x - x1) * (x - x2) == (x1 - x) * (x2 - x);
      PositiveProduct(x1 - x, x2 - x);
    } else if x > x2 {
      PositiveProduct(x - x1, x - x2);
      assert !(x1 < x && x < x2);
    } else if x1 < x < x2 {
      assert (x - x1) * (x - x2) == -((x - x1) * (x2 - x));
      PositiveProduct(x - x1, x2 - x);
    }
  }

  lemma PositiveProduct(p: real, q: real)
    requires p > 0.0 && q > 0.0
    ensures p * q > 0.0
  {
  }

  /** With two roots, a·P(x) has the sign of (x - x1)(x - x2). */
  lemma SignWithTwoRoots(a: real, b: real, c: real, s: real, x: real)
    requires a != 0.0 && Discriminant(a, b, c) > 0.0 && IsSqrt(s, Discriminant(a, b, c))
    ensures a * Trinomial(a, b, c, x) > 0.0 <==> (x < SolveEquation(a, b, c, s).x1 || x > SolveEquation(a, b, c, s).x2)
    ensures a * Trinomial(a, b, c, x) < 0.0 <==> (SolveEquation(a, b, c, s).x1 < x < SolveEquation(a, b, c, s).x2)
  {
    var r := SolveEquation(a, b, c, s);
    SolveEquationOrdered(a, b, c, s, x);
    Factored(a, b, c, s, x);
    var m := (x - r.x1) * (x - r.x2);
    assert a * Trinomial(a, b, c, x) == (a * a) * m;
    SquarePositive(a);
    OrderedProductSign(x, r.x1, r.x2);
    PositiveScale(a * a, m);
  }

  lemma PositiveScale(k: real, m: real)
    requires k > 0.0
    ensures k * m > 0.0 <==> m > 0.0
    ensures k * m < 0.0 <==> m < 0.0
  {
  }

  /** P(x) has the sign of a·P(x) times the sign of a. */
  lemma SignThroughA(a: real, p: real)
    requires a != 0.0
    ensures p > 0.0 <==> (a > 0.0 && a * p > 0.0) || (a < 0.0 && a * p < 0.0)
    ensures p < 0.0 <==> (a > 0.0 && a * p < 0.0) || (a < 0.0 && a * p > 0.0)
  {
  }

  /** The sign table is right: positive and negative parts are exactly where P > 0 and P < 0. */
  lemma GetSignIntervalsExact(a: real, b: real, c: real, s: real, x: real)
    requires a != 0.0
    requires Discriminant(a, b, c) > 0.0 ==> IsSqrt(s, Discriminant(a, b, c))
    ensures InSet(GetSignIntervals(a, SolveEquation(a, b, c, s)).positive, x) <==> Trinomial(a, b, c, x) > 0.0
    ensures InSet(GetSignIntervals(a, SolveEquation(a, b, c, s)).negative, x) <==> Trinomial(a, b, c, x) < 0.0
  {
    SignThroughA(a, Trinomial(a, b, c, x));
    if Discriminant(a, b, c) > 0.0 {
      SignWithTwoRoots(a, b, c, s, x);
    } else {
      SignWithoutTwoRoots(a, b, c, x);
    }
  }

  // ---------------------------------------------------------------- decision table

  /**
   * solveInequation2: a = 0 is an error; otherwise the solution set follows
   * from the number of roots, the sign of a and the sign ⋈.
   */
  function SolveInequation2(a: real, b: real, c: real, op: Op, s: real): (r: Result<SolutionSet>)
    requires Discriminant(a, b, c) > 0.0 ==> IsSqrt(s, Discriminant(a, b, c))
    ensures r.Err? <==> a == 0.0
  {
    if a == 0.0 then Err("inequation du 1er degre")
    else
      var solution := SolveEquation(a, b, c, s);
      if op == LinearInequations.Gt || op == LinearInequations.Ge then
        var wide := op == LinearInequations.Ge;
        match solution
        case NoRoot => Ok(if a > 0.0 then AllReals else Empty)
        case DoubleRoot(x0) =>
          if a > 0.0 then Ok(if wide then AllReals else AllBut(x0))
          else Ok(if wide then Single(x0) else Empty)
        case TwoRoots(x1, x2) =>
          if a > 0.0 then Ok(Outside(x1, x2, wide)) else Ok(Inside(x1, x2, wide))
      else
        var wide := op == LinearInequations.Le;
        match solution
        case NoRoot => Ok(if a < 0.0 then AllReals else Empty)
        case DoubleRoot(x0) =>
          if a < 0.0 then Ok(if wide then AllReals else AllBut(x0))
          else Ok(if wide then Single(x0) else Empty)
        case TwoRoots(x1, x2) =>
          if a > 0.0 then Ok(Inside(x1, x2, wide)) else Ok(Outside(x1, x2, wide))
  }

  /** Every printed solution set is exactly { x | a·x² + b·x + c ⋈ 0 }. */
  lemma SolveInequation2Exact(a: real, b: real, c: real, op: Op, s: real, x: real)
    requires a != 0.0
    requires Discriminant(a, b, c) > 0.0 ==> IsSqrt(s, Discriminant(a, b, c))
    ensures SolveInequation2(a, b, c, op, s).Ok?
    ensures InSet(SolveInequation2(a, b, c, op, s).value, x) <==> LinearInequations.Holds(Trinomial(a, b, c, x), op, 0.0)
  {
    GetSignIntervalsExact(a, b, c, s, x);
    SolveEquationOrdered(a, b, c, s, x);
    var solution := SolveEquation(a, b, c, s);
    if solution.DoubleRoot? {
      SignWithoutTwoRoots(a, b, c, x);
    }
  }

  /** '<' is the complement of '>=' and '<=' the complement of '>'. */
  lemma StrictComplements(a: real, b: real, c: real, s: real, x: real)
    requires a != 0.0
    requires Discriminant(a, b, c) > 0.0 ==> IsSqrt(s, Discriminant(a, b, c))
    ensures InSet(SolveInequation2(a, b, c, LinearInequations.Lt, s).value, x)
            <==> !InSet(SolveInequation2(a, b, c, LinearInequations.Ge, s).value, x)
    ensures InSet(SolveInequation2(a, b, c, LinearInequations.Le, s).value, x)
            <==> !InSet(SolveInequation2(a, b, c, LinearInequations.Gt, s).value, x)
  {
    SolveInequation2Exact(a, b, c, LinearInequations.Lt, s, x);
    SolveInequation2Exact(a, b, c, LinearInequations.Ge, s, x);
    SolveInequation2Exact(a, b, c, LinearInequations.Le, s, x);
    SolveInequation2Exact(a, b, c, LinearInequations.Gt, s, x);
  }

  /** A root of the trinomial belongs to the solution set exactly when ⋈ is not strict. */
  lemma RootsBelongIffWide(a: real, b: real, c: real, op: Op, s: real, x: real)
    requires a != 0.0
    requires Discriminant(a, b, c) > 0.0 ==> IsSqrt(s, Discriminant(a, b, c))
    requires Contains(SolveEquation(a, b, c, s), x)
    ensures InSet(SolveInequation2(a, b, c, op, s).value, x) <==> !LinearInequations.Strict(op)
  {
    SolveEquationOrdered(a, b, c, s, x);
    SolveInequation2Exact(a, b, c, op, s, x);
  }
}
