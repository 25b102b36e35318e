// Second-degree equations a·x² + b·x + c = 0 (js/equations2.js).
// Coefficients are exact reals; Math.sqrt is an abstract square root: a
// parameter s with s >= 0 and s·s equal to its argument.

module Quadratics {
  import opened Utils

  /** What the page announces: two roots, a double root, or no real root. */
  datatype Roots = TwoRoots(x1: real, x2: real) | DoubleRoot(x0: real) | NoRoot

  predicate Contains(r: Roots, x: real)
  {
    match r
    case TwoRoots(x1, x2) => x == x1 || x == x2
    case DoubleRoot(x0) => x == x0
    case NoRoot => false
  }

  function Trinomial(a: real, b: real, c: real, x: real): real
  {
    a * x * x + b * x + c
  }

  function Discriminant(a: real, b: real, c: real): real
  {
    b * b - 4.0 * a * c
  }

  /** s stands for Math.sqrt(v). */
  predicate IsSqrt(s: real, v: real)
  {
    s >= 0.0 && s * s == v
  }

  // ---------------------------------------------------------------- algebra

  /** Completing the square without division: 4a·P(x) = (2ax + b)² - Δ. */
  lemma CompletedSquare(a: real, b: real, c: real, x: real)
    ensures 4.0 * a * Trinomial(a, b, c, x) == (2.0 * a * x + b) * (2.0 * a * x + b) - Discriminant(a, b, c)
  {
  }

  /** A real number whose square equals v·v is v or -v. */
  lemma SquaresEqual(u: real, v: real)
    ensures u * u == v * v <==> (u == v || u == -v)
  {
    assert (u - v) * (u + v) == u * u - v * v;
    if u * u == v * v && u != v {
      ProductZero(u - v, u + v);
    }
  }

  lemma ProductZero(p: real, q: real)
    requires p * q == 0.0 && p != 0.0
    ensures q == 0.0
  {
    assert q == (p * q) / p;
  }

  lemma SquareNonNegative(u: real)
    ensures u * u >= 0.0
  {
    if u < 0.0 {
      assert u * u == (-u) * (-u);
    }
  }

  /** 2a·x + b = w exactly when x = (w - b) / 2a. */
  lemma LinearInverse(a: real, b: real, x: real, w: real)
    requires a != 0.0
    ensures 2.0 * a * x + b == w <==> x == (w - b) / (2.0 * a)
  {
    var y := (w - b) / (2.0 * a);
    assert 2.0 * a * y == w - b;
    if 2.0 * a * x + b == w {
      assert (2.0 * a) * (x - y) == 0.0;
      ProductZero(2.0 * a, x - y);
    }
  }

  /** P(x) = 0 exactly when (2ax + b)² = Δ. */
  lemma RootIffSquare(a: real, b: real, c: real, x: real)
    requires a != 0.0
    ensures Trinomial(a, b, c, x) == 0.0 <==> (2.0 * a * x + b) * (2.0 * a * x + b) == Discriminant(a, b, c)
  {
    CompletedSquare(a, b, c, x);
    if 4.0 * a * Trinomial(a, b, c, x) == 0.0 {
      ProductZero(4.0 * a, Trinomial(a, b, c, x));
    }
  }

  // ---------------------------------------------------------------- discriminant

  /**
   * solveByDiscriminant: two roots (-b ± √Δ) / 2a when Δ > 0, the double root
   * -b / 2a when Δ = 0, none when Δ < 0. Every caller has ruled out a = 0.
   */
  function SolveByDiscriminant(a: real, b: real, c: real, s: real): (r: Roots)
    requires a != 0.0
    requires Discriminant(a, b, c) > 0.0 ==> IsSqrt(s, Discriminant(a, b, c))
    ensures r.TwoRoots? <==> Discriminant(a, b, c) > 0.0
    ensures r.DoubleRoot? <==> Discriminant(a, b, c) == 0.0
    ensures r.NoRoot? <==> Discriminant(a, b, c) < 0.0
  {
    var delta := b * b - 4.0 * a * c;
    if delta > 0.0 then
      TwoRoots((-b + s) / (2.0 * a), (-b - s) / (2.0 * a))
    else if delta == 0.0 then
      DoubleRoot(-b / (2.0 * a))
    else
      NoRoot
  }

  /** The announced roots are exactly the real solutions of a·x² + b·x + c = 0. */
  lemma SolveByDiscriminantExact(a: real, b: real, c: real, s: real, x: real)
    requires a != 0.0
    requires Discriminant(a, b, c) > 0.0 ==> IsSqrt(s, Discriminant(a, b, c))
    ensures Contains(SolveByDiscriminant(a, b, c, s), x) <==> Trinomial(a, b, c, x) == 0.0
  {
    var delta := Discriminant(a, b, c);
    var w := 2.0 * a * x + b;
    RootIffSquare(a, b, c, x);
    SquareNonNegative(w);
    if delta > 0.0 {
      SquaresEqual(w, s);
      LinearInverse(a, b, x, s);
      LinearInverse(a, b, x, -s);
      assert -s - b == -b - s;
    } else if delta == 0.0 {
      SquaresEqual(w, 0.0);
      LinearInverse(a, b, x, 0.0);
    }
  }

  /** x1 takes +√Δ: it is the larger root exactly when a > 0, and the two roots differ. */
  lemma RootOrder(a: real, b: real, c: real, s: real)
    requires a != 0.0 && Discriminant(a, b, c) > 0.0 && IsSqrt(s, Discriminant(a, b, c))
    ensures SolveByDiscriminant(a, b, c, s).x1 - SolveByDiscriminant(a, b, c, s).x2 == s / a
    ensures SolveByDiscriminant(a, b, c, s).x1 > SolveByDiscriminant(a, b, c, s).x2 <==> a > 0.0
  {
    var r := SolveByDiscriminant(a, b, c, s);
    assert s != 0.0;
    assert r.x1 - r.x2 == ((-b + s) - (-b - s)) / (2.0 * a);
    assert r.x1 - r.x2 == s / a;
    QuotientSign(s, a);
  }

  lemma QuotientSign(s: real, a: real)
    requires s > 0.0 && a != 0.0
    ensures s / a > 0.0 <==> a > 0.0
  {
    assert (s / a) * a == s;
    SignRule(s / a, a);
  }

  lemma SignRule(q: real, a: real)
    requires q * a > 0.0
    ensures q > 0.0 <==> a > 0.0
  {
  }

  lemma SquarePositive(u: real)
    requires u != 0.0
    ensures u * u > 0.0
  {
  }

  /** Sum and product of the roots (Vieta), as solveSommeProduitSteps checks them. */
  lemma Vieta(a: real, b: real, c: real, s: real)
    requires a != 0.0 && Discriminant(a, b, c) > 0.0 && IsSqrt(s, Discriminant(a, b, c))
    ensures SolveByDiscriminant(a, b, c, s).x1 + SolveByDiscriminant(a, b, c, s).x2 == -b / a
    ensures SolveByDiscriminant(a, b, c, s).x1 * SolveByDiscriminant(a, b, c, s).x2 == c / a
  {
    var r := SolveByDiscriminant(a, b, c, s);
    var d := 2.0 * a;
    assert r.x1 * d == -b + s && r.x2 * d == -b - s;
    var sum, prod := -b / a, c / a;
    assert sum * a == -b && prod * a == c;
    SumOfRoots(r.x1, r.x2, sum, a, b, s);
    ProductOfRoots(r.x1, r.x2, prod, a, b, c, s);
  }

  /** Division-free form of x1 + x2 = -b/a. */
  lemma SumOfRoots(x1: real, x2: real, sum: real, a: real, b: real, s: real)
    requires a != 0.0
    requires x1 * (2.0 * a) == -b + s && x2 * (2.0 * a) == -b - s
    requires sum * a == -b
    ensures x1 + x2 == sum
  {
    assert (x1 + x2) * (2.0 * a) == x1 * (2.0 * a) + x2 * (2.0 * a);
    assert sum * (2.0 * a) == 2.0 * (sum * a);
    CancelFactor(x1 + x2, sum, 2.0 * a);
  }

  /** Division-free form of x1·x2 = c/a: both sides times (2a)² equal 4ac. */
  lemma ProductOfRoots(x1: real, x2: real, prod: real, a: real, b: real, c: real, s: real)
    requires a != 0.0
    requires x1 * (2.0 * a) == -b + s && x2 * (2.0 * a) == -b - s
    requires prod * a == c
    requires s * s == b * b - 4.0 * a * c
    ensures x1 * x2 == prod
  {
    var d := 2.0 * a;
    var t := x1 * x2;
    assert t * d == x1 * (-b - s);
    assert (x1 * (-b - s)) * d == (-b + s) * (-b - s);
    ConjugateRoots(b, s, 4.0 * a * c);
    assert prod * d == 2.0 * c;
    assert (2.0 * c) * d == 4.0 * a * c;
    CancelFactor(t * d, prod * d, d);
    CancelFactor(t, prod, d);
  }

  lemma CancelFactor(y: real, z: real, e: real)
    requires e != 0.0 && y * e == z * e
    ensures y == z
  {
    assert (y - z) * e == 0.0;
  }

  /** (-b + s)(-b - s) = b² - s², which is 4ac when s² = Δ. */
  lemma ConjugateRoots(b: real, s: real, fourAC: real)
    requires s * s == b * b - fourAC
    ensures (-b + s) * (-b - s) == fourAC
  {
    assert (-b + s) * (-b - s) == b * b - s * s;
  }

  // ---------------------------------------------------------------- canonical form

  /** toCanonicalForm: α = -b / 2a and β = c - b² / 4a. */
  function ToCanonicalForm(a: real, b: real, c: real): (r: (real, real))
    requires a != 0.0
    ensures 2.0 * a * r.0 == -b
    ensures Discriminant(a, b, c) == -4.0 * a * r.1
  {
    (-b / (2.0 * a), c - (b * b) / (4.0 * a))
  }

  /** a(x - α)² + β is the same polynomial as a·x² + b·x + c. */
  lemma CanonicalFormIdentity(a: real, b: real, c: real, x: real)
    requires a != 0.0
    ensures a * (x - ToCanonicalForm(a, b, c).0) * (x - ToCanonicalForm(a, b, c).0) + ToCanonicalForm(a, b, c).1
            == Trinomial(a, b, c, x)
  {
    var (alpha, beta) := ToCanonicalForm(a, b, c);
    var u := x - alpha;
    assert 2.0 * a * u == 2.0 * a * x + b;
    // 4a·(a·u² + β) = (2au)² - Δ = 4a·P(x)
    assert 4.0 * a * (a * u * u + beta) == (2.0 * a * u) * (2.0 * a * u) - Discriminant(a, b, c);
    CompletedSquare(a, b, c, x);
    assert 4.0 * a * (a * u * u + beta) == 4.0 * a * Trinomial(a, b, c, x);
    assert (4.0 * a) * ((a * u * u + beta) - Trinomial(a, b, c, x)) == 0.0;
    ProductZero(4.0 * a, (a * u * u + beta) - Trinomial(a, b, c, x));
  }

  /**
   * solveCanonicSteps: k = -β / a, then α ± √k, α alone, or nothing; a = 0
   * is reported as an error. t stands for Math.sqrt(k).
   */
  function SolveCanonic(a: real, b: real, c: real, t: real): (r: Result<Roots>)
    requires a != 0.0 ==> (-ToCanonicalForm(a, b, c).1 / a > 0.0 ==> IsSqrt(t, -ToCanonicalForm(a, b, c).1 / a))
    ensures r.Err? <==> a == 0.0
  {
    if a == 0.0 then Err("a ne peut pas etre nul")
    else
      var (alpha, beta) := ToCanonicalForm(a, b, c);
      var k := -beta / a;
      if k > 0.0 then Ok(TwoRoots(alpha + t, alpha - t))
      else if k == 0.0 then Ok(DoubleRoot(alpha))
      else Ok(NoRoot)
  }

  /** k = -β / a has the sign of Δ (it is Δ / 4a²). */
  lemma CanonicK(a: real, b: real, c: real)
    requires a != 0.0
    ensures 4.0 * a * a * (-ToCanonicalForm(a, b, c).1 / a) == Discriminant(a, b, c)
    ensures -ToCanonicalForm(a, b, c).1 / a > 0.0 <==> Discriminant(a, b, c) > 0.0
    ensures -ToCanonicalForm(a, b, c).1 / a == 0.0 <==> Discriminant(a, b, c) == 0.0
  {
    var beta := ToCanonicalForm(a, b, c).1;
    var k := -beta / a;
    assert a * k == -beta;
    assert 4.0 * a * a * k == -4.0 * a * beta;
    var aa := a * a;
    SquarePositive(a);
    assert 4.0 * aa * k == Discriminant(a, b, c);
  }

  /** The canonical-form route announces exactly the solutions too. */
  lemma SolveCanonicExact(a: real, b: real, c: real, t: real, x: real)
    requires a != 0.0
    requires -ToCanonicalForm(a, b, c).1 / a > 0.0 ==> IsSqrt(t, -ToCanonicalForm(a, b, c).1 / a)
    ensures SolveCanonic(a, b, c, t).Ok?
    ensures Contains(SolveCanonic(a, b, c, t).value, x) <==> Trinomial(a, b, c, x) == 0.0
  {
    var (alpha, beta) := ToCanonicalForm(a, b, c);
    var k := -beta / a;
    var u := x - alpha;
    CanonicalFormIdentity(a, b, c, x);
    assert Trinomial(a, b, c, x) == a * u * u + beta;
    // a·u² + β = 0 exactly when u² = k
    assert a * k == -beta;
    assert a * u * u + beta == a * (u * u - k);
    if a * (u * u - k) == 0.0 {
      ProductZero(a, u * u - k);
    }
    SquareNonNegative(u);
    if k > 0.0 {
      SquaresEqual(u, t);
    } else if k == 0.0 {
      SquaresEqual(u, 0.0);
    }
  }

  /** Both routes give the same roots, up to order (the same set for every x). */
  lemma CanonicAgreesWithDiscriminant(a: real, b: real, c: real, s: real, t: real, x: real)
    requires a != 0.0
    requires Discriminant(a, b, c) > 0.0 ==> IsSqrt(s, Discriminant(a, b, c))
    requires -ToCanonicalForm(a, b, c).1 / a > 0.0 ==> IsSqrt(t, -ToCanonicalForm(a, b, c).1 / a)
    ensures SolveCanonic(a, b, c, t).Ok?
    ensures Contains(SolveCanonic(a, b, c, t).value, x) <==> Contains(SolveByDiscriminant(a, b, c, s), x)
  {
    SolveCanonicExact(a, b, c, t, x);
    SolveByDiscriminantExact(a, b, c, s, x);
  }

  // ---------------------------------------------------------------- guards

  /** solveDiscriminantSteps: a = 0 is an error, otherwise the discriminant solution. */
  function SolveDiscriminantSteps(a: real, b: real, c: real, s: real): (r: Result<Roots>)
    requires Discriminant(a, b, c) > 0.0 ==> IsSqrt(s, Discriminant(a, b, c))
    ensures r.Err? <==> a == 0.0
    ensures r.Ok? ==> forall x :: Contains(r.value, x) ==> Trinomial(a, b, c, x) == 0.0
  {
    if a == 0.0 then Err("equation du 1er degre")
    else
      var r := SolveByDiscriminant(a, b, c, s);
      assert forall x :: Contains(r, x) ==> Trinomial(a, b, c, x) == 0.0 by {
        forall x | Contains(r, x) {
          SolveByDiscriminantExact(a, b, c, s, x);
        }
      }
      Ok(r)
  }

  /** solveSommeProduitSteps: a = 0 is an error, otherwise S = -b / a and P = c / a. */
  function SumProduct(a: real, b: real, c: real): (r: Result<(real, real)>)
    ensures r.Err? <==> a == 0.0
    ensures r.Ok? ==> a * r.value.0 == -b && a * r.value.1 == c
  {
    if a == 0.0 then Err("a ne peut pas etre nul")
    else Ok((-b / a, c / a))
  }

  /** With two roots, S and P are their sum and product. */
  lemma SumProductOfRoots(a: real, b: real, c: real, s: real)
    requires a != 0.0 && Discriminant(a, b, c) > 0.0 && IsSqrt(s, Discriminant(a, b, c))
    ensures SumProduct(a, b, c).Ok?
    ensures SumProduct(a, b, c).value.0 == SolveByDiscriminant(a, b, c, s).x1 + SolveByDiscriminant(a, b, c, s).x2
    ensures SumProduct(a, b, c).value.1 == SolveByDiscriminant(a, b, c, s).x1 * SolveByDiscriminant(a, b, c, s).x2
  {
    Vieta(a, b, c, s);
  }

  /** With a double root x0, the page's S and P are 2·x0 and x0². */
  lemma SumProductOfDoubleRoot(a: real, b: real, c: real)
    requires a != 0.0 && Discriminant(a, b, c) == 0.0
    ensures SumProduct(a, b, c).Ok?
    ensures SumProduct(a, b, c).value.0 == 2.0 * SolveByDiscriminant(a, b, c, 0.0).x0
    ensures SumProduct(a, b, c).value.1 == SolveByDiscriminant(a, b, c, 0.0).x0 * SolveByDiscriminant(a, b, c, 0.0).x0
  {
    var x0 := SolveByDiscriminant(a, b, c, 0.0).x0;
    var sp := SumProduct(a, b, c).value;
    assert x0 * (2.0 * a) == -b;
    DoubleRootSum(x0, sp.0, a, b);
    DoubleRootProduct(x0, sp.1, a, b, c);
  }

  /** Division-free form of S = 2·x0. */
  lemma DoubleRootSum(x0: real, sum: real, a: real, b: real)
    requires a != 0.0
    requires x0 * (2.0 * a) == -b && sum * a == -b
    ensures sum == 2.0 * x0
  {
    assert (2.0 * x0) * a == -b;
    CancelFactor(sum, 2.0 * x0, a);
  }

  /** Division-free form of P = x0²: x0²·4a² = b² = 4ac, so x0²·a = c = P·a. */
  lemma DoubleRootProduct(x0: real, prod: real, a: real, b: real, c: real)
    requires a != 0.0
    requires x0 * (2.0 * a) == -b && prod * a == c
    requires b * b - 4.0 * a * c == 0.0
    ensures prod == x0 * x0
  {
    var sq := x0 * x0;
    assert (sq * a) * (4.0 * a) == (x0 * (2.0 * a)) * (x0 * (2.0 * a));
    assert (sq * a) * (4.0 * a) == c * (4.0 * a);
    CancelFactor(sq * a, c, 4.0 * a);
    CancelFactor(prod, sq, a);
  }

  // ---------------------------------------------------------------- particular cases

  /** a·x² + c = 0: k = -c / a, then {-√k ; √k}, {0} or ∅. t stands for Math.sqrt(k). */
  function SolveSquarePlusConstant(a: real, c: real, t: real): (r: Roots)
    requires a != 0.0
    requires -c / a > 0.0 ==> IsSqrt(t, -c / a)
  {
    var k := -c / a;
    if k > 0.0 then TwoRoots(-t, t)
    else if k == 0.0 then DoubleRoot(0.0)
    else NoRoot
  }

  lemma SolveSquarePlusConstantExact(a: real, c: real, t: real, x: real)
    requires a != 0.0
    requires -c / a > 0.0 ==> IsSqrt(t, -c / a)
    ensures Contains(SolveSquarePlusConstant(a, c, t), x) <==> a * x * x + c == 0.0
  {
    var k := -c / a;
    assert a * k == -c;
    assert a * x * x + c == a * (x * x - k);
    if a * (x * x - k) == 0.0 {
      ProductZero(a, x * x - k);
    }
    SquareNonNegative(x);
    if k > 0.0 {
      SquaresEqual(x, t);
    } else if k == 0.0 {
      SquaresEqual(x, 0.0);
    }
  }

  /**
   * a·x² + b·x = 0 as the page builds it: b is read from the same field as a,
   * so the roots are 0 and -b / a = -1.
   */
  function SolveSquarePlusLinear(a: real): (r: Roots)
    requires a != 0.0
    ensures r.TwoRoots? && r.x1 == 0.0 && r.x2 == -1.0
  {
    var b := a;
    TwoRoots(0.0, -b / a)
  }

  lemma SolveSquarePlusLinearExact(a: real, x: real)
    requires a != 0.0
    ensures Contains(SolveSquarePlusLinear(a), x) <==> a * x * x + a * x == 0.0
  {
    assert a * x * x + a * x == a * (x * (x + 1.0));
    if a * (x * (x + 1.0)) == 0.0 {
      ProductZero(a, x * (x + 1.0));
      if x != 0.0 {
        ProductZero(x, x + 1.0);
      }
    }
  }

  /** (x - a)² = k: {a - √k ; a + √k}, {a} or ∅. t stands for Math.sqrt(k). */
  function SolveShiftedSquare(a: real, k: real, t: real): (r: Roots)
    requires k > 0.0 ==> IsSqrt(t, k)
  {
    if k > 0.0 then TwoRoots(a - t, a + t)
    else if k == 0.0 then DoubleRoot(a)
    else NoRoot
  }

  lemma SolveShiftedSquareExact(a: real, k: real, t: real, x: real)
    requires k > 0.0 ==> IsSqrt(t, k)
    ensures Contains(SolveShiftedSquare(a, k, t), x) <==> (x - a) * (x - a) == k
  {
    SquareNonNegative(x - a);
    if k > 0.0 {
      SquaresEqual(x - a, t);
    } else if k == 0.0 {
      SquaresEqual(x - a, 0.0);
    }
  }

  /** The (x - a)² = k generator draws k in [1, 25]: always two distinct roots. */
  lemma GeneratedShiftedSquareHasTwoRoots(a: int, k: int, t: real)
    requires 1 <= k <= 25 && IsSqrt(t, k as real)
    ensures SolveShiftedSquare(a as real, k as real, t).TwoRoots?
    ensures SolveShiftedSquare(a as real, k as real, t).x1 < SolveShiftedSquare(a as real, k as real, t).x2
  {
  }

  /**
   * Every generator draws a from randCoef with a positive minimum and
   * avoidZero (the sum-and-product one fixes a = 1), so a >= 1 and none of the three a-guarded solvers reports the
   * degenerate error, whatever b, c and the square roots are.
   */
  lemma GeneratedLeadingCoefficient(a: int, max: int, b: real, c: real, s: real, t: real)
    requires CoefOutcome(a, 1, max, false, true)
    requires Discriminant(a as real, b, c) > 0.0 ==> IsSqrt(s, Discriminant(a as real, b, c))
    requires -ToCanonicalForm(a as real, b, c).1 / a as real > 0.0 ==> IsSqrt(t, -ToCanonicalForm(a as real, b, c).1 / a as real)
    ensures a >= 1
    ensures SolveDiscriminantSteps(a as real, b, c, s) == Ok(SolveByDiscriminant(a as real, b, c, s))
    ensures SumProduct(a as real, b, c).Ok?
    ensures SolveCanonic(a as real, b, c, t).Ok?
  {
  }
}
