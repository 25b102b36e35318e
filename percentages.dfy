// Percentages (js/pourcentages.js): p % of a value, the share a part is of
// a total, increase and decrease by a percentage, and recovering the value
// before a change. Page inputs are exact rationals here.

module Percentages {
  import opened Utils

  /** The multiplier of a change by p %: 1 + p/100 for an increase, 1 - p/100 for a decrease. */
  function Multiplier(p: real, isIncrease: bool): real
  {
    if isIncrease then 1.0 + p / 100.0 else 1.0 - p / 100.0
  }

  /** solveCalculer: p % of v is (p/100)·v, that is, 100 times the result is p·v. */
  function PercentOf(p: real, v: real): (r: real)
    ensures 100.0 * r == p * v
  {
    (p / 100.0) * v
  }

  /** X % of Y is Y % of X. */
  lemma PercentOfSymmetric(p: real, v: real)
    ensures PercentOf(p, v) == PercentOf(v, p)
  {
  }

  /**
   * solveTrouver: the part as a percentage of the total. A zero total is the
   * page's division-by-zero warning; otherwise the answer is the percentage
   * that, taken of the total, gives back the part.
   */
  function SolveTrouver(partie: real, total: real): (r: Result<real>)
    ensures r.Err? <==> total == 0.0
    ensures r.Ok? ==> PercentOf(r.value, total) == partie
  {
    if total == 0.0 then Err("division by zero")
    else
      var fraction := partie / total;
      var pourcentage := fraction * 100.0;
      assert PercentOf(pourcentage, total) == fraction * total;
      Ok(pourcentage)
  }

  /** solveAugmentation: v plus p % of v, which is v times the multiplier 1 + p/100. */
  function SolveAugmentation(valeurInitiale: real, pourcentage: real): (r: real)
    ensures r == valeurInitiale * Multiplier(pourcentage, true)
  {
    var augmentation := PercentOf(pourcentage, valeurInitiale);
    valeurInitiale + augmentation
  }

  /** solveReduction: v minus p % of v, which is v times the multiplier 1 - p/100. */
  function SolveReduction(valeurInitiale: real, pourcentage: real): (r: real)
    ensures r == valeurInitiale * Multiplier(pourcentage, false)
  {
    var reduction := PercentOf(pourcentage, valeurInitiale);
    valeurInitiale - reduction
  }

  /** Increasing then decreasing by the same p scales by 1 - (p/100)²: it does not give v back unless p = 0 or v = 0. */
  lemma IncreaseThenDecrease(v: real, p: real)
    ensures SolveReduction(SolveAugmentation(v, p), p) == v * (1.0 - (p / 100.0) * (p / 100.0))
    ensures SolveAugmentation(SolveReduction(v, p), p) == SolveReduction(SolveAugmentation(v, p), p)
    ensures SolveReduction(SolveAugmentation(v, p), p) == v <==> p == 0.0 || v == 0.0
  {
    assert (1.0 + p / 100.0) * (1.0 - p / 100.0) == 1.0 - (p / 100.0) * (p / 100.0);
    if v != 0.0 && p != 0.0 {
      NoFixedPoint(v, p / 100.0);
    }
  }

  lemma SquarePositive(q: real)
    requires q != 0.0
    ensures q * q > 0.0
  {
    if q > 0.0 {
      assert q * q > 0.0 * q;
    } else {
      assert q * q > 0.0;
    }
  }

  /** Scaling a nonzero v by 1 - q² with q ≠ 0 moves it. */
  lemma NoFixedPoint(v: real, q: real)
    requires v != 0.0
    requires q != 0.0
    ensures v * (1.0 - q * q) != v
  {
    SquarePositive(q);
    assert v * (1.0 - q * q) == v - v * (q * q);
    assert v * (q * q) != 0.0;
  }

  /** 100 + 20 % = 120, then 120 - 20 % = 96. */
  lemma HundredUpAndDownTwenty()
    ensures SolveAugmentation(100.0, 20.0) == 120.0
    ensures SolveReduction(120.0, 20.0) == 96.0
  {
  }

  // ---------------------------------------------------------------- recovering the initial value

  /** A JavaScript number as the page computes it: a finite value, ±Infinity or NaN. */
  datatype JsNumber = Finite(value: real) | PlusInfinity | MinusInfinity | NaN

  /** IEEE division as JavaScript does it, for a divisor that may be 0 (signed zeros left aside). */
  function JsDivide(x: real, y: real): (r: JsNumber)
    ensures y != 0.0 ==> r == Finite(x / y)
    ensures y == 0.0 ==> !r.Finite?
  {
    if y != 0.0 then Finite(x / y)
    else if x > 0.0 then PlusInfinity
    else if x < 0.0 then MinusInfinity
    else NaN
  }

  /**
   * solveRetrouver as written: divide the final value by the multiplier with
   * no guard. A 100 % decrease has multiplier 0 and shows ±Infinity or NaN.
   */
  function SolveRetrouverAsWritten(valeurFinale: real, pourcentage: real, isAugmentation: bool): (r: JsNumber)
    ensures r.Finite? <==> Multiplier(pourcentage, isAugmentation) != 0.0
    ensures r.Finite? ==> r.value * Multiplier(pourcentage, isAugmentation) == valeurFinale
  {
    var coef := Multiplier(pourcentage, isAugmentation);
    JsDivide(valeurFinale, coef)
  }

  /** After a 100 % decrease the page shows Infinity for a positive final value, NaN for 0. */
  lemma RetrouverHundredPercentDecrease()
    ensures SolveRetrouverAsWritten(50.0, 100.0, false) == PlusInfinity
    ensures SolveRetrouverAsWritten(0.0, 100.0, false) == NaN
  {
  }

  /** x is a value that the change by p % turns into the final value. */
  predicate Recovers(x: real, p: real, isAugmentation: bool, valeurFinale: real)
  {
    x * Multiplier(p, isAugmentation) == valeurFinale
  }

  /**
   * solveRetrouver with the division guarded, as solveTrouver guards its own:
   * multiplier 0 is an error, since no value (final ≠ 0) or every value
   * (final = 0) becomes the final one.
   */
  function SolveRetrouver(valeurFinale: real, pourcentage: real, isAugmentation: bool): (r: Result<real>)
    ensures r.Err? <==> Multiplier(pourcentage, isAugmentation) == 0.0
    ensures r.Ok? ==> forall x :: Recovers(x, pourcentage, isAugmentation, valeurFinale) <==> x == r.value
  {
    var coef := Multiplier(pourcentage, isAugmentation);
    if coef == 0.0 then Err("a 100 % decrease cannot be undone")
    else
      var x0 := valeurFinale / coef;
      assert forall x :: Recovers(x, pourcentage, isAugmentation, valeurFinale) <==> x == x0 by {
        forall x
          ensures Recovers(x, pourcentage, isAugmentation, valeurFinale) <==> x == x0
        {
          RecoversIff(x, pourcentage, isAugmentation, valeurFinale);
        }
      }
      Ok(x0)
  }

  lemma RecoversIff(x: real, p: real, isAugmentation: bool, valeurFinale: real)
    requires Multiplier(p, isAugmentation) != 0.0
    ensures Recovers(x, p, isAugmentation, valeurFinale) <==> x == valeurFinale / Multiplier(p, isAugmentation)
  {
    var c := Multiplier(p, isAugmentation);
    var y := valeurFinale / c;
    assert y * c == valeurFinale;
    if x * c == valeurFinale {
      CancelNonzeroReal(x, y, c);
    }
  }

  lemma CancelNonzeroReal(x: real, y: real, c: real)
    requires c != 0.0 && x * c == y * c
    ensures x == y
  {
  }

  /** Where the unguarded page shows a number, it is the guarded answer. */
  lemma RetrouverAgrees(valeurFinale: real, pourcentage: real, isAugmentation: bool)
    ensures SolveRetrouverAsWritten(valeurFinale, pourcentage, isAugmentation).Finite?
            <==> SolveRetrouver(valeurFinale, pourcentage, isAugmentation).Ok?
    ensures SolveRetrouver(valeurFinale, pourcentage, isAugmentation).Ok? ==>
              SolveRetrouverAsWritten(valeurFinale, pourcentage, isAugmentation).value
              == SolveRetrouver(valeurFinale, pourcentage, isAugmentation).value
  {
  }

  /** Recovering undoes the change: from v changed by p % the page finds v again, unless the multiplier is 0. */
  lemma RetrouverUndoesChange(v: real, p: real, isAugmentation: bool)
    requires Multiplier(p, isAugmentation) != 0.0
    ensures var changed := if isAugmentation then SolveAugmentation(v, p) else SolveReduction(v, p);
            SolveRetrouver(changed, p, isAugmentation) == Ok(v)
  {
    var changed := if isAugmentation then SolveAugmentation(v, p) else SolveReduction(v, p);
    assert Recovers(v, p, isAugmentation, changed);
  }

  // ---------------------------------------------------------------- generators

  /**
   * generatePourcentage 'trouver': total = 10k with k in [2, 20] and
   * partie = 5j with j in [1, total/5]. The part is a multiple of 5 between 5
   * and the total, and the answer is a percentage in (0, 100].
   */
  lemma GeneratedTrouver(k: int, j: int)
    requires 2 <= k <= 20 && 1 <= j <= (10 * k) / 5
    ensures var partie, total := 5 * j, 10 * k;
            partie % 5 == 0 && 5 <= partie <= total
    ensures var r := SolveTrouver((5 * j) as real, (10 * k) as real);
            r.Ok? && 0.0 < r.value <= 100.0
  {
    var partie, total := (5 * j) as real, (10 * k) as real;
    var r := SolveTrouver(partie, total).value;
    assert r == partie / total * 100.0;
    assert partie / total <= 1.0 by {
      assert partie <= total;
      DivideAtMostOne(partie, total);
    }
  }

  lemma DivideAtMostOne(x: real, y: real)
    requires 0.0 < x <= y
    ensures 0.0 < x / y <= 1.0
  {
    assert (x / y) * y == x;
  }

  /**
   * generatePourcentage 'retrouver': initiale = 10k with k in [5, 30], p one
   * of 10, 20, 25, 50, and the final value computed from it. Solving gives
   * back the planted initial value, on the page as written too.
   */
  lemma GeneratedRetrouver(k: int, p: real, isAugmentation: bool)
    requires 5 <= k <= 30 && p in {10.0, 20.0, 25.0, 50.0}
    ensures var initiale := (10 * k) as real;
            var finale := initiale * Multiplier(p, isAugmentation);
            SolveRetrouver(finale, p, isAugmentation) == Ok(initiale)
            && SolveRetrouverAsWritten(finale, p, isAugmentation) == Finite(initiale)
  {
    var initiale := (10 * k) as real;
    var coef := Multiplier(p, isAugmentation);
    assert coef >= 0.5;
    var finale := initiale * coef;
    assert SolveRetrouver(finale, p, isAugmentation).Ok?;
    assert initiale * coef == finale;
  }
}
