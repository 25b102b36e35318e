/**
 * Square roots page (js/racines.js): the extraction of square factors from
 * a radicand, the exercise generators' ranges, and the arithmetic of the
 * same-radicand sum, the product rule and rationalisation by the conjugate.
 * A square root is represented by any real s >= 0 with s*s equal to the
 * radicand.
 */
module Radicals {
  import opened Utils

  /** The square roots of the squares 100, 81, ..., 4 tried in turn (js/racines.js:133). */
  const Roots: seq<nat> := [10, 9, 8, 7, 6, 5, 4, 3, 2]

  function Sq(k: int): int
  {
    k * k
  }

  lemma ExactQuotientSmaller(x: nat, d: nat)
    requires x >= 1 && d >= 2 && x % d == 0
    ensures 1 <= x / d < x && d * (x / d) == x
  {
    DividesExact(d, x);
    var q := x / d;
    PositiveFactor(d, q);
    assert d * q == q + (d - 1) * q;
    MulPositive(d - 1, q);
  }

  lemma RootSquareAtLeastFour(i: nat)
    requires i < |Roots|
    ensures Roots[i] >= 2 && Sq(Roots[i]) >= 4
  {
  }

  // ---------------------------------------------------------------------
  // simplifySquareRoot (js/racines.js:128-143), as written
  // ---------------------------------------------------------------------

  /** The inner while loop for one square root*root. */
  function StripSquare(outside: nat, inside: nat, root: nat): (r: (nat, nat))
    requires inside >= 1 && root >= 2
    ensures r.1 >= 1
    decreases inside
  {
    if inside % Sq(root) == 0 then
      ExactQuotientSmaller(inside, Sq(root));
      StripSquare(outside * root, inside / Sq(root), root)
    else (outside, inside)
  }

  /** The for loop over the squares list from position i on. */
  function ExtractFrom(outside: nat, inside: nat, i: nat): (nat, nat)
    requires inside >= 1 && i <= |Roots|
    decreases |Roots| - i
  {
    if i == |Roots| then (outside, inside)
    else
      var p := StripSquare(outside, inside, Roots[i]);
      ExtractFrom(p.0, p.1, i + 1)
  }

  /** simplifySquareRoot(n) as a function: {outside, inside}. */
  function ExtractListed(n: nat): (nat, nat)
    requires n >= 1
  {
    ExtractFrom(1, n, 0)
  }

  lemma {:induction false} StripSquareBounds(outside: nat, inside: nat, root: nat)
    requires inside >= 1 && root >= 2
    ensures var p := StripSquare(outside, inside, root);
            p.1 >= 1 && p.0 >= outside && p.1 % Sq(root) != 0
            && p.0 * p.0 * p.1 == outside * outside * inside
            && Divides(p.1, inside)
    decreases inside
  {
    if inside % Sq(root) == 0 {
      ExactQuotientSmaller(inside, Sq(root));
      var q := inside / Sq(root);
      StripSquareBounds(outside * root, q, root);
      var p := StripSquare(outside * root, q, root);
      MoveSquareOut(outside, root, q, inside);
      DividesBy(q, inside, Sq(root));
      DividesTrans(p.1, q, inside);
    } else {
      DividesSelf(inside);
    }
  }

  /** Moving root² from the radicand to the coefficient: (o·root)²·q = o²·(root²·q), and o·root >= o. */
  lemma MoveSquareOut(o: nat, root: nat, q: nat, inside: nat)
    requires root >= 1 && Sq(root) * q == inside
    ensures (o * root) * (o * root) * q == o * o * inside
    ensures o * root >= o
  {
    assert (o * root) * (o * root) == (o * o) * (root * root);
    assert (o * o) * (root * root) * q == (o * o) * ((root * root) * q);
    assert o * root == o + o * (root - 1);
  }

  /** No square of the list divides m. */
  ghost predicate ListedSquareFree(m: int, upTo: nat)
    requires upTo <= |Roots|
  {
    forall j :: 0 <= j < upTo ==> m % Sq(Roots[j]) != 0
  }

  lemma NotDividedByFactor(m: int, f: int, d: int)
    requires d > 0 && f != 0 && m % d != 0 && Divides(f, m)
    ensures f % d != 0
  {
    if f % d == 0 {
      DividesExact(d, f);
      DividesTrans(d, f, m);
      DividesExact(d, m);
    }
  }

  lemma {:induction false} ExtractFromBounds(outside: nat, inside: nat, i: nat)
    requires inside >= 1 && i <= |Roots| && ListedSquareFree(inside, i)
    ensures var p := ExtractFrom(outside, inside, i);
            p.1 >= 1 && p.0 >= outside && ListedSquareFree(p.1, |Roots|)
            && p.0 * p.0 * p.1 == outside * outside * inside
    decreases |Roots| - i
  {
    if i < |Roots| {
      StripSquareBounds(outside, inside, Roots[i]);
      var p := StripSquare(outside, inside, Roots[i]);
      forall j | 0 <= j < i + 1
        ensures p.1 % Sq(Roots[j]) != 0
      {
        if j < i {
          NotDividedByFactor(inside, p.1, Sq(Roots[j]));
        }
      }
      ExtractFromBounds(p.0, p.1, i + 1);
    }
  }

  /**
   * The extraction keeps outside² · inside = n, and at the end no square of
   * the list 4, 9, ..., 100 divides inside.
   */
  lemma ExtractListedBounds(n: nat)
    requires n >= 1
    ensures var p := ExtractListed(n);
            p.0 >= 1 && p.1 >= 1 && p.0 * p.0 * p.1 == n && ListedSquareFree(p.1, |Roots|)
  {
    ExtractFromBounds(1, n, 0);
  }

  /** The loop of js/racines.js:129-142 for a radicand n >= 1 (n = 0 never leaves the loop). */
  method SimplifySquareRoot(n: nat) returns (outside: nat, inside: nat)
    requires n >= 1
    ensures (outside, inside) == ExtractListed(n)
    ensures outside >= 1 && inside >= 1 && outside * outside * inside == n
    ensures ListedSquareFree(inside, |Roots|)
  {
    outside, inside := 1, n;
    for i := 0 to |Roots|
      invariant inside >= 1
      invariant ExtractFrom(outside, inside, i) == ExtractListed(n)
    {
      var root := Roots[i];
      var sq := Sq(root);
      RootSquareAtLeastFour(i);
      while inside % sq == 0
        invariant inside >= 1
        invariant ExtractFrom(outside, inside, i) == ExtractListed(n)
        decreases inside
      {
        ExtractFromStrip(outside, inside, i);
        outside := outside * root;
        inside := inside / sq;
      }
      ExtractFromNext(outside, inside, i);
    }
    ExtractListedBounds(n);
  }

  /** One pass of the inner while loop: root² leaves the radicand, root joins the coefficient. */
  lemma ExtractFromStrip(outside: nat, inside: nat, i: nat)
    requires inside >= 1 && i < |Roots| && inside % Sq(Roots[i]) == 0
    ensures 1 <= inside / Sq(Roots[i]) < inside && outside * Roots[i] >= outside
    ensures ExtractFrom(outside, inside, i) == ExtractFrom(outside * Roots[i], inside / Sq(Roots[i]), i)
  {
    ExactQuotientSmaller(inside, Sq(Roots[i]));
    assert outside * Roots[i] == outside + outside * (Roots[i] - 1);
  }

  /** Leaving the inner loop: the next square of the list is tried. */
  lemma ExtractFromNext(outside: nat, inside: nat, i: nat)
    requires inside >= 1 && i < |Roots| && inside % Sq(Roots[i]) != 0
    ensures ExtractFrom(outside, inside, i) == ExtractFrom(outside, inside, i + 1)
  {
  }

  /** Squares of the list that do not divide the radicand are passed over. */
  lemma {:induction false} ExtractFromSkip(outside: nat, inside: nat, i: nat, k: nat)
    requires inside >= 1 && i <= k <= |Roots|
    requires forall j :: i <= j < k ==> inside % Sq(Roots[j]) != 0
    ensures ExtractFrom(outside, inside, i) == ExtractFrom(outside, inside, k)
    decreases k - i
  {
    if i < k {
      ExtractFromNext(outside, inside, i);
      ExtractFromSkip(outside, inside, i + 1, k);
    }
  }

  /** The i-th square divides the radicand exactly once more: it is taken out. */
  lemma StripOnce(outside: nat, inside: nat, i: nat, outside': nat, inside': nat)
    requires i < |Roots| && inside' >= 1 && inside == Sq(Roots[i]) * inside' && outside' == outside * Roots[i]
    ensures ExtractFrom(outside, inside, i) == ExtractFrom(outside', inside', i)
  {
    MulPositive(Sq(Roots[i]), inside');
    DividesBy(Sq(Roots[i]), inside, inside');
    DividesExact(Sq(Roots[i]), inside);
    DivModUnique(inside, Sq(Roots[i]), inside', 0);
    ExtractFromStrip(outside, inside, i);
  }

  /** The radicand comes back unchanged, with coefficient 1, exactly when no square of the list divides it. */
  lemma ExtractListedUnchanged(n: nat)
    requires n >= 1
    ensures ExtractListed(n) == (1, n) <==> ListedSquareFree(n, |Roots|)
  {
    ExtractListedBounds(n);
    if ListedSquareFree(n, |Roots|) {
      ExtractFromSkip(1, n, 0, |Roots|);
    }
  }

  /** Simplifying again changes nothing: the radicand left over comes back with coefficient 1. */
  lemma ExtractListedIdempotent(n: nat)
    requires n >= 1
    ensures ExtractListed(n).1 >= 1
    ensures ExtractListed(ExtractListed(n).1) == (1, ExtractListed(n).1)
  {
    ExtractListedBounds(n);
    ExtractListedUnchanged(ExtractListed(n).1);
  }

  /** 72 = 36·2: the squares 100, 81, 64, 49 do not divide 72, 36 does, and none of 25, 16, 9, 4 divides 2. */
  lemma SeventyTwoFactors()
    ensures forall j :: 0 <= j < 4 ==> 72 % Sq(Roots[j]) != 0
    ensures 72 == Sq(Roots[4]) * 2
    ensures forall j :: 4 <= j < |Roots| ==> 2 % Sq(Roots[j]) != 0
  {
  }

  /** Worked example: √72 = 6√2. */
  lemma SimplifySeventyTwo()
    ensures ExtractListed(72) == (6, 2)
  {
    SeventyTwoFactors();
    ExtractFromSkip(1, 72, 0, 4);
    StripOnce(1, 72, 4, 6, 2);
    ExtractFromSkip(6, 2, 4, |Roots|);
  }

  /**
   * As written the list stops at 100, so 121 = 11·11 is returned as 1√121;
   * genMultiplication reaches it with a = b = 11.
   */
  lemma SimplifyOneHundredTwentyOne()
    ensures ExtractListed(121) == (1, 121) && 121 == Sq(11)
  {
    ExtractFromSkip(1, 121, 0, |Roots|);
  }

  /** Every genSimplification radicand loses a square factor: outside > 1. */
  lemma GeneratedSimplificationReduces(square: nat, other: nat)
    requires square in {4, 9, 16, 25, 36, 49} && 2 <= other <= 8
    ensures ExtractListed(square * other).0 > 1
  {
    var j := if square == 4 then 8 else if square == 9 then 7 else if square == 16 then 6
             else if square == 25 then 5 else if square == 36 then 4 else 3;
    assert Sq(Roots[j]) == square;
    ListedSquareDivides(square * other, other, j);
  }

  /** A radicand with a listed square factor keeps outside > 1. */
  lemma ListedSquareDivides(n: nat, other: nat, j: nat)
    requires j < |Roots| && other >= 1 && n == Sq(Roots[j]) * other
    ensures n >= 1 && ExtractListed(n).0 > 1
  {
    MulPositive(Sq(Roots[j]), other);
    ExtractListedBounds(n);
    var p := ExtractListed(n);
    DividesBy(Sq(Roots[j]), n, other);
    DividesExact(Sq(Roots[j]), n);
    assert p.1 % Sq(Roots[j]) != 0;
    assert p.1 != n;
  }

  // ---------------------------------------------------------------------
  // Corrected extraction: every square factor, not only those in the list
  // ---------------------------------------------------------------------

  /** No square k*k with k >= 2 divides m. */
  ghost predicate SquareFree(m: int)
  {
    forall k :: 2 <= k ==> m % Sq(k) != 0
  }

  /**
   * Trial division by k*k for k = 2, 3, ... while k*k <= inside: the
   * remaining radicand is square-free.
   */
  method SimplifySquareRootComplete(n: nat) returns (outside: nat, inside: nat)
    requires n >= 1
    ensures outside >= 1 && inside >= 1 && outside * outside * inside == n
    ensures SquareFree(inside)
  {
    outside, inside := 1, n;
    var k: nat := 2;
    while Sq(k) <= inside
      invariant k >= 2 && inside >= 1 && outside >= 1
      invariant outside * outside * inside == n
      invariant forall j :: 2 <= j < k ==> inside % Sq(j) != 0
      decreases inside, inside - k
    {
      while inside % Sq(k) == 0
        invariant inside >= 1 && outside >= 1
        invariant outside * outside * inside == n
        invariant forall j :: 2 <= j < k ==> inside % Sq(j) != 0
        decreases inside
      {
        DivideOutSquare(outside, inside, k, n);
        outside, inside := outside * k, inside / Sq(k);
      }
      MulPositive(k, k);
      k := k + 1;
    }
    SquareFreeWhenPastRoot(inside, k);
  }

  /** One pass of the inner loop of the complete extraction keeps its invariants. */
  lemma DivideOutSquare(outside: nat, inside: nat, k: nat, n: nat)
    requires k >= 2 && inside >= 1 && outside >= 1 && inside % Sq(k) == 0
    requires outside * outside * inside == n
    requires forall j :: 2 <= j < k ==> inside % Sq(j) != 0
    ensures 1 <= inside / Sq(k) < inside && outside * k >= 1
    ensures (outside * k) * (outside * k) * (inside / Sq(k)) == n
    ensures forall j :: 2 <= j < k ==> (inside / Sq(k)) % Sq(j) != 0
  {
    ExactQuotientSmaller(inside, Sq(k));
    var q := inside / Sq(k);
    DividesBy(q, inside, Sq(k));
    forall j | 2 <= j < k
      ensures q % Sq(j) != 0
    {
      NotDividedByFactor(inside, q, Sq(j));
    }
    MoveSquareOut(outside, k, q, inside);
  }

  /** Once k² exceeds the radicand and no smaller square divides it, no square divides it. */
  lemma SquareFreeWhenPastRoot(inside: nat, k: nat)
    requires k >= 2 && inside >= 1 && Sq(k) > inside
    requires forall j :: 2 <= j < k ==> inside % Sq(j) != 0
    ensures SquareFree(inside)
  {
    forall j | 2 <= j
      ensures inside % Sq(j) != 0
    {
      if j >= k {
        if j > k {
          SquareMonotone(k, j);
        }
        DivModUnique(inside, Sq(j), 0, inside);
      }
    }
  }

  // ---------------------------------------------------------------------
  // Solvers (js/racines.js:282-470)
  // ---------------------------------------------------------------------

  /** a√r + b√r = (a + b)√r for any square root s of r (js/racines.js:295). */
  lemma SameRadicandSum(coef1: int, coef2: int, radicand: nat, s: real)
    requires s >= 0.0 && s * s == radicand as real
    ensures coef1 as real * s + coef2 as real * s == (coef1 + coef2) as real * s
  {
  }

  /** √a · √b is a square root of a·b (js/racines.js:316-320). */
  lemma ProductRule(a: nat, b: nat, sa: real, sb: real)
    requires sa >= 0.0 && sb >= 0.0 && sa * sa == a as real && sb * sb == b as real
    ensures sa * sb >= 0.0 && (sa * sb) * (sa * sb) == (a * b) as real
  {
    assert (sa * sb) * (sa * sb) == (sa * sa) * (sb * sb);
  }

  /**
   * solveMultiplication (js/racines.js:307-346): √a × √b = √(a·b), then the
   * extraction; outside·√inside is a square root of a·b.
   */
  method SolveMultiplication(a: nat, b: nat) returns (outside: nat, inside: nat)
    requires a >= 1 && b >= 1
    ensures outside * outside * inside == a * b && inside >= 1
    ensures outside == 1 ==> inside == a * b
    ensures ListedSquareFree(inside, |Roots|)
    ensures (outside, inside) == ExtractListed(a * b)
  {
    var product := a * b;
    MulPositive(a, b);
    outside, inside := SimplifySquareRoot(product);
    OneOutside(outside, inside, product);
  }

  lemma OneOutside(outside: nat, inside: nat, n: nat)
    requires outside * outside * inside == n
    ensures outside == 1 ==> inside == n
  {
  }

  /** Corrected solveMultiplication: the product with every square factor taken out. */
  method SolveMultiplicationReduced(a: nat, b: nat) returns (outside: nat, inside: nat)
    requires a >= 1 && b >= 1
    ensures outside * outside * inside == a * b && inside >= 1
    ensures SquareFree(inside)
  {
    MulPositive(a, b);
    outside, inside := SimplifySquareRootComplete(a * b);
  }

  /** outside·s is a square root of n whenever s is one of inside and outside²·inside = n. */
  lemma ExtractedRootValue(outside: nat, inside: nat, n: nat, s: real)
    requires outside * outside * inside == n && s >= 0.0 && s * s == inside as real
    ensures outside as real * s >= 0.0 && (outside as real * s) * (outside as real * s) == n as real
  {
    assert (outside as real * s) * (outside as real * s) == (outside * outside) as real * (s * s);
    assert (outside * outside) as real * inside as real == (outside * outside * inside) as real;
  }

  /** 1/√r = √r/r (js/racines.js:348-374). */
  lemma Rationalisation(radicand: nat, s: real)
    requires radicand >= 1 && s >= 0.0 && s * s == radicand as real
    ensures s > 0.0 && 1.0 / s == s / radicand as real
  {
    assert s != 0.0;
    assert s > 0.0;
    assert (s / radicand as real) * s == 1.0;
  }

  datatype Sign = Plus | Minus

  /** The sign of the conjugate expression: '+' and '−' swap (js/racines.js:379, 417). */
  function ConjugateSign(sign: Sign): Sign
  {
    if sign == Plus then Minus else Plus
  }

  function SignValue(sign: Sign): int
  {
    if sign == Plus then 1 else -1
  }

  /** radicand − constant², the rationalised denominator (js/racines.js:402, 440). */
  function ConjugateDenominator(radicand: int, constant: int): int
  {
    radicand - constant * constant
  }

  /**
   * Taking the conjugate twice gives back the sign, the conjugate has the
   * opposite sign, and (√r ± k)(√r ∓ k) = r − k².
   */
  lemma ConjugateProduct(sign: Sign, radicand: nat, constant: int, s: real)
    requires s * s == radicand as real
    ensures ConjugateSign(ConjugateSign(sign)) == sign
    ensures SignValue(ConjugateSign(sign)) == -SignValue(sign)
    ensures (s + SignValue(sign) as real * constant as real) * (s + SignValue(ConjugateSign(sign)) as real * constant as real)
            == ConjugateDenominator(radicand, constant) as real
  {
    var k := constant as real;
    assert (s + k) * (s - k) == s * s - k * k;
    assert (constant * constant) as real == k * k;
  }

  /** For the generated radicands {2, 3, 5, 7} and constants 1..5, r − k² is never 0. */
  lemma GeneratedDenominatorNonzero(radicand: int, constant: int)
    requires radicand in {2, 3, 5, 7} && 1 <= constant <= 5
    ensures ConjugateDenominator(radicand, constant) != 0
  {
  }

  /** 1/(√r ± k) = (√r ∓ k)/(r − k²) whenever r − k² != 0. */
  lemma ConjugateRationalisation(sign: Sign, radicand: nat, constant: int, s: real)
    requires s >= 0.0 && s * s == radicand as real && ConjugateDenominator(radicand, constant) != 0
    ensures s + SignValue(sign) as real * constant as real != 0.0
    ensures 1.0 / (s + SignValue(sign) as real * constant as real)
            == (s + SignValue(ConjugateSign(sign)) as real * constant as real) / ConjugateDenominator(radicand, constant) as real
  {
    ConjugateProduct(sign, radicand, constant, s);
    var x := s + SignValue(sign) as real * constant as real;
    var y := s + SignValue(ConjugateSign(sign)) as real * constant as real;
    var d := ConjugateDenominator(radicand, constant) as real;
    assert x * y == d;
    assert x != 0.0;
    assert y / d == 1.0 / x by {
      assert (1.0 / x) * d == y;
    }
  }

  /** What solveFractionConjuguee prints in front of the conjugate (js/racines.js:447-467). */
  datatype ConjugateResult =
    | Multiple(coef: int)               // newDen = 1:  newNum(conjugate)
    | NegatedMultiple(coef: int)        // newDen = −1: −newNum(conjugate)
    | Over(num: int, den: int)          // num(conjugate)/den

  function SolveFractionConjugate(numerator: int, radicand: int, constant: int): ConjugateResult
  {
    var denominator := ConjugateDenominator(radicand, constant);
    var g := Gcd(numerator, Abs(denominator));
    if g > 1 then
      GcdZero(numerator, Abs(denominator));
      var newNum, newDen := numerator / g, denominator / g;
      if newDen == 1 then Multiple(newNum)
      else if newDen == -1 then NegatedMultiple(newNum)
      else Over(newNum, newDen)
    else Over(numerator, denominator)
  }

  /** The factor in front of the conjugate, as a fraction of the printed result. */
  function ResultFraction(r: ConjugateResult): (int, int)
  {
    match r
    case Multiple(c) => (c, 1)
    case NegatedMultiple(c) => (-c, 1)
    case Over(n, d) => (n, d)
  }

  /**
   * The printed factor equals numerator/(r − k²) whenever r − k² != 0: after
   * dividing by g = gcd(numerator, |den|), newNum·g = numerator and
   * newDen·g = den, and a denominator ±1 is folded into the sign.
   */
  lemma FractionConjugateValue(numerator: int, radicand: int, constant: int)
    requires ConjugateDenominator(radicand, constant) != 0
    ensures var f := ResultFraction(SolveFractionConjugate(numerator, radicand, constant));
            f.1 != 0 && f.0 * ConjugateDenominator(radicand, constant) == numerator * f.1
  {
    var denominator := ConjugateDenominator(radicand, constant);
    var g := Gcd(numerator, Abs(denominator));
    if g > 1 {
      ReducedConjugate(numerator, denominator, g);
    }
  }

  lemma ReducedConjugate(numerator: int, denominator: int, g: int)
    requires denominator != 0 && g == Gcd(numerator, Abs(denominator)) && g > 1
    ensures denominator / g != 0
    ensures g * (numerator / g) == numerator && g * (denominator / g) == denominator
    ensures (numerator / g) * denominator == numerator * (denominator / g)
  {
    GcdDividesBoth(numerator, Abs(denominator));
    DividesAbs(g, denominator);
    DividesExact(g, numerator);
    DividesExact(g, denominator);
    EqualRatio(numerator / g, denominator / g, g, numerator, denominator);
  }

  /** Generated exercises (numerator 2..8, radicand in {2, 3, 5, 7}, constant 1..4) satisfy it. */
  lemma GeneratedFractionConjugate(numerator: int, radicand: int, constant: int)
    requires 2 <= numerator <= 8 && radicand in {2, 3, 5, 7} && 1 <= constant <= 4
    ensures var f := ResultFraction(SolveFractionConjugate(numerator, radicand, constant));
            f.1 != 0 && f.0 * ConjugateDenominator(radicand, constant) == numerator * f.1
  {
    GeneratedDenominatorNonzero(radicand, constant);
    FractionConjugateValue(numerator, radicand, constant);
  }
}
