# Website_Math algebra core, modelled in Dafny

Website_Math is a set of French algebra-exercise pages for secondary school.
Each page has a generator and a solver:

- The generator draws a random exercise: fractions, square roots, linear
  equations and inequations, quadratics, 2×2 systems, expansion, factoring,
  collecting like terms, powers, or percentages.
- The solver prints the worked solution as HTML.

This project models the exact arithmetic behind those pages. The HTML is left
out. One Dafny module stands for each JavaScript file:

| module | file | what it holds |
|---|---|---|
| `Utils` | `utils.dfy` | `gcd` as a loop proved against Euclid's function, `isSquare`, `formatFraction`, the `randCoef` rejection loop, the in-place Fisher–Yates `shuffleArray`, `formatTerm` |
| `Fractions` | `fractions.dfy` | `lcm`, the four operations over a common denominator or the reciprocal, `simplifyStep`, `solveSimplification`, the exercise generator |
| `Radicals` | `radicals.dfy` | the `simplifySquareRoot` loop over the squares 100, 81, …, 4; same-radicand sums; the product rule; conjugate rationalisation with gcd reduction |
| `LinearEquations` | `linear.dfy` | `solveType1`/`solveType2` and the generator's resampling loop |
| `LinearInequations` | `linear_ineq.dfy` | `SIGN_OPPOSITE`, `evalInequation`, both solvers, interval selection, the generator loop |
| `Quadratics` | `quadratic.dfy` | the discriminant, the roots, the canonical form, the particular cases, sum and product (Vieta) |
| `QuadraticInequations` | `quadratic_ineq.dfy` | ordered roots, the sign table, the solution-set decision table |
| `Systems` | `systems.dfy` | the generator that plants a solution, the determinant guard, substitution, elimination |
| `Expansion` | `expansion.dfy` | the five expansion identities as coefficient triples |
| `Factoring` | `factoring.dfy` | common factor, difference of squares, perfect square, and the recognisers of the factoring test suite |
| `Reduction` | `reduction.dfy` | the generator's push loop and patch, and grouping and summing by degree class (imperative, over `seq` and `map`) |
| `Powers` | `powers.dfy` | the exponent rules of the generators, power of a product, and the single-shift scientific-notation normalisation |
| `Percentages` | `percentages.dfy` | percentage-of, ratio to percentage, increase and decrease, recovering the initial value |

Conventions of the model:

- Integer code stays on `int`. Divisions the page does in floating point are exact `real` divisions.
- `Math.sqrt(v)` is a parameter `s` with `s >= 0` and `s*s == v`.
- Every random draw is a parameter. A generator's guarantee is then a lemma over every draw in its range.
- A do-while or while resampling loop is a method over a finite sequence of draws. It is proved against a function that picks the first accepted draw, and it answers `None` when the draws run out.
- A division by zero or a crash of the page is an explicit `None`, `Err` or JavaScript-number value.

The repository's design description differs from the code in three places. The model follows the code in each:

- The description asks for a fully square-free radicand. `simplifySquareRoot` only divides by the listed squares up to 100. This is a finding below.
- The description leaves the order of two roots open. `js/equations2.js` gives the `+√Δ` root as x1, and `js/inequations2.js` gives the smaller root as x1. Both are modelled, and `Quadratics.RootOrder` relates them.
- The description asks scientific notation to shift until the coefficient is in [1, 10). The code shifts once. `Powers.GeneratedScientificNormalised` proves that one shift is enough for every generated exercise.

## Model

| member | source | states |
|---|---|---|
| Utils.EuclidGcd | js/utils.js:16-18 | Euclid's remainder recursion; EuclidCommonDivisors proves every step keeps the common divisors, and EuclidGcdScale that the result scales with its arguments |
| Utils.Gcd | js/utils.js:11-20 | gcd as the page defines it (absolute values, the two zero guards, then Euclid); ComputeGcd's loop is proved equal to it, and GcdCommonDivisors, GcdZero and GcdSymmetric prove it the greatest common divisor, 0 only at (0, 0), and blind to order and signs |
| Utils.ComputeGcd | js/utils.js:11-20 | the loop over absolute values with the two zero guards returns exactly gcd(a, b) |
| Utils.GcdCommonDivisors | js/utils.js:11-20 | the common divisors of a and b are exactly the divisors of gcd(a, b), so gcd divides both and is the greatest |
| Utils.EuclidCommonDivisors | js/utils.js:16-18 | each step `[a, b] = [b, a % b]` keeps the set of common divisors |
| Utils.GcdDividesBoth | js/utils.js:11-20 | gcd(a, b) divides a and b |
| Utils.GcdZero | js/utils.js:12-15 | gcd(a, b) = 0 exactly when a = b = 0 |
| Utils.GcdSymmetric | js/utils.js:12-13 | gcd ignores the order and the signs of its arguments |
| Utils.GcdQuotientsCoprime | js/utils.js:11-20 | a/g and b/g are exact and coprime when g = gcd(a, b) > 0 |
| Utils.GcdScale | js/utils.js:11-20 | gcd(p·c, q·c) = c·gcd(p, q) for c > 0 |
| Utils.EuclidGcdScale | js/utils.js:16-18 | scaling both arguments scales the result of the remainder loop |
| Utils.ReducedFormUnique | js/utils.js:85-100 | two reduced fractions with positive denominators and equal value are the same pair |
| Utils.Isqrt | js/utils.js:119-123 | the integer square root r satisfies r² ≤ n < (r+1)² |
| Utils.IsSquareIff | js/utils.js:119-123 | isSquare(n) holds exactly when n = k² for some integer k, so never for n < 0 |
| Utils.IsqrtOfSquare | js/utils.js:120-122 | the square root of m² is m |
| Utils.ReduceBySignedGcd | js/utils.js:89-96 | dividing by gcd and moving the sign leaves a positive denominator, gcd 1 and the same value |
| Utils.FormatFraction | js/utils.js:85-100 | what formatFraction prints; FormatFractionReduced, FormatFractionZeroDenominator and FormatFractionCanonical prove it reduced with a positive denominator and the input's value, ±1/0 or NaN for a zero denominator, and the same text for equal values |
| Utils.FormatFractionReduced | js/utils.js:85-100 | with a nonzero denominator, the printed fraction is reduced with a positive denominator and has the input's value; 0 as denominator gives ±1/0, or NaN for 0/0 |
| Utils.FormatFractionZeroDenominator | js/utils.js:89-92 | a zero denominator prints ±1/0 for a nonzero numerator and NaN for 0/0 |
| Utils.FormatFractionGeneral | js/utils.js:89-99 | past the ±1 shortcuts, the printed fraction is reduced and equal in value |
| Utils.DisplaysPair | js/utils.js:94-99 | a reduced display stands for a pair with positive denominator, gcd 1 and the same value |
| Utils.FormatFractionCanonical | js/utils.js:85-100 | two fractions of the same value print identically |
| Utils.RandCoef | js/utils.js:40-49 | the loop returns the first accepted draw; with avoidZero it is never 0, and it lies in [min, max] or, with allowNegative, is the negation of such a value; it returns None exactly when no draw is accepted |
| Utils.Swap | js/utils.js:132 | exchanging two positions keeps the length |
| Utils.SwapPermutes | js/utils.js:132 | exchanging two positions keeps the multiset |
| Utils.AfterSwaps | js/utils.js:130-133 | the array after the swaps down to position i has the input's length |
| Utils.AfterSwapsPermutation | js/utils.js:130-133 | every intermediate array of the loop is a permutation of the input |
| Utils.Shuffle | js/utils.js:129-134 | the result the Fisher–Yates loop specifies; ShufflePermutes proves it a permutation of the input, and ShuffleArray's in-place loop is proved to produce it |
| Utils.ShufflePermutes | js/utils.js:129-134 | the shuffle has the same length and multiset as its input |
| Utils.SwapInPlace | js/utils.js:132 | the destructuring swap exchanges a[i] and a[j] and nothing else |
| Utils.ShuffleArray | js/utils.js:129-134 | the in-place loop leaves the array equal to the specified shuffle and a permutation of its old contents |
| Utils.FormatTerm | js/utils.js:58-67 | the printed sign, digits and variable; FormatTermReadsBack proves they read back as the coefficient, with the '0', '' and separator cases |
| Utils.FormatTermReadsBack | js/utils.js:58-67 | a printed term reads back as its coefficient; a zero term prints '0' first and '' later; a separator is printed exactly when the term is not first; the digit is dropped exactly for ±1 in front of a variable |
| Fractions.Lcm | js/fractions.js:160-162 | lcm(a, b) is positive, a multiple of a and b, and lcm·gcd = \|a·b\| |
| Fractions.LcmExact | js/fractions.js:161 | \|a·b\| / gcd(a, b) is an exact positive division |
| Fractions.Rescale | js/fractions.js:198-209 | both numerators rescaled onto ppcm keep their fractions' values, and ppcm > 0 |
| Fractions.SimplifyStep | js/fractions.js:384-417 | the simplification step; SimplifyStepReduced and SimplifyStepCanonical prove it keeps the value, ends in lowest terms with a positive denominator, and sends equal values to the same pair |
| Fractions.SimplifyStepReduced | js/fractions.js:384-417 | for den ≠ 0 the step gives the same value with a positive denominator in lowest terms; a zero denominator stays 0 |
| Fractions.SimplifyStepCanonical | js/fractions.js:384-417 | fractions of equal value simplify to the same pair |
| Fractions.CommonDenominatorValue | js/fractions.js:175-227 | before simplification the sum and the difference over the common denominator equal num1/den1 ± num2/den2, on both paths |
| Fractions.SolveAddition | js/fractions.js:175-227 | the sum shown; AddSubtractCorrect proves it is exactly num1/den1 + num2/den2 in lowest terms with a positive denominator, and Commutative that operand order does not matter |
| Fractions.SolveSubtraction | js/fractions.js:232-279 | the difference shown; AddSubtractCorrect proves it is exactly num1/den1 − num2/den2 in lowest terms with a positive denominator |
| Fractions.AddSubtractCorrect | js/fractions.js:232-279 | addition and subtraction end in lowest terms with a positive denominator and the exact sum or difference |
| Fractions.SameDenominatorShortcut | js/fractions.js:185-194 | the equal-denominator shortcut prints exactly what the lcm path would (also js/fractions.js:241-249) |
| Fractions.Commutative | js/fractions.js:175-308 | addition and multiplication do not depend on the order of the operands |
| Fractions.SolveMultiplication | js/fractions.js:284-308 | the product shown; MultiplicationCorrect proves it is exactly num1·num2 / den1·den2 in lowest terms, and Commutative that operand order does not matter |
| Fractions.MultiplicationCorrect | js/fractions.js:284-308 | the product is num1·num2 / den1·den2 in lowest terms, and a fraction times its reciprocal is 1/1 |
| Fractions.SolveDivision | js/fractions.js:313-342 | the quotient shown; DivisionCorrect proves that times num2/den2 it gives back num1/den1, and that num2 = 0 leaves denominator 0 |
| Fractions.DivisionCorrect | js/fractions.js:313-342 | with num2 ≠ 0 the quotient times num2/den2 gives back num1/den1; with num2 = 0 the denominator den1·num2 is 0 |
| Fractions.SolveSimplification | js/fractions.js:347-379 | the simplified fraction; SolveSimplificationReduced and SolveSimplificationCorrect prove it in lowest terms and equal in value, untouched when already irreducible, and simplifyStep's result up to the sign |
| Fractions.SolveSimplificationReduced | js/fractions.js:347-379 | the simplified fraction is in lowest terms, equal in value, and keeps the sign of the denominator |
| Fractions.SolveSimplificationCorrect | js/fractions.js:355-361 | an irreducible fraction is left untouched, and the result agrees with simplifyStep up to moving the sign |
| Fractions.GenerateSimplification | js/fractions.js:89-94 | the drawn num = k1·factor and den = k2·factor; GeneratedSimplificationReducible proves their gcd is at least 2 |
| Fractions.GeneratedSimplificationReducible | js/fractions.js:89-91 | every generated simplification exercise has gcd ≥ 2 |
| Fractions.SubtractionGeneratorWhenFloorPositive | js/fractions.js:103-111 | where floor(num1·den2/den1) ≥ 1, the lowered num2 keeps the difference nonnegative |
| Fractions.SubtractionGeneratorNegative | js/fractions.js:103-111 | the fallback num2 = 1 generates 1/10 − 1/2, a negative difference |
| Fractions.GenerateSubtraction | js/fractions.js:103-111 | the corrected generator keeps the drawn pair, or exchanges the two fractions, and the difference is never negative |
| Radicals.StripSquare | js/racines.js:136-139 | the inner while loop leaves a radicand ≥ 1 |
| Radicals.StripSquareBounds | js/racines.js:136-139 | the inner loop keeps outside²·inside, never lowers outside, and ends when root² no longer divides inside |
| Radicals.ExtractFrom | js/racines.js:135-140 | the for loop over the squares from position i on; ExtractFromBounds, ExtractFromStrip and ExtractFromNext prove it keeps outside²·inside, strips a dividing square and skips a non-dividing one |
| Radicals.ExtractFromBounds | js/racines.js:135-140 | the for loop keeps outside²·inside and leaves no listed square dividing inside |
| Radicals.ExtractListed | js/racines.js:128-143 | simplifySquareRoot as a function; the SimplifySquareRoot loop is proved equal to it, and ExtractListedBounds, ExtractListedUnchanged and ExtractListedIdempotent prove outside²·inside = n, no listed square left in inside, and nothing more to extract on a second pass |
| Radicals.ExtractListedBounds | js/racines.js:128-143 | simplifySquareRoot(n) has outside ≥ 1 and outside²·inside = n, and no square of 4, 9, …, 100 divides inside |
| Radicals.SimplifySquareRoot | js/racines.js:128-143 | the nested loops compute exactly the specified extraction, with outside²·inside = n and no listed square dividing inside |
| Radicals.ExtractFromStrip | js/racines.js:136-139 | one pass of the inner loop moves root² from inside to outside |
| Radicals.ExtractFromNext | js/racines.js:135-136 | a square that does not divide inside is passed over |
| Radicals.ExtractFromSkip | js/racines.js:135-140 | a run of squares that do not divide inside is passed over |
| Radicals.StripOnce | js/racines.js:137-138 | dividing out one listed square leads to the same final result |
| Radicals.ExtractListedUnchanged | js/racines.js:128-143 | a radicand comes back as 1√n exactly when no listed square divides it |
| Radicals.ExtractListedIdempotent | js/racines.js:128-143 | simplifying the leftover radicand again changes nothing |
| Radicals.SimplifySeventyTwo | js/racines.js:128-143 | √72 = 6√2 |
| Radicals.SimplifyOneHundredTwentyOne | js/racines.js:133-140 | 121 = 11² is returned as 1√121, because the list stops at 100 |
| Radicals.GeneratedSimplificationReduces | js/racines.js:156-169 | every genSimplification radicand comes back with outside > 1 |
| Radicals.ListedSquareDivides | js/racines.js:133-140 | a radicand with a listed square factor comes back with outside > 1 |
| Radicals.SimplifySquareRootComplete | js/racines.js:128-143 | corrected extraction by k² for every k ≥ 2 while k² ≤ inside: outside²·inside = n and inside is square-free |
| Radicals.SameRadicandSum | js/racines.js:295 | a√r + b√r = (a + b)√r |
| Radicals.ProductRule | js/racines.js:316-320 | √a·√b is a square root of a·b |
| Radicals.SolveMultiplication | js/racines.js:307-346 | the product a·b simplified as the page does: exactly simplifySquareRoot(a·b) (ExtractListed), so outside²·inside = a·b, no listed square divides inside, and outside = 1 leaves a·b unchanged |
| Radicals.SolveMultiplicationReduced | js/racines.js:307-346 | the corrected product simplification: outside²·inside = a·b with a square-free inside |
| Radicals.ExtractedRootValue | js/racines.js:330-340 | outside·√inside is a square root of n |
| Radicals.Rationalisation | js/racines.js:348-374 | 1/√r = √r / r |
| Radicals.ConjugateProduct | js/racines.js:376-412 | the conjugate sign is the opposite one and an involution, and (√r ± k)(√r ∓ k) = r − k² |
| Radicals.GeneratedDenominatorNonzero | js/racines.js:208-221 | r − k² ≠ 0 for the generated radicands {2, 3, 5, 7} and constants 1..5 |
| Radicals.ConjugateRationalisation | js/racines.js:376-412 | 1/(√r ± k) = (√r ∓ k)/(r − k²) whenever r − k² ≠ 0 |
| Radicals.SolveFractionConjugate | js/racines.js:414-470 | the factor printed in front of the conjugate; FractionConjugateValue, ReducedConjugate and GeneratedFractionConjugate prove it equals numerator/(r − k²), also after the gcd reduction and for every generated exercise |
| Radicals.FractionConjugateValue | js/racines.js:447-467 | the printed factor equals numerator/(r − k²), including the folded ±1 denominators |
| Radicals.ReducedConjugate | js/racines.js:448-451 | with g = gcd(numerator, \|den\|) > 1, newNum·g = numerator, newDen·g = den, and newDen ≠ 0 |
| Radicals.GeneratedFractionConjugate | js/racines.js:223-238 | every generated fraction exercise gets the right factor |
| LinearEquations.SolveType1 | js/equations.js:99-152 | a = 0 gives no unique x, with infinitely many solutions iff b = c; a ≠ 0 gives an x with a·x + b = c |
| LinearEquations.SolveType1Exact | js/equations.js:108-127 | the announced set is exactly the solution set of a·x + b = c |
| LinearEquations.SolveType2 | js/equations.js:162-228 | a = c gives no unique x, with infinitely many iff b = d; otherwise a·x + b = c·x + d |
| LinearEquations.Type2IsType1 | js/equations.js:170-190 | moving c·x to the left turns type 2 into type 1 on (a − c, b, d), the page's newA = a − c and newC = d − b |
| LinearEquations.SolveType2Exact | js/equations.js:181-200 | the announced set is exactly the solution set of a·x + b = c·x + d |
| LinearEquations.GeneratedType1Unique | js/equations.js:57 | the generated type-1 equation always has a unique solution |
| LinearEquations.FirstExit | js/equations.js:61-65 | the kept value is the draw at the first index whose draw differs from a or whose escape fires, every earlier draw equalling a without an escape; None exactly when no index exits |
| LinearEquations.DrawSecondCoefficient | js/equations.js:61-65 | the do-while loop returns exactly FirstExit, the first draw that differs from a or escapes |
| LinearEquations.EqualCoefficientsNeedEscape | js/equations.js:63-65 | c = a only comes out of the loop through a draw equal to a whose escape fired; it follows from FirstExit's first-exit contract |
| LinearEquations.EqualCoefficientsReachable | js/equations.js:63-65 | that escape is reachable, and with a = c the type-2 exercise has no unique solution |
| LinearInequations.Opposite | js/inequations.js:16 | the opposite sign differs from the sign and keeps strictness |
| LinearInequations.OppositeInvolution | js/inequations.js:16 | SIGN_OPPOSITE is an involution |
| LinearInequations.HoldsOpposite | js/inequations.js:117-124 | reading a comparison from the other side turns it into its opposite |
| LinearInequations.SolveType1 | js/inequations.js:131-185 | a = 0 gives ℝ iff b ⋈ c holds, else ∅; otherwise a ray at (c − b)/a, whose sign is flipped exactly when a < 0 |
| LinearInequations.ScaleCompare | js/inequations.js:164-171 | multiplying by a positive factor keeps a comparison, and multiplying by a negative one flips it |
| LinearInequations.SolveType1Exact | js/inequations.js:131-185 | the announced set is exactly the solution set of a·x + b ⋈ c |
| LinearInequations.SolveType2 | js/inequations.js:192-254 | newA = a − c and newC = d − b; a = c compares b and d; the flip happens exactly when a < c |
| LinearInequations.Type2IsType1 | js/inequations.js:203-221 | type 2 is type 1 on (a − c, b, d) |
| LinearInequations.SolveType2Exact | js/inequations.js:192-254 | the announced set is exactly the solution set of a·x + b ⋈ c·x + d |
| LinearInequations.IntervalOf | js/inequations.js:262-289 | the interval is bounded by the value; it is closed iff the sign is wide, and unbounded to the left iff the sign is < or ≤ |
| LinearInequations.IntervalOfExact | js/inequations.js:270-283 | the printed interval holds exactly the x with x ⋈ value |
| LinearInequations.FirstDifferent | js/inequations.js:80-82 | the kept value is the draw at the first index that differs from a, every earlier draw equalling a; None exactly when every draw equals a |
| LinearInequations.DrawDifferentCoefficient | js/inequations.js:80-82 | the do-while loop returns exactly FirstDifferent, the first draw different from a |
| LinearInequations.GeneratedType2IsRay | js/inequations.js:80-82 | a generated type-2 inequation always has a ray as its answer |
| Quadratics.Discriminant | js/equations2.js:192 | Δ = b² − 4ac; SolveByDiscriminant's contract decides the number of roots by its sign, and SolveByDiscriminantExact proves the roots it announces are exactly the solutions |
| Quadratics.SolveByDiscriminant | js/equations2.js:191-216 | two roots iff Δ > 0, a double root iff Δ = 0, none iff Δ < 0 |
| Quadratics.SolveByDiscriminantExact | js/equations2.js:191-216 | the announced roots are exactly the real solutions of a·x² + b·x + c = 0 |
| Quadratics.RootOrder | js/equations2.js:195-196 | x1 − x2 = √Δ/a, so x1 is the larger root exactly when a > 0 |
| Quadratics.Vieta | js/equations2.js:514-515 | with Δ > 0, x1 + x2 = −b/a and x1·x2 = c/a |
| Quadratics.SumOfRoots | js/equations2.js:514 | the division-free form of x1 + x2 = −b/a |
| Quadratics.ProductOfRoots | js/equations2.js:515 | the division-free form of x1·x2 = c/a |
| Quadratics.ToCanonicalForm | js/equations2.js:225-230 | 2a·α = −b and Δ = −4a·β |
| Quadratics.CanonicalFormIdentity | js/equations2.js:225-230 | a(x − α)² + β = a·x² + b·x + c for every x |
| Quadratics.SolveCanonic | js/equations2.js:339-407 | the canonical-form route reports an error exactly when a = 0 |
| Quadratics.CanonicK | js/equations2.js:370-373 | k = −β/a equals Δ/4a², so it has the sign of Δ |
| Quadratics.SolveCanonicExact | js/equations2.js:339-407 | the canonical-form route announces exactly the real solutions |
| Quadratics.CanonicAgreesWithDiscriminant | js/equations2.js:339-407 | both routes announce the same set of roots |
| Quadratics.SolveDiscriminantSteps | js/equations2.js:257-334 | a = 0 is the degenerate-equation error; otherwise every announced root solves the equation |
| Quadratics.SumProduct | js/equations2.js:501-549 | a = 0 is an error; otherwise a·S = −b and a·P = c |
| Quadratics.SumProductOfRoots | js/equations2.js:514-515 | with two roots, S and P are their sum and product |
| Quadratics.SumProductOfDoubleRoot | js/equations2.js:540-541 | with a double root x0, S = 2·x0 and P = x0², as the page announces |
| Quadratics.SolveSquarePlusConstant | js/equations2.js:416-440 | the a·x² + c case; SolveSquarePlusConstantExact proves the announced roots are exactly the solutions of a·x² + c = 0 |
| Quadratics.SolveSquarePlusConstantExact | js/equations2.js:416-440 | the a·x² + c case announces exactly the solutions |
| Quadratics.SolveSquarePlusLinear | js/equations2.js:444-460 | with b taken from a's field, the roots are 0 and −1 |
| Quadratics.SolveSquarePlusLinearExact | js/equations2.js:444-460 | those are exactly the solutions of a·x² + a·x = 0 |
| Quadratics.SolveShiftedSquare | js/equations2.js:461-493 | the (x − a)² = k case; SolveShiftedSquareExact proves the announced roots are exactly the solutions, and GeneratedShiftedSquareHasTwoRoots that generated exercises have two |
| Quadratics.SolveShiftedSquareExact | js/equations2.js:461-493 | the (x − a)² = k case announces exactly the solutions |
| Quadratics.GeneratedShiftedSquareHasTwoRoots | js/equations2.js:168-170 | the generated k in [1, 25] always gives two distinct roots |
| Quadratics.GeneratedLeadingCoefficient | js/equations2.js:150-177 | every generator draws a ≥ 1 (the sum-and-product one fixes a = 1), so for every b, c and square root, solveDiscriminantSteps gives the discriminant roots and solveSommeProduitSteps and solveCanonicSteps never report the a = 0 error |
| QuadraticInequations.SolveEquation | js/inequations2.js:124-149 | two, one or no roots exactly as Δ > 0, = 0 or < 0 |
| QuadraticInequations.SolveEquationOrdered | js/inequations2.js:128-134 | x1 < x2, and the roots are the equation page's roots and exactly the solutions |
| QuadraticInequations.GetSignIntervals | js/inequations2.js:157-164 | without a root the trinomial is positive everywhere iff a > 0 and negative everywhere iff a < 0 |
| QuadraticInequations.SignWithoutTwoRoots | js/inequations2.js:157-184 | with Δ < 0, a·P(x) > 0 everywhere; with Δ = 0, a·P(x) ≥ 0 and vanishes only at −b/2a |
| QuadraticInequations.Factored | js/inequations2.js:185-197 | with two roots, P(x) = a(x − x1)(x − x2) |
| QuadraticInequations.SignWithTwoRoots | js/inequations2.js:185-197 | with two roots, a·P(x) > 0 outside [x1, x2] and < 0 strictly between |
| QuadraticInequations.GetSignIntervalsExact | js/inequations2.js:157-199 | the positive and negative parts of the sign table are exactly where P > 0 and P < 0 |
| QuadraticInequations.SolveInequation2 | js/inequations2.js:209-220 | a = 0 is an error |
| QuadraticInequations.SolveInequation2Exact | js/inequations2.js:204-402 | every printed solution set is exactly { x \| a·x² + b·x + c ⋈ 0 } |
| QuadraticInequations.StrictComplements | js/inequations2.js:317-391 | the '<' set is the complement of the '≥' set, and the '≤' set is the complement of the '>' set |
| QuadraticInequations.RootsBelongIffWide | js/inequations2.js:340-352 | a root belongs to the solution set exactly when the sign is wide (also js/inequations2.js:376-389) |
| Systems.Cramer | js/systemes.js:160-168 | with det ≠ 0 Cramer's pair solves both equations |
| Systems.CramerUnique | js/systemes.js:160-168 | with det ≠ 0 it is the only solution |
| Systems.SingularNotUnique | js/systemes.js:162-168 | with det = 0 a solution is never unique |
| Systems.AlongKernel | js/systemes.js:162-168 | with det = 0 the solutions extend along (b1, −a1) and (b2, −a2) |
| Systems.SolveBySubstitution | js/systemes.js:185-242 | whatever substitution shows solves both equations |
| Systems.SubstitutionPivot | js/systemes.js:195-229 | a1·newB = det, so with det ≠ 0 and a1 ≠ 0 substitution finishes with Cramer's pair |
| Systems.RealAbs | js/systemes.js:267 | the absolute value is nonnegative and is ±v |
| Systems.EliminatedValue | js/systemes.js:273-297 | the first unknown elimination finds is Cramer's x when y is eliminated, else Cramer's y (also js/systemes.js:325-349) |
| Systems.EliminateY | js/systemes.js:273-297 | eliminating y gives finalA = det and x = finalC/det |
| Systems.EliminateX | js/systemes.js:325-349 | eliminating x gives finalB = −det and y = finalC/finalB |
| Systems.SolveByCombinationAsWritten | js/systemes.js:247-376 | as written, the second unknown is missing exactly when b1 = 0 (y eliminated) or a1 = 0 (x eliminated); otherwise the pair solves the system |
| Systems.CombinationDividesByZeroB1 | js/systemes.js:312 | the uniquely solvable system x = 2, y = 3 divides by b1 = 0 |
| Systems.CombinationDividesByZeroA1 | js/systemes.js:364 | the uniquely solvable system y = 1, x + y = 2 divides by a1 = 0 |
| Systems.SolveByCombination | js/systemes.js:247-376 | corrected elimination: for det ≠ 0 the pair always solves the system |
| Systems.CombinationIsCramer | js/systemes.js:247-376 | the corrected elimination gives Cramer's pair and agrees with the page wherever the page finishes |
| Systems.SubstitutionAgreesWithCombination | js/systemes.js:185-376 | substitution and elimination give the same pair when det ≠ 0 and a1 ≠ 0 |
| Systems.SolveSystemAsWritten | js/systemes.js:155-180 | as the page runs it: "no unique solution" exactly when det = 0; a division by zero exactly when elimination back-substitutes into b1 = 0 or a1 = 0; a shown pair solves the system |
| Systems.SolveSystem | js/systemes.js:155-180 | solveSystem with the corrected elimination (see Findings, js/systemes.js:312): "no unique solution" exactly when det = 0, never a division by zero, and a shown pair solves the system |
| Systems.SolveSystemAgrees | js/systemes.js:155-180 | the corrected solveSystem shows what the page shows wherever the page does not divide by zero, in particular when a1 ≠ 0 and b1 ≠ 0; on x = 2, y = 3 the page divides by zero and the corrected one shows (2, 3) |
| Systems.SolveSystemUnique | js/systemes.js:155-180 | a shown pair is the one solution of the system |
| Systems.FirstNonProportional | js/systemes.js:131-138 | the kept pair is the draw at the first index with a1·b2 ≠ a2·b1, every earlier draw being proportional; None exactly when every draw is proportional |
| Systems.DrawNonProportional | js/systemes.js:131-138 | the do-while loop returns exactly FirstNonProportional, the first non-proportional draw |
| Systems.GenerateSystem | js/systemes.js:120-150 | the generated system has det ≠ 0, is solved by the planted (x, y), and takes (a2, b2) from the first non-proportional draw |
| Systems.GeneratedSolutionIsPlanted | js/systemes.js:122-140 | the planted pair is the one solution, and both its values are nonzero |
| Expansion.SolveSimple | js/developpement.js:130-167 | k(ax + b) = (k·a)x + k·b at every x |
| Expansion.SolveDouble | js/developpement.js:172-230 | (ax + b)(cx + d) = ac·x² + (ad + bc)x + bd at every x |
| Expansion.SolveSquareOfSum | js/developpement.js:235-264 | the triple equals (ax + b)² at every x |
| Expansion.SolveSquareOfDifference | js/developpement.js:269-298 | the triple equals (ax − b)² at every x |
| Expansion.SolveDifferenceOfSquares | js/developpement.js:303-330 | the triple has no x term and equals (ax + b)(ax − b) at every x |
| Expansion.SameValuesSamePoly | js/developpement.js:173-178 | two coefficient triples that agree at 0, 1 and −1 are equal |
| Expansion.IdentitiesAreDoubleProducts | js/developpement.js:237-307 | the three identities are solveDouble with the factors repeated or negated |
| Expansion.GeneratedSimpleNonzero | js/developpement.js:21-28 | every generated 'simple' expansion has nonzero coefficients |
| Expansion.GeneratedDoubleOuterNonzero | js/developpement.js:30-38 | every generated 'double' expansion has nonzero x² and constant coefficients |
| Expansion.GeneratedDoubleMiddleMayVanish | js/developpement.js:30-38 | (x + 1)(x − 1) can be generated, and its x coefficient is 0 |
| Expansion.GeneratedIdentitiesNonzero | js/developpement.js:40-48 | generated identity exercises have the signs the page shows: positive squares, −2ab, −b² |
| Factoring.SolveCommonFactor | js/factorisation.js:116-157 | pgcd > 0, pgcd·qa = a, pgcd·qb = b, and qa, qb are coprime; a = b = 0 (division by 0) is None |
| Factoring.CommonFactorIsGreatest | js/factorisation.js:117-120 | every common divisor of a and b divides the factor taken out |
| Factoring.CommonFactorExpandsBack | js/factorisation.js:116-157 | pgcd(qa·x + qb) = a·x + b |
| Factoring.GeneratedCommonFactorAtLeastTwo | js/factorisation.js:65-73 | a generated common-factor exercise always has a factor ≥ 2 |
| Factoring.SolveDifferenceOfSquaresFactoring | js/factorisation.js:165-201 | (ax − b)(ax + b) = a²x² − b² at every x |
| Factoring.SolvePerfectSquare | js/factorisation.js:210-261 | (ax ± b)² is the displayed trinomial a²x² ± 2ab·x + b² at every x |
| Factoring.FactoringUndoesExpansion | js/factorisation.js:165-261 | the factors expand back to the displayed polynomial with the expansion page's solveDouble |
| Factoring.Root | tests/factorisation.test.js:24-61 | the root of a perfect square squares back to it |
| Factoring.CheckDifferenceOfSquares | tests/factorisation.test.js:24-39 | accepted iff the constant is negative and both coefficients are squares, recovering a and b |
| Factoring.RecognisedDifferenceFactors | tests/factorisation.test.js:24-39 | whatever the recogniser accepts, the difference-of-squares factoring is right for it |
| Factoring.DifferenceRecogniserRoundTrip | tests/factorisation.test.js:24-39 | the recogniser accepts every a²x² − b² the page builds and recovers a and b |
| Factoring.CheckPerfectSquare | tests/factorisation.test.js:45-61 | accepted exactly when both outer coefficients are squares and coefX = ±2√a√c, recovering a, b and the sign |
| Factoring.PerfectSquareRecogniserRoundTrip | tests/factorisation.test.js:45-61 | the recogniser accepts every displayed perfect square and recovers a, b and the sign |
| Factoring.RecognisedPerfectSquareFactors | tests/factorisation.test.js:45-61 | whatever the recogniser accepts is the square of the factor solveCarreParfait shows |
| Reduction.Groups | js/reduction.js:165-170 | the groups dictionary; GroupsAreClasses proves its keys are exactly the classes that occur, each with its coefficients in order, and GroupTerms' loop is proved to build it |
| Reduction.GroupsAreClasses | js/reduction.js:165-170 | a class has a group exactly when some term has it, and the group lists that class's coefficients in order |
| Reduction.GroupTerms | js/reduction.js:165-170 | the forEach/push loop builds exactly that dictionary |
| Reduction.SumGroup | js/reduction.js:181 | the reduce loop returns the sum of the group (also js/reduction.js:203) |
| Reduction.SolveSimpleReduction | js/reduction.js:143-217 | the loop over x², x, const keeps exactly the classes with a nonzero sum |
| Reduction.ShownMatchesReduced | js/reduction.js:199-212 | a printed (class, sum) is exactly a nonzero reduced coefficient; nothing is printed, so '0' is shown, iff every class sums to 0 |
| Reduction.ShownOrdered | js/reduction.js:174 | printed classes come in the order x², x, const |
| Reduction.ShownSorted | js/reduction.js:199-210 | every prefix of the walk prints classes in strictly increasing rank |
| Reduction.Reduced | tests/reduction.test.js:10-18 | reduceTerms of the test suite; ReductionPreservesValue proves it has the value of the term list at every x, TotalPreserved that its coefficients sum to the total, and ShownMatchesReduced that the page prints exactly its nonzero coefficients |
| Reduction.ReductionPreservesValue | tests/reduction.test.js:10-18 | the reduced polynomial has the same value as the term list at every x |
| Reduction.TotalPreserved | tests/reduction.test.js:10-18 | the three reduced coefficients sum to the total of all coefficients |
| Reduction.ClassSumAppend | js/reduction.js:167-170 | one more term adds its coefficient to its own class only |
| Reduction.Drawn | js/reduction.js:33-56 | one term per draw, in order, with the drawn coefficient and class |
| Reduction.PushTerms | js/reduction.js:33-56 | the push loop builds exactly those terms |
| Reduction.GenerateWithX | js/reduction.js:26-91 | the 'avec-x' generator is the push loop followed by the patch |
| Reduction.PatchWithX | js/reduction.js:82-87 | the 'avec-x' patch; PatchedHasBothKinds and PatchKeepsCoefficients prove that with two or more terms it leaves an x term and a constant and keeps every coefficient, and PatchOneTermFails that one x term crashes on terms[1] |
| Reduction.PatchedHasBothKinds | js/reduction.js:82-87 | with at least two terms the patch succeeds, leaves an x term and a constant, and keeps every coefficient |
| Reduction.PatchKeepsCoefficients | js/reduction.js:85-86 | the patch only changes classes, never coefficients or order |
| Reduction.PatchOneTermFails | js/reduction.js:86 | a single x term cannot be patched: terms[1] does not exist |
| Reduction.GeneratedCoefficientsNonzero | js/reduction.js:36 | every generated 'avec-x' or 'avec-x2' term has a nonzero coefficient (also js/reduction.js:52) |
| Reduction.ParenthesesTerms | js/reduction.js:66-76 | the expanded terms of a(bx + c) + dx + e; ParenthesesReduction proves they reduce to (ab + d)x + (ac + e) with the same value |
| Reduction.ParenthesesReduction | js/reduction.js:66-76 | a(bx + c) + dx + e reduces to (ab + d)x + (ac + e), with the same value |
| Reduction.GeneratedParenthesesNonzero | js/reduction.js:60-64 | the four generated parentheses terms are nonzero |
| Powers.Pow | js/puissances.js:263 | Math.pow on a natural exponent; PowAdd, PowMul and PowProduct prove the three exponent rules the exercises teach |
| Powers.PowAdd | js/puissances.js:131 | a^m · a^n = a^(m+n) |
| Powers.PowMul | js/puissances.js:161 | (a^m)^n = a^(m·n) |
| Powers.PowProduct | js/puissances.js:364-409 | (ab)^n = a^n · b^n |
| Powers.GenProduct | js/puissances.js:120-133 | base^result = base^exp1 · base^exp2 |
| Powers.GenQuotient | js/puissances.js:135-148 | with exp2 ≤ exp1, base^result · base^exp2 = base^exp1; with the generator's exp2 ≤ exp1 − 1, the result exponent is at least 1 |
| Powers.GenPower | js/puissances.js:150-163 | base^result = (base^exp1)^exp2 |
| Powers.SolveProductPower | js/puissances.js:364-409 | base1^exp · base2^exp = (base1·base2)^exp |
| Powers.GenCombined | js/puissances.js:213-231 | with exp3 ≤ exp1 + exp2, base^result · base^exp3 = base^exp1 · base^exp2; with exp3 < exp1 + exp2, as the generator's ranges [2, 4] and [1, 3] give, the result exponent is at least 1 |
| Powers.Pow10 | js/puissances.js:411-496 | 10^e for every integer e; Value, Normalise and ScientificUnique rely on it to prove the shifts keep the number and the scientific form is unique |
| Powers.Value | js/puissances.js:411-496 | coef × 10^exp is 0 exactly when coef is 0 |
| Powers.Combine | js/puissances.js:425-426 | multiplication adds the exponents, division subtracts them, and the number is the product or quotient (also js/puissances.js:465-466) |
| Powers.Normalise | js/puissances.js:434-449 | one shift keeps coef × 10^exp, leaves a coefficient in [1, 10) alone, and moves the exponent by ±1 (also js/puissances.js:474-489) |
| Powers.SolveScientific | js/puissances.js:411-496 | the shown number is the product or quotient asked for; a zero divisor is None |
| Powers.GeneratedScientificNormalised | js/puissances.js:182-183 | for generated coefficients t/10 with t in [10, 99], one shift lands the coefficient in [1, 10) (js/puissances.js:434-452, 474-492) |
| Powers.ScientificUnique | js/puissances.js:434-492 | two scientific forms of the same number are equal |
| Powers.GeneratedScientificIsTheNotation | js/puissances.js:411-496 | for generated exercises the shown answer is the scientific notation of the product or quotient |
| Percentages.PercentOf | js/pourcentages.js:155-178 | 100 times the result is p·v |
| Percentages.PercentOfSymmetric | js/pourcentages.js:168 | X % of Y is Y % of X |
| Percentages.SolveTrouver | js/pourcentages.js:183-213 | a zero total is an error; otherwise the percentage taken of the total gives the part back |
| Percentages.Multiplier | js/pourcentages.js:314-316 | the coefficient 1 ± p/100 (also js/pourcentages.js:242 and 284); SolveAugmentation, SolveReduction and RecoversIff prove it scales the initial value to the final one and is undone exactly by dividing by it |
| Percentages.SolveAugmentation | js/pourcentages.js:218-256 | v + p % of v is v·(1 + p/100) |
| Percentages.SolveReduction | js/pourcentages.js:261-298 | v − p % of v is v·(1 − p/100) |
| Percentages.IncreaseThenDecrease | tests/pourcentages.test.js:249-263 | up then down by p scales by 1 − (p/100)², in either order, and gives v back only when p = 0 or v = 0 |
| Percentages.HundredUpAndDownTwenty | tests/pourcentages.test.js:249-263 | 100 + 20 % = 120 and 120 − 20 % = 96 |
| Percentages.JsDivide | js/pourcentages.js:330 | a nonzero divisor gives the exact quotient; 0 gives ±Infinity or NaN |
| Percentages.SolveRetrouverAsWritten | js/pourcentages.js:303-352 | the page shows a finite value exactly when the multiplier is nonzero, and then value × multiplier = final |
| Percentages.RetrouverHundredPercentDecrease | js/pourcentages.js:314-330 | after a 100 % decrease the page shows Infinity for 50 and NaN for 0 |
| Percentages.SolveRetrouver | js/pourcentages.js:314-340 | corrected: multiplier 0 is an error; otherwise the answer is the one value that the change turns into the final value |
| Percentages.RecoversIff | js/pourcentages.js:326-330 | x changes into the final value exactly when x = final / multiplier |
| Percentages.RetrouverAgrees | js/pourcentages.js:314-340 | the page shows a number exactly when the corrected solver succeeds, and it is the same number |
| Percentages.RetrouverUndoesChange | js/pourcentages.js:338-340 | recovering from v changed by p % gives v back |
| Percentages.GeneratedTrouver | js/pourcentages.js:94-95 | the generated part is a multiple of 5 between 5 and the total, and the answer lies in (0, 100] |
| Percentages.GeneratedRetrouver | js/pourcentages.js:107-116 | solving a generated exercise gives back the planted initial value, on the page as written too |

## Left out

- The user interface: `js/ui.js`, `js/navigation.js`, `js/main.js`, every `get*Values`, `update*Display`, `init*Page` and `change*Type` function, `parseFloat`/`parseInt` input reading, HTML and SVG building, and the number line. The model takes the numbers directly.
- Probabilities of `Math.random`: the 30 % negation in `randCoef`, the 15 % escape in the linear-equation generator, and the 50/50 and 60/35 choices. Draws are arbitrary values in their ranges.
- `randInt`, `formatNumber` and `formatCoefVar` (js/utils.js:28-30, 74-77, 108-112): a uniform draw and display rounding, with nothing exact to model.
- Floating-point rounding: `toFixed`, `formatNumber` and the precision of `Math.sqrt`. Arithmetic is exact `real`, and a square root is any `s >= 0` with `s*s` equal to its argument.
- Utils.RandCoef: the source loops forever when no draw is accepted (for instance `randCoef(0, 0, false, true)`). The model reads a finite sequence of draws and returns None when it runs out.
- LinearEquations.DrawSecondCoefficient, LinearInequations.DrawDifferentCoefficient, Systems.DrawNonProportional, Systems.GenerateSystem: the same finite-draws reading of an unbounded resampling loop.
- Radicals.SimplifySquareRoot: requires n ≥ 1, because with n = 0 the inner `while (0 % sq === 0)` never ends. Every caller passes a positive product.
- Systems.SolveBySubstitution: the page's tolerance `Math.abs(newB) > 0.0001` is modelled as newB ≠ 0.
- Percentages.JsDivide: signed zeros are not modelled, so −0 in the divisor counts as 0.
- Reduction.PatchWithX: the page's crash on a missing `terms[0]` or `terms[1]` is modelled as None. The range of `nbTerms` set by the page is not modelled.
- Factoring.SolveCommonFactor: a = b = 0, where the page divides by gcd 0 and prints NaN, is modelled as None.
- The duplicate `formatTerm` in js/systemes.js:35-67 shadows the one in js/utils.js and differs only in how it prints.
- The module-level `*State` objects only hold the page's current selection.
- The display-only solvers print values the model already computes: `solveProduct`, `solveQuotient`, `solvePower` and `solveCombined` in js/puissances.js, and `solveSimplification` in js/racines.js.

## Findings

| source | as written | input that shows it | evidently intended | confidence | as-written member | corrected member |
|---|---|---|---|---|---|---|
| js/fractions.js:103-111 | when the second fraction is larger, num2 becomes floor(num1·den2/den1), raised to 1 if that is 0 | num1 = 1, den1 = 10, den2 = 2 draws the exercise 1/10 − 1/2 = −2/5 | a subtraction exercise with a nonnegative result, as the comment on the branch says | not executed | Fractions.SubtractionGeneratorNegative | Fractions.GenerateSubtraction |
| js/racines.js:133-140 | the squares list stops at 100 | √11 × √11 (genMultiplication with a = b = 11) simplifies √121 to 1·√121 | a radicand with no square factor left, here 11 | not executed | Radicals.SimplifyOneHundredTwentyOne | Radicals.SimplifySquareRootComplete |
| js/systemes.js:312 | back-substitution divides by b1 without a guard (js/systemes.js:364 divides by a1 the same way) | x = 2, y = 3 (a1 = 1, b1 = 0, c1 = 2, a2 = 0, b2 = 1, c2 = 3): det = 1, y is eliminated, then y = 0/0 | back-substitution into an equation whose coefficient is nonzero, giving the unique solution | not executed | Systems.CombinationDividesByZeroB1 | Systems.CombinationIsCramer |
| js/pourcentages.js:314-330 | the final value is divided by the multiplier without a guard | final value 50 after a 100 % decrease: 50 / 0 shows Infinity | an error message like the zero-total guard of solveTrouver | not executed | Percentages.RetrouverHundredPercentDecrease | Percentages.SolveRetrouver |
