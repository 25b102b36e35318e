// 2×2 linear systems a1·x + b1·y = c1, a2·x + b2·y = c2 (js/systemes.js):
// the planted-solution generator, the determinant guard, substitution and
// elimination ("combinaison").

module Systems {
  import opened Utils

  datatype System = System(a1: real, b1: real, c1: real, a2: real, b2: real, c2: real)

  predicate Satisfies(sys: System, x: real, y: real)
  {
    sys.a1 * x + sys.b1 * y == sys.c1 && sys.a2 * x + sys.b2 * y == sys.c2
  }

  function Det(sys: System): real
  {
    sys.a1 * sys.b2 - sys.a2 * sys.b1
  }

  /** Cramer's rule, the reference every solver is compared with. */
  function Cramer(sys: System): (r: (real, real))
    requires Det(sys) != 0.0
    ensures Satisfies(sys, r.0, r.1)
  {
    var d := Det(sys);
    var x := CramerX(sys);
    var y := CramerY(sys);
    assert sys.a1 * x + sys.b1 * y == (sys.a1 * (sys.c1 * sys.b2 - sys.c2 * sys.b1) + sys.b1 * (sys.a1 * sys.c2 - sys.a2 * sys.c1)) / d;
    assert sys.a2 * x + sys.b2 * y == (sys.a2 * (sys.c1 * sys.b2 - sys.c2 * sys.b1) + sys.b2 * (sys.a1 * sys.c2 - sys.a2 * sys.c1)) / d;
    (x, y)
  }

  function CramerX(sys: System): real
    requires Det(sys) != 0.0
  {
    (sys.c1 * sys.b2 - sys.c2 * sys.b1) / Det(sys)
  }

  function CramerY(sys: System): real
    requires Det(sys) != 0.0
  {
    (sys.a1 * sys.c2 - sys.a2 * sys.c1) / Det(sys)
  }

  /** With det ≠ 0 the system has exactly one solution, Cramer's. */
  lemma CramerUnique(sys: System, x: real, y: real)
    requires Det(sys) != 0.0
    ensures Satisfies(sys, x, y) <==> (x, y) == Cramer(sys)
  {
    var (u, v) := Cramer(sys);
    if Satisfies(sys, x, y) {
      var dx, dy := x - u, y - v;
      assert sys.a1 * dx + sys.b1 * dy == 0.0;
      assert sys.a2 * dx + sys.b2 * dy == 0.0;
      assert Det(sys) * dx == sys.b2 * (sys.a1 * dx + sys.b1 * dy) - sys.b1 * (sys.a2 * dx + sys.b2 * dy);
      assert Det(sys) * dy == sys.a1 * (sys.a2 * dx + sys.b2 * dy) - sys.a2 * (sys.a1 * dx + sys.b1 * dy);
      NonzeroFactor(Det(sys), dx);
      NonzeroFactor(Det(sys), dy);
    }
  }

  lemma NonzeroFactor(d: real, e: real)
    requires d != 0.0 && d * e == 0.0
    ensures e == 0.0
  {
    assert e == (d * e) / d;
  }

  /** With det = 0 there is never exactly one solution: if (x, y) solves it, so does another point. */
  lemma SingularNotUnique(sys: System, x: real, y: real)
    requires Det(sys) == 0.0 && Satisfies(sys, x, y)
    ensures exists u: real, v: real :: (u, v) != (x, y) && Satisfies(sys, u, v)
  {
    // (b1, -a1) or (b2, -a2) is a nonzero direction along which both equations stay true
    if sys.a1 != 0.0 || sys.b1 != 0.0 {
      AlongKernel(sys, x, y, sys.b1, -sys.a1);
      assert (x + sys.b1, y + -sys.a1) != (x, y);
    } else if sys.a2 != 0.0 || sys.b2 != 0.0 {
      AlongKernel(sys, x, y, sys.b2, -sys.a2);
      assert (x + sys.b2, y + -sys.a2) != (x, y);
    } else {
      assert Satisfies(sys, x + 1.0, y);
    }
  }

  /** With det = 0 both equations stay true along (b1, -a1) and along (b2, -a2). */
  lemma AlongKernel(sys: System, x: real, y: real, du: real, dv: real)
    requires Det(sys) == 0.0 && Satisfies(sys, x, y)
    requires (du, dv) == (sys.b1, -sys.a1) || (du, dv) == (sys.b2, -sys.a2)
    ensures Satisfies(sys, x + du, y + dv)
  {
    assert sys.a1 * du + sys.b1 * dv == 0.0;
    assert sys.a2 * du + sys.b2 * dv == 0.0;
    Shift(sys.a1, sys.b1, x, y, du, dv);
    Shift(sys.a2, sys.b2, x, y, du, dv);
  }

  lemma Shift(a: real, b: real, x: real, y: real, du: real, dv: real)
    ensures a * (x + du) + b * (y + dv) == (a * x + b * y) + (a * du + b * dv)
  {
  }

  // ---------------------------------------------------------------- substitution

  /**
   * solveBySubstitution: x = c1/a1 - (b1/a1)·y from the first equation, put
   * into the second. It shows nothing when a1 = 0 or when the new y
   * coefficient vanishes (the page's 0.0001 tolerance is exact zero here).
   */
  function SolveBySubstitution(sys: System): (r: Option<(real, real)>)
    ensures r.Some? ==> Satisfies(sys, r.value.0, r.value.1)
  {
    if sys.a1 != 0.0 then
      var coefY := -sys.b1 / sys.a1;
      var constante := sys.c1 / sys.a1;
      var newB := sys.a2 * coefY + sys.b2;
      var newC := sys.c2 - sys.a2 * constante;
      if newB != 0.0 then
        var y := newC / newB;
        var x := constante + coefY * y;
        assert sys.a1 * x == sys.c1 - sys.b1 * y;
        assert newB * y == newC;
        assert sys.a2 * x + sys.b2 * y == sys.a2 * constante + newB * y;
        Some((x, y))
      else None
    else None
  }

  /** newB = det / a1, so with det ≠ 0 substitution finishes exactly when a1 ≠ 0, with Cramer's answer. */
  lemma SubstitutionPivot(sys: System)
    requires sys.a1 != 0.0
    ensures sys.a1 * (sys.a2 * (-sys.b1 / sys.a1) + sys.b2) == Det(sys)
    ensures Det(sys) != 0.0 ==> SolveBySubstitution(sys) == Some(Cramer(sys))
  {
    var coefY := -sys.b1 / sys.a1;
    assert sys.a1 * coefY == -sys.b1;
    assert sys.a1 * (sys.a2 * coefY + sys.b2) == sys.a2 * (sys.a1 * coefY) + sys.a1 * sys.b2;
    if Det(sys) != 0.0 {
      var newB := sys.a2 * coefY + sys.b2;
      assert newB != 0.0;
      var r := SolveBySubstitution(sys);
      CramerUnique(sys, r.value.0, r.value.1);
    }
  }

  // ---------------------------------------------------------------- elimination

  /** Eliminate y when |b1| + |b2| <= |a1| + |a2|, else eliminate x. */
  predicate EliminatesY(sys: System)
  {
    RealAbs(sys.b1) + RealAbs(sys.b2) <= RealAbs(sys.a1) + RealAbs(sys.a2)
  }

  function RealAbs(v: real): (r: real)
    ensures r >= 0.0 && (r == v || r == -v)
  {
    if v < 0.0 then -v else v
  }

  /**
   * The first unknown found by elimination: multiply by b2 and -b1 (or a2 and
   * -a1) and add, which leaves det·x = c1·b2 - c2·b1 (or -det·y = c1·a2 - c2·a1).
   */
  function EliminatedValue(sys: System): (r: real)
    requires Det(sys) != 0.0
    ensures EliminatesY(sys) ==> r == CramerX(sys)
    ensures !EliminatesY(sys) ==> r == CramerY(sys)
  {
    if EliminatesY(sys) then
      var finalA := sys.a1 * sys.b2 + sys.a2 * -sys.b1;
      var finalC := sys.c1 * sys.b2 + sys.c2 * -sys.b1;
      EliminateY(sys, finalA, finalC);
      finalC / finalA
    else
      var finalB := sys.b1 * sys.a2 + sys.b2 * -sys.a1;
      var finalC := sys.c1 * sys.a2 + sys.c2 * -sys.a1;
      EliminateX(sys, finalB, finalC);
      finalC / finalB
  }

  /** Multiplying by b2 and -b1 and adding leaves det·x = c1·b2 - c2·b1. */
  lemma EliminateY(sys: System, finalA: real, finalC: real)
    requires Det(sys) != 0.0
    requires finalA == sys.a1 * sys.b2 + sys.a2 * -sys.b1
    requires finalC == sys.c1 * sys.b2 + sys.c2 * -sys.b1
    ensures finalA == Det(sys) && finalC / finalA == CramerX(sys)
  {
  }

  /** Multiplying by a2 and -a1 and adding leaves -det·y = c1·a2 - c2·a1. */
  lemma EliminateX(sys: System, finalB: real, finalC: real)
    requires Det(sys) != 0.0
    requires finalB == sys.b1 * sys.a2 + sys.b2 * -sys.a1
    requires finalC == sys.c1 * sys.a2 + sys.c2 * -sys.a1
    ensures finalB == -Det(sys) && finalC / finalB == CramerY(sys)
  {
    var n := sys.a1 * sys.c2 - sys.a2 * sys.c1;
    assert finalC == -n;
    NegatedQuotient(n, Det(sys));
  }

  lemma NegatedQuotient(n: real, d: real)
    requires d != 0.0
    ensures (-n) / (-d) == n / d
  {
  }

  /**
   * solveByCombinaison AS WRITTEN: the second unknown comes from the first
   * equation, dividing by b1 (or a1) with no guard. None stands for the
   * division by zero (JavaScript would print Infinity or NaN).
   */
  function SolveByCombinationAsWritten(sys: System): (r: (real, Option<real>))
    requires Det(sys) != 0.0
    ensures r.1.Some? ==> (if EliminatesY(sys) then Satisfies(sys, r.0, r.1.value) else Satisfies(sys, r.1.value, r.0))
    ensures r.1.None? <==> (if EliminatesY(sys) then sys.b1 == 0.0 else sys.a1 == 0.0)
  {
    var first := EliminatedValue(sys);
    if EliminatesY(sys) then
      var x := first;
      if sys.b1 != 0.0 then
        var y := (sys.c1 - sys.a1 * x) / sys.b1;
        SecondFromFirstEquationY(sys, x, y);
        (x, Some(y))
      else (x, None)
    else
      var y := first;
      if sys.a1 != 0.0 then
        var x := (sys.c1 - sys.b1 * y) / sys.a1;
        SecondFromFirstEquationX(sys, x, y);
        (y, Some(x))
      else (y, None)
  }

  lemma SecondFromFirstEquationY(sys: System, x: real, y: real)
    requires Det(sys) != 0.0 && EliminatesY(sys) && sys.b1 != 0.0
    requires x == Cramer(sys).0 && y == (sys.c1 - sys.a1 * x) / sys.b1
    ensures Satisfies(sys, x, y)
  {
    var (u, v) := Cramer(sys);
    assert sys.b1 * v == sys.c1 - sys.a1 * x;
    assert sys.b1 * y == sys.c1 - sys.a1 * x;
    NonzeroFactor(sys.b1, y - v);
  }

  lemma SecondFromFirstEquationX(sys: System, x: real, y: real)
    requires Det(sys) != 0.0 && !EliminatesY(sys) && sys.a1 != 0.0
    requires y == Cramer(sys).1 && x == (sys.c1 - sys.b1 * y) / sys.a1
    ensures Satisfies(sys, x, y)
  {
    var (u, v) := Cramer(sys);
    assert sys.a1 * u == sys.c1 - sys.b1 * y;
    assert sys.a1 * x == sys.c1 - sys.b1 * y;
    NonzeroFactor(sys.a1, x - u);
  }

  /** x = 2, y = 3 with b1 = 0: det = 1, y is eliminated, and y is then divided by b1 = 0. */
  lemma CombinationDividesByZeroB1()
    ensures Det(System(1.0, 0.0, 2.0, 0.0, 1.0, 3.0)) == 1.0
    ensures Satisfies(System(1.0, 0.0, 2.0, 0.0, 1.0, 3.0), 2.0, 3.0)
    ensures SolveByCombinationAsWritten(System(1.0, 0.0, 2.0, 0.0, 1.0, 3.0)).1.None?
  {
  }

  /** x = 1, y = 1 with a1 = 0: det = -1, x is eliminated, and x is then divided by a1 = 0. */
  lemma CombinationDividesByZeroA1()
    ensures Det(System(0.0, 1.0, 1.0, 1.0, 1.0, 2.0)) == -1.0
    ensures Satisfies(System(0.0, 1.0, 1.0, 1.0, 1.0, 2.0), 1.0, 1.0)
    ensures SolveByCombinationAsWritten(System(0.0, 1.0, 1.0, 1.0, 1.0, 2.0)).1.None?
  {
  }

  /**
   * Elimination with the back-substitution into whichever equation has a
   * nonzero coefficient for the missing unknown; with det ≠ 0 one of them
   * always has one.
   */
  function SolveByCombination(sys: System): (r: (real, real))
    requires Det(sys) != 0.0
    ensures Satisfies(sys, r.0, r.1)
  {
    var first := EliminatedValue(sys);
    var (u, v) := Cramer(sys);
    if EliminatesY(sys) then
      var x := first;
      if sys.b1 != 0.0 then
        var y := (sys.c1 - sys.a1 * x) / sys.b1;
        SecondFromFirstEquationY(sys, x, y);
        (x, y)
      else
        assert sys.b2 != 0.0;
        var y := (sys.c2 - sys.a2 * x) / sys.b2;
        assert sys.b2 * v == sys.c2 - sys.a2 * x;
        assert sys.b2 * y == sys.c2 - sys.a2 * x;
        NonzeroFactor(sys.b2, y - v);
        (x, y)
    else
      var y := first;
      if sys.a1 != 0.0 then
        var x := (sys.c1 - sys.b1 * y) / sys.a1;
        SecondFromFirstEquationX(sys, x, y);
        (x, y)
      else
        assert sys.a2 != 0.0;
        var x := (sys.c2 - sys.b2 * y) / sys.a2;
        assert sys.a2 * u == sys.c2 - sys.b2 * y;
        assert sys.a2 * x == sys.c2 - sys.b2 * y;
        NonzeroFactor(sys.a2, x - u);
        (x, y)
  }

  /** The corrected elimination always lands on Cramer's solution and agrees with the page where it finishes. */
  lemma CombinationIsCramer(sys: System)
    requires Det(sys) != 0.0
    ensures SolveByCombination(sys) == Cramer(sys)
    ensures SolveByCombinationAsWritten(sys).1.Some? ==>
              (if EliminatesY(sys) then (SolveByCombinationAsWritten(sys).0, SolveByCombinationAsWritten(sys).1.value)
               else (SolveByCombinationAsWritten(sys).1.value, SolveByCombinationAsWritten(sys).0)) == Cramer(sys)
  {
    var r := SolveByCombination(sys);
    CramerUnique(sys, r.0, r.1);
    var w := SolveByCombinationAsWritten(sys);
    if w.1.Some? {
      if EliminatesY(sys) {
        CramerUnique(sys, w.0, w.1.value);
      } else {
        CramerUnique(sys, w.1.value, w.0);
      }
    }
  }

  /** Substitution and elimination give the same pair whenever both finish. */
  lemma SubstitutionAgreesWithCombination(sys: System)
    requires Det(sys) != 0.0 && sys.a1 != 0.0
    ensures SolveBySubstitution(sys) == Some(SolveByCombination(sys))
  {
    SubstitutionPivot(sys);
    CombinationIsCramer(sys);
  }

  // ---------------------------------------------------------------- solveSystem

  datatype Method = Substitution | Combination

  /**
   * What solveSystem shows: "no unique solution", an unfinished substitution,
   * a pair, or a value divided by zero (Infinity or NaN on the page).
   */
  datatype Shown = NotUnique | Unfinished | DividedByZero | Pair(x: real, y: real)

  /** solveSystem AS WRITTEN: det = 0 runs no solver, otherwise the unguarded elimination. */
  function SolveSystemAsWritten(sys: System, m: Method): (r: Shown)
    ensures r.NotUnique? <==> Det(sys) == 0.0
    ensures r.DividedByZero? <==>
              Det(sys) != 0.0 && m == Combination && (if EliminatesY(sys) then sys.b1 == 0.0 else sys.a1 == 0.0)
    ensures r.Pair? ==> Satisfies(sys, r.x, r.y)
  {
    var det := sys.a1 * sys.b2 - sys.a2 * sys.b1;
    if det == 0.0 then NotUnique
    else match m
      case Substitution =>
        (match SolveBySubstitution(sys)
         case Some((x, y)) => Pair(x, y)
         case None => Unfinished)
      case Combination =>
        var (first, second) := SolveByCombinationAsWritten(sys);
        if second.None? then DividedByZero
        else if EliminatesY(sys) then Pair(first, second.value)
        else Pair(second.value, first)
  }

  /** solveSystem with the corrected elimination: det = 0 runs no solver, and nothing is divided by zero. */
  function SolveSystem(sys: System, m: Method): (r: Shown)
    ensures r.NotUnique? <==> Det(sys) == 0.0
    ensures !r.DividedByZero?
    ensures r.Pair? ==> Satisfies(sys, r.x, r.y)
  {
    var det := sys.a1 * sys.b2 - sys.a2 * sys.b1;
    if det == 0.0 then NotUnique
    else match m
      case Substitution =>
        (match SolveBySubstitution(sys)
         case Some((x, y)) => Pair(x, y)
         case None => Unfinished)
      case Combination =>
        var (x, y) := SolveByCombination(sys);
        Pair(x, y)
  }

  /**
   * The corrected solveSystem shows what the page shows wherever the page
   * does not divide by zero, in particular whenever a1 ≠ 0 and b1 ≠ 0; the
   * system x = 2, y = 3 is where the two differ.
   */
  lemma {:induction false} SolveSystemAgrees(sys: System, m: Method)
    ensures !SolveSystemAsWritten(sys, m).DividedByZero? ==> SolveSystemAsWritten(sys, m) == SolveSystem(sys, m)
    ensures sys.a1 != 0.0 && sys.b1 != 0.0 ==> SolveSystemAsWritten(sys, m) == SolveSystem(sys, m)
    ensures SolveSystemAsWritten(System(1.0, 0.0, 2.0, 0.0, 1.0, 3.0), Combination) == DividedByZero
    ensures SolveSystem(System(1.0, 0.0, 2.0, 0.0, 1.0, 3.0), Combination) == Pair(2.0, 3.0)
  {
    if Det(sys) != 0.0 && m == Combination && !SolveSystemAsWritten(sys, m).DividedByZero? {
      CombinationIsCramer(sys);
    }
    CombinationIsCramer(System(1.0, 0.0, 2.0, 0.0, 1.0, 3.0));
  }

  /** Whatever solveSystem shows as a pair is the one solution of the system. */
  lemma SolveSystemUnique(sys: System, m: Method, x: real, y: real)
    requires SolveSystem(sys, m).Pair?
    ensures Satisfies(sys, x, y) <==> (x, y) == (SolveSystem(sys, m).x, SolveSystem(sys, m).y)
  {
    var r := SolveSystem(sys, m);
    CramerUnique(sys, x, y);
    CramerUnique(sys, r.x, r.y);
  }

  // ---------------------------------------------------------------- generator

  /** (a2, b2) is proportional to (a1, b1): a1·b2 = a2·b1, the loop's retry condition. */
  predicate Proportional(a1: int, b1: int, p: (int, int))
  {
    a1 * p.1 == p.0 * b1
  }

  /**
   * The resampling loop of generateSystem: the first (a2, b2) draw that is not
   * proportional to (a1, b1); None when the draws run out first.
   */
  function FirstNonProportional(a1: int, b1: int, draws: seq<(int, int)>): (r: Option<(int, int)>)
    ensures r.Some? ==> exists i :: 0 <= i < |draws| && r.value == draws[i] && !Proportional(a1, b1, draws[i])
                           && forall j :: 0 <= j < i ==> Proportional(a1, b1, draws[j])
    ensures r.None? <==> forall i :: 0 <= i < |draws| ==> Proportional(a1, b1, draws[i])
  {
    if |draws| == 0 then None
    else if !Proportional(a1, b1, draws[0]) then Some(draws[0])
    else
      var r := FirstNonProportional(a1, b1, draws[1..]);
      assert r.Some? ==> exists i :: 0 < i < |draws| && r.value == draws[i] && !Proportional(a1, b1, draws[i])
                           && forall j :: 0 <= j < i ==> Proportional(a1, b1, draws[j]) by {
        if r.Some? {
          var k :| 0 <= k < |draws[1..]| && r.value == draws[1..][k] && !Proportional(a1, b1, draws[1..][k])
                   && forall j :: 0 <= j < k ==> Proportional(a1, b1, draws[1..][j]);
          assert forall j :: 0 < j < k + 1 ==> draws[j] == draws[1..][j - 1];
        }
      }
      r
  }

  /** The do-while of generateSystem: draws (a2, b2) until a1·b2 ≠ a2·b1. */
  method DrawNonProportional(a1: int, b1: int, draws: seq<(int, int)>) returns (p: Option<(int, int)>)
    ensures p == FirstNonProportional(a1, b1, draws)
  {
    if |draws| == 0 {
      return None;
    }
    var (a2, b2) := draws[0];
    var i := 1;
    while a1 * b2 == a2 * b1
      invariant 1 <= i <= |draws|
      invariant (a2, b2) == draws[i - 1]
      invariant FirstNonProportional(a1, b1, draws[i - 1..]) == FirstNonProportional(a1, b1, draws)
      decreases |draws| - i
    {
      if i == |draws| {
        assert draws[i - 1..][1..] == [];
        return None;
      }
      assert draws[i - 1..][1..] == draws[i..];
      a2, b2 := draws[i].0, draws[i].1;
      i := i + 1;
    }
    p := Some((a2, b2));
  }

  /** generateSystem: plants (x, y), draws (a2, b2) not proportional to (a1, b1), and computes c1, c2. */
  method GenerateSystem(x: int, y: int, a1: int, b1: int, draws: seq<(int, int)>) returns (sys: Option<System>)
    ensures FirstNonProportional(a1, b1, draws).None? <==> sys.None?
    ensures sys.Some? ==> Det(sys.value) != 0.0 && Satisfies(sys.value, x as real, y as real)
    ensures sys.Some? ==> sys.value.a1 == a1 as real && sys.value.b1 == b1 as real
    ensures sys.Some? ==> sys.value.a2 == FirstNonProportional(a1, b1, draws).value.0 as real
                          && sys.value.b2 == FirstNonProportional(a1, b1, draws).value.1 as real
  {
    var p := DrawNonProportional(a1, b1, draws);
    if p.None? {
      return None;
    }
    var (a2, b2) := p.value;
    assert !Proportional(a1, b1, (a2, b2));
    var c1 := a1 * x + b1 * y;
    var c2 := a2 * x + b2 * y;
    sys := Some(System(a1 as real, b1 as real, c1 as real, a2 as real, b2 as real, c2 as real));
    assert (a1 * b2 - a2 * b1) as real == Det(sys.value);
  }

  /** A generated system's one solution is the planted pair (nonzero when drawn by randCoef with avoidZero). */
  lemma GeneratedSolutionIsPlanted(sys: System, x: int, y: int, u: real, v: real)
    requires Det(sys) != 0.0 && Satisfies(sys, x as real, y as real)
    requires CoefOutcome(x, -5, 5, false, true) && CoefOutcome(y, -5, 5, false, true)
    ensures Satisfies(sys, u, v) <==> (u == x as real && v == y as real)
    ensures Cramer(sys).0 != 0.0 && Cramer(sys).1 != 0.0
  {
    CramerUnique(sys, u, v);
    CramerUnique(sys, x as real, y as real);
  }
}
