// Linear equations a·x + b = c and a·x + b = c·x + d (js/equations.js).
// Coefficients are exact reals; the HTML steps are left out, only the
// decision and the value the solver announces are kept.

module LinearEquations {
  import opened Utils

  /** What a solver announces: no solution, every real, or one value. */
  datatype Solutions = NoSolution | AllReals | Unique(x: real)

  /** Membership of x in the announced solution set. */
  predicate Contains(s: Solutions, x: real)
  {
    match s
    case NoSolution => false
    case AllReals => true
    case Unique(v) => x == v
  }

  /** solveType1: a = 0 is decided by comparing b and c, otherwise x = (c - b) / a. */
  function SolveType1(a: real, b: real, c: real): (r: Solutions)
    ensures a == 0.0 ==> !r.Unique? && (r.AllReals? <==> b == c)
    ensures a != 0.0 ==> r.Unique? && a * r.x + b == c
  {
    if a == 0.0 then
      if b == c then AllReals else NoSolution
    else
      Unique((c - b) / a)
  }

  /** The announced set is exactly the set of solutions of a·x + b = c. */
  lemma SolveType1Exact(a: real, b: real, c: real, x: real)
    ensures Contains(SolveType1(a, b, c), x) <==> a * x + b == c
  {
    if a != 0.0 {
      var v := (c - b) / a;
      assert a * v == c - b;
      if a * x + b == c {
        assert a * x == a * v;
        CancelReal(x, v, a);
      }
    }
  }

  /** Cancelling a nonzero real factor. */
  lemma CancelReal(x: real, y: real, a: real)
    requires a != 0.0 && a * x == a * y
    ensures x == y
  {
    assert a * (x - y) == 0.0;
  }

  /** solveType2: newA = a - c and newC = d - b, then the same decision as solveType1. */
  function SolveType2(a: real, b: real, c: real, d: real): (r: Solutions)
    ensures a == c ==> !r.Unique? && (r.AllReals? <==> b == d)
    ensures a != c ==> r.Unique? && a * r.x + b == c * r.x + d
  {
    var newA := a - c;
    if newA == 0.0 then
      if b == d then AllReals else NoSolution
    else
      var newC := d - b;
      Unique(newC / newA)
  }

  /** Moving c·x to the left turns solveType2 into solveType1 on (a - c, b, d). */
  lemma Type2IsType1(a: real, b: real, c: real, d: real)
    ensures SolveType2(a, b, c, d) == SolveType1(a - c, b, d)
  {
  }

  /** The announced set is exactly the set of solutions of a·x + b = c·x + d. */
  lemma SolveType2Exact(a: real, b: real, c: real, d: real, x: real)
    ensures Contains(SolveType2(a, b, c, d), x) <==> a * x + b == c * x + d
  {
    Type2IsType1(a, b, c, d);
    SolveType1Exact(a - c, b, d, x);
    assert a * x + b == c * x + d <==> (a - c) * x + b == d;
  }

  /** The type-1 generator draws a with randCoef(1, 10, true, true): always a unique solution. */
  lemma GeneratedType1Unique(a: int, b: int, c: int)
    requires CoefOutcome(a, 1, 10, true, true)
    ensures SolveType1(a as real, b as real, c as real).Unique?
  {
  }

  /**
   * The type-2 generator's do-while loop on c: draw i is kept when it
   * differs from a, or when the i-th escape (Math.random() <= 0.15) fires.
   * None means the draws ran out before the loop stopped.
   */
  function FirstExit(a: int, draws: seq<int>, escapes: seq<bool>): (r: Option<int>)
    requires |escapes| == |draws|
    ensures r.Some? ==> exists i :: 0 <= i < |draws| && r.value == draws[i] && (draws[i] != a || escapes[i])
                           && forall j :: 0 <= j < i ==> draws[j] == a && !escapes[j]
    ensures r.None? <==> forall i :: 0 <= i < |draws| ==> draws[i] == a && !escapes[i]
    decreases |draws|
  {
    if |draws| == 0 then None
    else if draws[0] != a || escapes[0] then Some(draws[0])
    else
      var r := FirstExit(a, draws[1..], escapes[1..]);
      assert r.Some? ==> exists i :: 0 < i < |draws| && r.value == draws[i] && (draws[i] != a || escapes[i])
                           && forall j :: 0 <= j < i ==> draws[j] == a && !escapes[j] by {
        if r.Some? {
          var k :| 0 <= k < |draws[1..]| && r.value == draws[1..][k] && (draws[1..][k] != a || escapes[1..][k])
                   && forall j :: 0 <= j < k ==> draws[1..][j] == a && !escapes[1..][j];
          assert forall j :: 0 < j < k + 1 ==> draws[j] == draws[1..][j - 1] && escapes[j] == escapes[1..][j - 1];
        }
      }
      r
  }

  /** The retry loop of generateEquation for type 2, proved against FirstExit. */
  method DrawSecondCoefficient(a: int, draws: seq<int>, escapes: seq<bool>) returns (c: Option<int>)
    requires |escapes| == |draws|
    ensures c == FirstExit(a, draws, escapes)
  {
    var i := 0;
    while i < |draws|
      invariant 0 <= i <= |draws|
      invariant FirstExit(a, draws[i..], escapes[i..]) == FirstExit(a, draws, escapes)
    {
      if draws[i] != a || escapes[i] {
        return Some(draws[i]);
      }
      assert draws[i..][1..] == draws[i + 1..];
      assert escapes[i..][1..] == escapes[i + 1..];
      i := i + 1;
    }
    c := None;
  }

  /**
   * The loop only keeps c = a through an escape, a consequence of FirstExit's
   * contract: the kept index has its draw equal to a, so its escape fired.
   */
  lemma EqualCoefficientsNeedEscape(a: int, draws: seq<int>, escapes: seq<bool>)
    requires |escapes| == |draws|
    requires FirstExit(a, draws, escapes) == Some(a)
    ensures exists i :: 0 <= i < |draws| && draws[i] == a && escapes[i]
  {
  }

  /** One draw equal to a with the escape taken leaves a = c, and the solver then reports no unique x. */
  lemma EqualCoefficientsReachable(b: real, d: real)
    ensures FirstExit(3, [3], [true]) == Some(3)
    ensures !SolveType2(3.0, b, 3.0, d).Unique?
  {
  }
}
