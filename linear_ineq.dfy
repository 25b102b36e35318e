// Linear inequations a·x + b ⋈ c and a·x + b ⋈ c·x + d (js/inequations.js),
// with ⋈ one of <, >, <=, >=.

module LinearInequations {
  import opened Utils

  /** The four comparison signs of the exercise page. */
  datatype Op = Lt | Gt | Le | Ge

  predicate Strict(op: Op)
  {
    op == Lt || op == Gt
  }

  /** SIGN_OPPOSITE: the sign a comparison takes when both sides are multiplied by a negative. */
  function Opposite(op: Op): (r: Op)
    ensures Strict(r) <==> Strict(op)
    ensures r != op
  {
    match op
    case Lt => Gt
    case Gt => Lt
    case Le => Ge
    case Ge => Le
  }

  /** SIGN_OPPOSITE is an involution. */
  lemma OppositeInvolution(op: Op)
    ensures Opposite(Opposite(op)) == op
  {
  }

  /** evalInequation. */
  predicate Holds(left: real, op: Op, right: real)
  {
    match op
    case Lt => left < right
    case Gt => left > right
    case Le => left <= right
    case Ge => left >= right
  }

  /** Reading a comparison from the other side turns it into its opposite. */
  lemma HoldsOpposite(left: real, op: Op, right: real)
    ensures Holds(left, op, right) <==> Holds(right, Opposite(op), left)
  {
  }

  /** What the solver announces: ∅, ℝ, or the ray x ⋈ bound. */
  datatype Answer = Empty | Everything | Ray(op: Op, bound: real)

  predicate Contains(s: Answer, x: real)
  {
    match s
    case Empty => false
    case Everything => true
    case Ray(op, bound) => Holds(x, op, bound)
  }

  /**
   * solveInequationType1: a = 0 is decided by evaluating b ⋈ c; otherwise the
   * bound is (c - b) / a and the sign is flipped when a < 0.
   */
  function SolveType1(a: real, b: real, op: Op, c: real): (r: Answer)
    ensures a == 0.0 ==> !r.Ray? && (r.Everything? <==> Holds(b, op, c))
    ensures a != 0.0 ==> r.Ray? && a * r.bound + b == c
    ensures a < 0.0 ==> r.Ray? && r.op == Opposite(op)
    ensures a > 0.0 ==> r.Ray? && r.op == op
  {
    if a == 0.0 then
      if Holds(b, op, c) then Everything else Empty
    else
      var currentSign := if a < 0.0 then Opposite(op) else op;
      Ray(currentSign, (c - b) / a)
  }

  /** Multiplying both sides by a positive factor keeps a comparison, by a negative one flips it. */
  lemma ScaleCompare(a: real, x: real, v: real, op: Op)
    requires a != 0.0
    ensures a > 0.0 ==> (Holds(a * x, op, a * v) <==> Holds(x, op, v))
    ensures a < 0.0 ==> (Holds(a * x, op, a * v) <==> Holds(x, Opposite(op), v))
  {
    assert a * x - a * v == a * (x - v);
    if a > 0.0 {
      assert x - v > 0.0 ==> a * (x - v) > 0.0;
      assert x - v < 0.0 ==> a * (x - v) < 0.0;
    } else {
      assert x - v > 0.0 ==> a * (x - v) < 0.0;
      assert x - v < 0.0 ==> a * (x - v) > 0.0;
    }
  }

  /** The announced set is exactly the solution set of a·x + b ⋈ c. */
  lemma SolveType1Exact(a: real, b: real, op: Op, c: real, x: real)
    ensures Contains(SolveType1(a, b, op, c), x) <==> Holds(a * x + b, op, c)
  {
    if a != 0.0 {
      var v := (c - b) / a;
      assert a * v == c - b;
      ScaleCompare(a, x, v, op);
      assert Holds(a * x + b, op, c) <==> Holds(a * x, op, a * v);
    }
  }

  /** solveInequationType2: newA = a - c and newC = d - b, the degenerate case compares b and d. */
  function SolveType2(a: real, b: real, c: real, op: Op, d: real): (r: Answer)
    ensures a == c ==> !r.Ray? && (r.Everything? <==> Holds(b, op, d))
    ensures a != c ==> r.Ray? && (a - c) * r.bound + b == d
    ensures a < c ==> r.Ray? && r.op == Opposite(op)
    ensures a > c ==> r.Ray? && r.op == op
  {
    var newA := a - c;
    if newA == 0.0 then
      if Holds(b, op, d) then Everything else Empty
    else
      var currentSign := if newA < 0.0 then Opposite(op) else op;
      var newC := d - b;
      Ray(currentSign, newC / newA)
  }

  /** Moving c·x to the left turns type 2 into type 1 on (a - c, b, d). */
  lemma Type2IsType1(a: real, b: real, c: real, op: Op, d: real)
    ensures SolveType2(a, b, c, op, d) == SolveType1(a - c, b, op, d)
  {
  }

  /** The announced set is exactly the solution set of a·x + b ⋈ c·x + d. */
  lemma SolveType2Exact(a: real, b: real, c: real, op: Op, d: real, x: real)
    ensures Contains(SolveType2(a, b, c, op, d), x) <==> Holds(a * x + b, op, c * x + d)
  {
    Type2IsType1(a, b, c, op, d);
    SolveType1Exact(a - c, b, op, d, x);
    assert (a - c) * x + b == a * x + b - c * x;
  }

  /** The interval buildInequationResult prints for x ⋈ value. */
  datatype Interval =
    | UpTo(bound: real, closed: bool)      // ] −∞ ; bound [  or  ] −∞ ; bound ]
    | From(bound: real, closed: bool)      // ] bound ; +∞ [  or  [ bound ; +∞ [

  function IntervalOf(value: real, op: Op): (r: Interval)
    ensures r.bound == value
    ensures r.closed <==> !Strict(op)
    ensures r.UpTo? <==> (op == Lt || op == Le)
  {
    match op
    case Lt => UpTo(value, false)
    case Le => UpTo(value, true)
    case Gt => From(value, false)
    case Ge => From(value, true)
  }

  predicate InInterval(i: Interval, x: real)
  {
    match i
    case UpTo(bound, closed) => x < bound || (closed && x == bound)
    case From(bound, closed) => x > bound || (closed && x == bound)
  }

  /** The printed interval holds exactly the x with x ⋈ value. */
  lemma IntervalOfExact(value: real, op: Op, x: real)
    ensures InInterval(IntervalOf(value, op), x) <==> Holds(x, op, value)
  {
  }

  /**
   * The type-2 generator's loop `do c = randCoef(...) while (a === c)`:
   * the first draw different from a, None when the draws run out first.
   */
  function FirstDifferent(a: int, draws: seq<int>): (r: Option<int>)
    ensures r.Some? ==> exists i :: 0 <= i < |draws| && r.value == draws[i] && draws[i] != a
                           && forall j :: 0 <= j < i ==> draws[j] == a
    ensures r.None? <==> forall i :: 0 <= i < |draws| ==> draws[i] == a
  {
    if |draws| == 0 then None
    else if draws[0] != a then Some(draws[0])
    else
      var r := FirstDifferent(a, draws[1..]);
      assert r.Some? ==> exists i :: 0 < i < |draws| && r.value == draws[i] && draws[i] != a
                           && forall j :: 0 <= j < i ==> draws[j] == a by {
        if r.Some? {
          var k :| 0 <= k < |draws[1..]| && r.value == draws[1..][k] && draws[1..][k] != a
                   && forall j :: 0 <= j < k ==> draws[1..][j] == a;
          assert forall j :: 0 < j < k + 1 ==> draws[j] == draws[1..][j - 1];
        }
      }
      r
  }

  method DrawDifferentCoefficient(a: int, draws: seq<int>) returns (c: Option<int>)
    ensures c == FirstDifferent(a, draws)
  {
    var i := 0;
    while i < |draws|
      invariant 0 <= i <= |draws|
      invariant FirstDifferent(a, draws[i..]) == FirstDifferent(a, draws)
    {
      if draws[i] != a {
        return Some(draws[i]);
      }
      assert draws[i..][1..] == draws[i + 1..];
      i := i + 1;
    }
    c := None;
  }

  /** A generated type-2 inequation always has newA ≠ 0, hence a ray as answer. */
  lemma GeneratedType2IsRay(a: int, draws: seq<int>, b: int, op: Op, d: int)
    requires FirstDifferent(a, draws).Some?
    ensures SolveType2(a as real, b as real, FirstDifferent(a, draws).value as real, op, d as real).Ray?
  {
  }
}
