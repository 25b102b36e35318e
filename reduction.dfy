// Collecting like terms (js/reduction.js): the generators build a list of
// terms, the solver groups their coefficients by degree class in a
// dictionary and sums each class, then prints x², x, constant in that order,
// leaving out the classes whose sum is 0 and printing '0' when all vanish.

module Reduction {
  import opened Utils
  import opened Expansion

  /** The degree class of a term: 'x²', 'x' or 'const'. */
  datatype Kind = Square | Linear | Constant

  datatype Monomial = Monomial(coef: int, kind: Kind)

  /** The value of one term at x. */
  function TermValue(t: Monomial, x: int): int
  {
    match t.kind
    case Square => t.coef * x * x
    case Linear => t.coef * x
    case Constant => t.coef
  }

  /** The value of the whole expression t1 + t2 + … at x. */
  function EvalTerms(terms: seq<Monomial>, x: int): int
  {
    if |terms| == 0 then 0 else EvalTerms(terms[..|terms| - 1], x) + TermValue(terms[|terms| - 1], x)
  }

  function Sum(s: seq<int>): int
  {
    if |s| == 0 then 0 else Sum(s[..|s| - 1]) + s[|s| - 1]
  }

  /** The coefficients of class k, in the order the terms come. */
  function CoefsOf(terms: seq<Monomial>, k: Kind): seq<int>
  {
    if |terms| == 0 then []
    else CoefsOf(terms[..|terms| - 1], k) + (if terms[|terms| - 1].kind == k then [terms[|terms| - 1].coef] else [])
  }

  /** reduceTerms of the test suite: the reduced coefficient of each class. */
  function Reduced(terms: seq<Monomial>): Poly
  {
    Poly(Sum(CoefsOf(terms, Square)), Sum(CoefsOf(terms, Linear)), Sum(CoefsOf(terms, Constant)))
  }

  // ---------------------------------------------------------------- grouping

  /** The groups dictionary after the forEach over terms. */
  function Groups(terms: seq<Monomial>): map<Kind, seq<int>>
  {
    if |terms| == 0 then map[]
    else
      var g := Groups(terms[..|terms| - 1]);
      var t := terms[|terms| - 1];
      g[t.kind := (if t.kind in g then g[t.kind] else []) + [t.coef]]
  }

  /** A class has a group exactly when some term has that class, and the group lists its coefficients. */
  lemma {:induction false} GroupsAreClasses(terms: seq<Monomial>, k: Kind)
    ensures k in Groups(terms) <==> exists i :: 0 <= i < |terms| && terms[i].kind == k
    ensures k in Groups(terms) ==> Groups(terms)[k] == CoefsOf(terms, k)
    ensures k !in Groups(terms) ==> CoefsOf(terms, k) == []
  {
    if |terms| > 0 {
      var prefix := terms[..|terms| - 1];
      GroupsAreClasses(prefix, k);
      if k in Groups(prefix) {
        var i :| 0 <= i < |prefix| && prefix[i].kind == k;
        assert terms[i].kind == k;
      }
      if exists i :: 0 <= i < |terms| && terms[i].kind == k {
        var i :| 0 <= i < |terms| && terms[i].kind == k;
        if i < |prefix| {
          assert prefix[i].kind == k;
        }
      }
    }
  }

  /** The forEach/push loop filling the groups dictionary. */
  method GroupTerms(terms: seq<Monomial>) returns (groups: map<Kind, seq<int>>)
    ensures groups == Groups(terms)
  {
    groups := map[];
    var i := 0;
    while i < |terms|
      invariant 0 <= i <= |terms|
      invariant groups == Groups(terms[..i])
    {
      var term := terms[i];
      if term.kind !in groups {
        groups := groups[term.kind := []];
      }
      groups := groups[term.kind := groups[term.kind] + [term.coef]];
      assert terms[..i + 1][..i] == terms[..i];
      i := i + 1;
    }
    assert terms[..|terms|] == terms;
  }

  /** groups[type].reduce((a, b) => a + b, 0). */
  method SumGroup(coefs: seq<int>) returns (sum: int)
    ensures sum == Sum(coefs)
  {
    sum := 0;
    var i := 0;
    while i < |coefs|
      invariant 0 <= i <= |coefs|
      invariant sum == Sum(coefs[..i])
    {
      sum := sum + coefs[i];
      assert coefs[..i + 1][..i] == coefs[..i];
      i := i + 1;
    }
    assert coefs[..|coefs|] == coefs;
  }

  /** The class order of the result. */
  const Order: seq<Kind> := [Square, Linear, Constant]

  function ClassSum(terms: seq<Monomial>, k: Kind): int
  {
    Sum(CoefsOf(terms, k))
  }

  /** The nonzero (class, sum) pairs of the first n classes of the order. */
  function Shown(terms: seq<Monomial>, n: nat): seq<(Kind, int)>
    requires n <= |Order|
  {
    if n == 0 then []
    else Shown(terms, n - 1) + (if ClassSum(terms, Order[n - 1]) != 0 then [(Order[n - 1], ClassSum(terms, Order[n - 1]))] else [])
  }

  /**
   * solveSimpleReduction: group, then walk x², x, const and keep every
   * class whose sum is nonzero. An empty result is printed as '0'.
   */
  method SolveSimpleReduction(terms: seq<Monomial>) returns (result: seq<(Kind, int)>)
    ensures result == Shown(terms, |Order|)
  {
    var groups := GroupTerms(terms);
    result := [];
    var i := 0;
    while i < |Order|
      invariant 0 <= i <= |Order|
      invariant result == Shown(terms, i)
    {
      var kind := Order[i];
      GroupsAreClasses(terms, kind);
      if kind in groups {
        var sum := SumGroup(groups[kind]);
        if sum != 0 {
          result := result + [(kind, sum)];
        }
      } else {
        assert ClassSum(terms, kind) == 0;
      }
      i := i + 1;
    }
  }

  // ---------------------------------------------------------------- properties

  /** The printed classes come in the order x², x, const, each with a nonzero sum equal to reduceTerms. */
  lemma ShownMatchesReduced(terms: seq<Monomial>, k: Kind, s: int)
    ensures (k, s) in Shown(terms, |Order|) <==> s != 0 && s == ClassSum(terms, k)
    ensures |Shown(terms, |Order|)| == 0 <==> Reduced(terms) == Poly(0, 0, 0)
  {
    assert Shown(terms, |Order|) == Shown(terms, 2) + (if ClassSum(terms, Constant) != 0 then [(Constant, ClassSum(terms, Constant))] else []);
    assert Shown(terms, 2) == Shown(terms, 1) + (if ClassSum(terms, Linear) != 0 then [(Linear, ClassSum(terms, Linear))] else []);
    assert Shown(terms, 1) == (if ClassSum(terms, Square) != 0 then [(Square, ClassSum(terms, Square))] else []);
  }

  /** The printed classes are strictly ordered x² before x before const. */
  lemma ShownOrdered(terms: seq<Monomial>, i: int, j: int)
    requires 0 <= i < j < |Shown(terms, |Order|)|
    ensures Rank(Shown(terms, |Order|)[i].0) < Rank(Shown(terms, |Order|)[j].0)
  {
    ShownSorted(terms, |Order|);
  }

  lemma {:induction false} ShownSorted(terms: seq<Monomial>, n: nat)
    requires n <= |Order|
    ensures forall i :: 0 <= i < |Shown(terms, n)| ==> Rank(Shown(terms, n)[i].0) < n
    ensures forall i, j :: 0 <= i < j < |Shown(terms, n)| ==> Rank(Shown(terms, n)[i].0) < Rank(Shown(terms, n)[j].0)
  {
    if n > 0 {
      ShownSorted(terms, n - 1);
      assert Rank(Order[n - 1]) == n - 1;
    }
  }

  function Rank(k: Kind): nat
  {
    match k
    case Square => 0
    case Linear => 1
    case Constant => 2
  }

  /** Collecting like terms does not change the expression: it has the same value at every x. */
  lemma {:induction false} ReductionPreservesValue(terms: seq<Monomial>, x: int)
    ensures Eval(Reduced(terms), x) == EvalTerms(terms, x)
  {
    if |terms| > 0 {
      var prefix := terms[..|terms| - 1];
      var t := terms[|terms| - 1];
      ReductionPreservesValue(prefix, x);
      ReducedStep(terms);
      EvalAddTerm(Reduced(prefix), t, x);
    }
  }

  lemma ReducedStep(terms: seq<Monomial>)
    requires |terms| > 0
    ensures Reduced(terms) == AddTerm(Reduced(terms[..|terms| - 1]), terms[|terms| - 1])
  {
    var prefix, t := terms[..|terms| - 1], terms[|terms| - 1];
    assert terms == prefix + [t];
    ClassSumAppend(prefix, t, Square);
    ClassSumAppend(prefix, t, Linear);
    ClassSumAppend(prefix, t, Constant);
  }

  /** The reduced form after one more term of class k. */
  function AddTerm(p: Poly, t: Monomial): Poly
  {
    match t.kind
    case Square => p.(c2 := p.c2 + t.coef)
    case Linear => p.(c1 := p.c1 + t.coef)
    case Constant => p.(c0 := p.c0 + t.coef)
  }

  lemma EvalAddTerm(p: Poly, t: Monomial, x: int)
    ensures Eval(AddTerm(p, t), x) == Eval(p, x) + TermValue(t, x)
  {
    match t.kind
    case Square =>
      assert (p.c2 + t.coef) * x * x == p.c2 * x * x + t.coef * x * x;
    case Linear =>
      assert (p.c1 + t.coef) * x == p.c1 * x + t.coef * x;
    case Constant =>
  }

  /** Appending a term adds its coefficient to its own class and nothing to the others. */
  lemma ClassSumAppend(terms: seq<Monomial>, t: Monomial, k: Kind)
    ensures ClassSum(terms + [t], k) == ClassSum(terms, k) + (if t.kind == k then t.coef else 0)
  {
    assert (terms + [t])[..|terms|] == terms;
    var c := CoefsOf(terms, k);
    if t.kind == k {
      SumAppend(c, t.coef);
    } else {
      assert c + [] == c;
    }
  }

  lemma SumAppend(s: seq<int>, v: int)
    ensures Sum(s + [v]) == Sum(s) + v
  {
    assert (s + [v])[..|s|] == s;
  }

  /** The total of all coefficients is the total of the three class sums. */
  lemma TotalPreserved(terms: seq<Monomial>)
    ensures Reduced(terms).c2 + Reduced(terms).c1 + Reduced(terms).c0 == EvalTerms(terms, 1)
  {
    ReductionPreservesValue(terms, 1);
  }

  // ---------------------------------------------------------------- generators

  /** The terms the 'avec-x' and 'avec-x2' loops push, before any patch. */
  function Drawn(coefs: seq<int>, kinds: seq<Kind>): (r: seq<Monomial>)
    requires |coefs| == |kinds|
    ensures |r| == |coefs|
    ensures forall i :: 0 <= i < |r| ==> r[i] == Monomial(coefs[i], kinds[i])
  {
    if |coefs| == 0 then [] else Drawn(coefs[..|coefs| - 1], kinds[..|kinds| - 1]) + [Monomial(coefs[|coefs| - 1], kinds[|kinds| - 1])]
  }

  /** The for loop of generateReductionExpression, pushing one term per draw. */
  method PushTerms(coefs: seq<int>, kinds: seq<Kind>) returns (terms: seq<Monomial>)
    requires |coefs| == |kinds|
    ensures terms == Drawn(coefs, kinds)
  {
    terms := [];
    var i := 0;
    while i < |coefs|
      invariant 0 <= i <= |coefs|
      invariant terms == Drawn(coefs[..i], kinds[..i])
    {
      terms := terms + [Monomial(coefs[i], kinds[i])];
      assert coefs[..i + 1][..i] == coefs[..i];
      assert kinds[..i + 1][..i] == kinds[..i];
      i := i + 1;
    }
    assert coefs[..|coefs|] == coefs && kinds[..|kinds|] == kinds;
  }

  predicate HasKind(terms: seq<Monomial>, k: Kind)
  {
    exists i :: 0 <= i < |terms| && terms[i].kind == k
  }

  /**
   * The 'avec-x' patch: with no x term, terms[0] becomes one; with no
   * constant, terms[1] becomes one. None is the crash on a missing terms[1].
   */
  function PatchWithX(terms: seq<Monomial>): (r: Option<seq<Monomial>>)
  {
    var hasX := HasKind(terms, Linear);
    var hasConst := HasKind(terms, Constant);
    if !hasX && |terms| == 0 then None
    else
      var t1 := if !hasX then terms[0 := terms[0].(kind := Linear)] else terms;
      if !hasConst && |t1| < 2 then None
      else Some(if !hasConst then t1[1 := t1[1].(kind := Constant)] else t1)
  }

  /** generateReductionExpression, 'avec-x': push n terms, then patch. */
  method GenerateWithX(coefs: seq<int>, isX: seq<bool>) returns (r: Option<seq<Monomial>>)
    requires |coefs| == |isX|
    ensures r == PatchWithX(Drawn(coefs, seq(|isX|, i requires 0 <= i < |isX| => if isX[i] then Linear else Constant)))
  {
    var kinds := seq(|isX|, i requires 0 <= i < |isX| => if isX[i] then Linear else Constant);
    var terms := PushTerms(coefs, kinds);
    var hasX := HasKind(terms, Linear);
    var hasConst := HasKind(terms, Constant);
    if !hasX {
      if |terms| == 0 {
        return None;
      }
      terms := terms[0 := terms[0].(kind := Linear)];
    }
    if !hasConst {
      if |terms| < 2 {
        return None;
      }
      terms := terms[1 := terms[1].(kind := Constant)];
    }
    r := Some(terms);
  }

  /**
   * With at least two terms of classes x and const the patch always succeeds,
   * leaves at least one x term and one constant, and keeps every coefficient.
   */
  lemma PatchedHasBothKinds(terms: seq<Monomial>)
    requires |terms| >= 2
    requires forall i :: 0 <= i < |terms| ==> terms[i].kind != Square
    ensures PatchWithX(terms).Some?
    ensures HasKind(PatchWithX(terms).value, Linear) && HasKind(PatchWithX(terms).value, Constant)
    ensures |PatchWithX(terms).value| == |terms|
    ensures forall i :: 0 <= i < |terms| ==> PatchWithX(terms).value[i].coef == terms[i].coef
  {
    var r := PatchWithX(terms).value;
    if !HasKind(terms, Linear) {
      assert terms[1].kind == Constant;
      assert r[0].kind == Linear;
      assert r[1].kind == Constant;
    } else if !HasKind(terms, Constant) {
      assert terms[0].kind == Linear;
      assert r[0].kind == Linear && r[1].kind == Constant;
    } else {
      var i :| 0 <= i < |terms| && terms[i].kind == Linear;
      var j :| 0 <= j < |terms| && terms[j].kind == Constant;
      assert r[i].kind == Linear && r[j].kind == Constant;
    }
  }

  /** Whatever the patch returns has the drawn coefficients, in the drawn order. */
  lemma PatchKeepsCoefficients(terms: seq<Monomial>)
    requires PatchWithX(terms).Some?
    ensures |PatchWithX(terms).value| == |terms|
    ensures forall i :: 0 <= i < |terms| ==> PatchWithX(terms).value[i].coef == terms[i].coef
  {
  }

  /**
   * Every coefficient is drawn by randCoef(-10, 10, false, true), which never
   * returns 0, so every generated term of 'avec-x' and 'avec-x2' is nonzero.
   */
  lemma GeneratedCoefficientsNonzero(coefs: seq<int>, kinds: seq<Kind>, i: int)
    requires |coefs| == |kinds| && 0 <= i < |coefs|
    requires forall j :: 0 <= j < |coefs| ==> CoefOutcome(coefs[j], -10, 10, false, true)
    ensures Drawn(coefs, kinds)[i].coef != 0
    ensures PatchWithX(Drawn(coefs, kinds)).Some? ==> PatchWithX(Drawn(coefs, kinds)).value[i].coef != 0
  {
    if PatchWithX(Drawn(coefs, kinds)).Some? {
      PatchKeepsCoefficients(Drawn(coefs, kinds));
    }
  }

  /** A single x term cannot be patched: the page reads terms[1] of a one-term list. */
  lemma PatchOneTermFails(c: int)
    ensures PatchWithX([Monomial(c, Linear)]).None?
  {
    assert !HasKind([Monomial(c, Linear)], Constant);
  }

  /** 'avec-parentheses': a(bx + c) + dx + e becomes [ab·x, ac, d·x, e]. */
  function ParenthesesTerms(a: int, b: int, c: int, d: int, e: int): seq<Monomial>
  {
    [Monomial(a * b, Linear), Monomial(a * c, Constant), Monomial(d, Linear), Monomial(e, Constant)]
  }

  /** The parentheses case reduces to (ab + d)x + (ac + e), the value of a(bx + c) + dx + e. */
  lemma ParenthesesReduction(a: int, b: int, c: int, d: int, e: int, x: int)
    ensures Reduced(ParenthesesTerms(a, b, c, d, e)) == Poly(0, a * b + d, a * c + e)
    ensures EvalTerms(ParenthesesTerms(a, b, c, d, e), x) == a * (b * x + c) + d * x + e
  {
    var m1, m2 := Monomial(a * b, Linear), Monomial(a * c, Constant);
    var m3, m4 := Monomial(d, Linear), Monomial(e, Constant);
    var s1 := [m1];
    var s2 := s1 + [m2];
    var s3 := s2 + [m3];
    assert ParenthesesTerms(a, b, c, d, e) == s3 + [m4];
    AppendFour(s1, s2, s3, m1, m2, m3, m4, Square);
    AppendFour(s1, s2, s3, m1, m2, m3, m4, Linear);
    AppendFour(s1, s2, s3, m1, m2, m3, m4, Constant);
    ReductionPreservesValue(s3 + [m4], x);
  }

  /** 'avec-parentheses' draws a in ±[2, 5], b and c in [-5, 5] and d, e in [-10, 10], all nonzero: so are the four terms. */
  lemma GeneratedParenthesesNonzero(a: int, b: int, c: int, d: int, e: int)
    requires CoefOutcome(a, 2, 5, true, true) && CoefOutcome(b, -5, 5, false, true) && CoefOutcome(c, -5, 5, false, true)
    requires CoefOutcome(d, -10, 10, false, true) && CoefOutcome(e, -10, 10, false, true)
    ensures forall i :: 0 <= i < 4 ==> ParenthesesTerms(a, b, c, d, e)[i].coef != 0
  {
    MulNonzeroInt(a, b);
    MulNonzeroInt(a, c);
  }

  lemma AppendFour(s1: seq<Monomial>, s2: seq<Monomial>, s3: seq<Monomial>, m1: Monomial, m2: Monomial, m3: Monomial, m4: Monomial, k: Kind)
    requires s1 == [m1] && s2 == s1 + [m2] && s3 == s2 + [m3]
    ensures ClassSum(s3 + [m4], k)
            == (if m1.kind == k then m1.coef else 0) + (if m2.kind == k then m2.coef else 0)
               + (if m3.kind == k then m3.coef else 0) + (if m4.kind == k then m4.coef else 0)
  {
    assert s1 == [] + [m1];
    ClassSumAppend([], m1, k);
    ClassSumAppend(s1, m2, k);
    ClassSumAppend(s2, m3, k);
    ClassSumAppend(s3, m4, k);
  }
}
