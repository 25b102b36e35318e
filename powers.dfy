// Powers (js/puissances.js): the exponent rules behind the generated
// exercises, and the scientific-notation product and quotient with their
// single ±1 exponent adjustment.

module Powers {
  import opened Utils

  /** b^n for a natural exponent. */
  function Pow(b: int, n: nat): int
  {
    if n == 0 then 1 else b * Pow(b, n - 1)
  }

  /** a^m × a^n = a^(m+n). */
  lemma {:induction false} PowAdd(b: int, m: nat, n: nat)
    ensures Pow(b, m + n) == Pow(b, m) * Pow(b, n)
  {
    if m > 0 {
      PowAdd(b, m - 1, n);
      calc {
        Pow(b, m + n);
        b * Pow(b, m - 1 + n);
        b * (Pow(b, m - 1) * Pow(b, n));
        (b * Pow(b, m - 1)) * Pow(b, n);
      }
    }
  }

  /** (a^m)^n = a^(m×n). */
  lemma {:induction false} PowMul(b: int, m: nat, n: nat)
    ensures Pow(Pow(b, m), n) == Pow(b, m * n)
  {
    if n > 0 {
      PowMul(b, m, n - 1);
      PowAdd(b, m, m * (n - 1));
      assert m + m * (n - 1) == m * n;
    }
  }

  /** (ab)^n = a^n × b^n. */
  lemma {:induction false} PowProduct(a: int, b: int, n: nat)
    ensures Pow(a * b, n) == Pow(a, n) * Pow(b, n)
  {
    if n > 0 {
      PowProduct(a, b, n - 1);
      calc {
        Pow(a * b, n);
        (a * b) * (Pow(a, n - 1) * Pow(b, n - 1));
        (a * Pow(a, n - 1)) * (b * Pow(b, n - 1));
      }
    }
  }

  // ---------------------------------------------------------------- exercises

  datatype Operation = Mult | Div

  /** The records the gen* functions return; result is the exponent the correction shows. */
  datatype Exercise =
    | Product(base: int, exp1: nat, exp2: nat, result: int)
    | Quotient(base: int, exp1: nat, exp2: nat, result: int)
    | PowerOfPower(base: int, exp1: nat, exp2: nat, result: int)
    | ProductPower(base1: int, base2: int, exp: nat)
    | Combined(base: int, exp1: nat, exp2: nat, exp3: nat, result: int)

  /** genProduct: base^exp1 × base^exp2 = base^result. */
  function GenProduct(base: int, exp1: nat, exp2: nat): (r: Exercise)
    ensures r.Product? && r.result >= 0
    ensures Pow(base, r.result) == Pow(base, exp1) * Pow(base, exp2)
  {
    PowAdd(base, exp1, exp2);
    Product(base, exp1, exp2, exp1 + exp2)
  }

  /**
   * genQuotient: base^exp1 ÷ base^exp2 = base^result whenever exp2 ≤ exp1.
   * The generator draws exp2 in [2, exp1 - 1], so its result is at least 1.
   */
  function GenQuotient(base: int, exp1: nat, exp2: nat): (r: Exercise)
    ensures r.Quotient?
    ensures exp2 <= exp1 ==> r.result >= 0 && Pow(base, r.result) * Pow(base, exp2) == Pow(base, exp1)
    ensures exp2 < exp1 ==> r.result >= 1
  {
    var result := exp1 - exp2;
    if exp2 <= exp1 then
      PowAdd(base, result, exp2);
      Quotient(base, exp1, exp2, result)
    else Quotient(base, exp1, exp2, result)
  }

  /** genPower: (base^exp1)^exp2 = base^result. */
  function GenPower(base: int, exp1: nat, exp2: nat): (r: Exercise)
    ensures r.PowerOfPower? && r.result >= 0
    ensures Pow(base, r.result) == Pow(Pow(base, exp1), exp2)
  {
    PowMul(base, exp1, exp2);
    PowerOfPower(base, exp1, exp2, exp1 * exp2)
  }

  /** solveProductPower: (base1 × base2)^exp is shown as base1^exp × base2^exp. */
  function SolveProductPower(ex: Exercise): (r: (int, int))
    requires ex.ProductPower?
    ensures r.0 * r.1 == Pow(ex.base1 * ex.base2, ex.exp)
  {
    PowProduct(ex.base1, ex.base2, ex.exp);
    (Pow(ex.base1, ex.exp), Pow(ex.base2, ex.exp))
  }

  /**
   * genCombined: base^exp1 × base^exp2 ÷ base^exp3 = base^result whenever
   * exp3 ≤ exp1 + exp2. The generator draws exp1, exp2 in [2, 4] and exp3 in
   * [1, 3], so exp3 < exp1 + exp2 and its result is at least 1.
   */
  function GenCombined(base: int, exp1: nat, exp2: nat, exp3: nat): (r: Exercise)
    ensures r.Combined?
    ensures exp3 <= exp1 + exp2 ==>
              r.result >= 0 && Pow(base, r.result) * Pow(base, exp3) == Pow(base, exp1) * Pow(base, exp2)
    ensures exp3 < exp1 + exp2 ==> r.result >= 1
  {
    var result := exp1 + exp2 - exp3;
    if exp3 <= exp1 + exp2 then
      PowAdd(base, exp1, exp2);
      PowAdd(base, result, exp3);
      Combined(base, exp1, exp2, exp3, result)
    else Combined(base, exp1, exp2, exp3, result)
  }

  // ---------------------------------------------------------------- scientific notation

  /** 10^e for any integer e, as an exact rational. */
  function Pow10(e: int): real
    decreases if e >= 0 then e else -e
  {
    if e == 0 then 1.0 else if e > 0 then 10.0 * Pow10(e - 1) else Pow10(e + 1) / 10.0
  }

  lemma Pow10Step(e: int)
    ensures Pow10(e + 1) == 10.0 * Pow10(e)
  {
  }

  lemma Pow10Positive(e: int)
    ensures Pow10(e) > 0.0
  {
    if e >= 0 {
      PositiveUp(e);
    } else {
      PositiveDown(-e);
    }
  }

  lemma {:induction false} PositiveUp(n: nat)
    ensures Pow10(n) > 0.0
  {
    if n > 0 {
      PositiveUp(n - 1);
    }
  }

  lemma {:induction false} PositiveDown(n: nat)
    ensures Pow10(-(n as int)) > 0.0
  {
    if n > 0 {
      PositiveDown(n - 1);
    }
  }

  /** 10^(a+b) = 10^a × 10^b for all integers a and b. */
  lemma Pow10Add(a: int, b: int)
    ensures Pow10(a + b) == Pow10(a) * Pow10(b)
  {
    if b >= 0 {
      Pow10AddUp(a, b);
    } else {
      Pow10AddDown(a, -b);
    }
  }

  lemma {:induction false} Pow10AddUp(a: int, b: nat)
    ensures Pow10(a + b) == Pow10(a) * Pow10(b)
  {
    if b > 0 {
      Pow10AddUp(a, b - 1);
      Pow10Step(a + b - 1);
      Pow10Step(b - 1);
      ShiftFactor(Pow10(a + b), Pow10(a + b - 1), Pow10(a), Pow10(b - 1), Pow10(b));
    }
  }

  lemma {:induction false} Pow10AddDown(a: int, b: nat)
    ensures Pow10(a - b) == Pow10(a) * Pow10(-(b as int))
  {
    if b > 0 {
      Pow10AddDown(a, b - 1);
      Pow10Step(a - b);
      Pow10Step(-(b as int));
      UnshiftFactor(Pow10(a - b), Pow10(a - b + 1), Pow10(a), Pow10(-(b as int)), Pow10(-(b as int) + 1));
    }
  }

  /** From d = 10c, c = x·y and z = 10y: d = x·z. */
  lemma ShiftFactor(d: real, c: real, x: real, y: real, z: real)
    requires d == 10.0 * c && c == x * y && z == 10.0 * y
    ensures d == x * z
  {
  }

  /** From u = 10d, u = x·z and z = 10y: d = x·y. */
  lemma UnshiftFactor(d: real, u: real, x: real, y: real, z: real)
    requires u == 10.0 * d && u == x * z && z == 10.0 * y
    ensures d == x * y
  {
  }

  lemma {:induction false} Pow10AtLeastTen(k: int)
    requires k >= 1
    ensures Pow10(k) >= 10.0
    decreases k
  {
    if k > 1 {
      Pow10AtLeastTen(k - 1);
    }
  }

  /** The number coef × 10^exp. */
  function Value(coef: real, exp: int): (v: real)
    ensures v == 0.0 <==> coef == 0.0
  {
    Pow10Positive(exp);
    coef * Pow10(exp)
  }

  predicate IsScientific(coef: real)
  {
    1.0 <= coef < 10.0
  }

  /**
   * The first step of solveScientific: multiply (or divide) the coefficients
   * and add (or subtract) the exponents. A zero divisor coefficient is None.
   */
  function Combine(op: Operation, coef1: real, coef2: real, exp1: int, exp2: int): (r: Option<(real, int)>)
    ensures r.None? <==> op == Div && coef2 == 0.0
    ensures r.Some? && op == Mult ==> r.value.1 == exp1 + exp2 && Value(r.value.0, r.value.1) == Value(coef1, exp1) * Value(coef2, exp2)
    ensures r.Some? && op == Div ==> r.value.1 == exp1 - exp2 && Value(r.value.0, r.value.1) == Value(coef1, exp1) / Value(coef2, exp2)
  {
    match op
    case Mult =>
      ProductOfValues(coef1, coef2, exp1, exp2);
      Some((coef1 * coef2, exp1 + exp2))
    case Div =>
      if coef2 == 0.0 then None
      else
        QuotientOfValues(coef1, coef2, exp1, exp2);
        Some((coef1 / coef2, exp1 - exp2))
  }

  lemma ProductOfValues(c1: real, c2: real, e1: int, e2: int)
    ensures Value(c1 * c2, e1 + e2) == Value(c1, e1) * Value(c2, e2)
  {
    Pow10Add(e1, e2);
    Rearrange(c1, c2, Pow10(e1), Pow10(e2));
  }

  lemma Rearrange(c1: real, c2: real, p: real, q: real)
    ensures (c1 * c2) * (p * q) == (c1 * p) * (c2 * q)
  {
  }

  lemma QuotientOfValues(c1: real, c2: real, e1: int, e2: int)
    requires c2 != 0.0
    ensures Value(c1 / c2, e1 - e2) == Value(c1, e1) / Value(c2, e2)
  {
    Pow10Add(e1 - e2, e2);
    Pow10Positive(e2);
    DivideOut(c1, c2, Pow10(e1 - e2), Pow10(e2));
  }

  lemma DivideOut(c1: real, c2: real, p: real, q: real)
    requires c2 != 0.0 && q > 0.0
    ensures (c1 / c2) * p == (c1 * (p * q)) / (c2 * q)
  {
    assert (c1 * (p * q)) / (c2 * q) * (c2 * q) == c1 * (p * q);
    assert (c1 / c2) * p * (c2 * q) == c1 * (p * q);
  }

  /** The adjustment: one shift of the decimal point when the coefficient is ≥ 10 or < 1. */
  function Normalise(coef: real, exp: int): (r: (real, int))
    ensures Value(r.0, r.1) == Value(coef, exp)
    ensures IsScientific(coef) ==> r == (coef, exp)
    ensures r.1 - exp == (if coef >= 10.0 then 1 else if coef < 1.0 then -1 else 0)
  {
    Pow10Step(exp - 1);
    if coef >= 10.0 then (coef / 10.0, exp + 1)
    else if coef < 1.0 then (coef * 10.0, exp - 1)
    else (coef, exp)
  }

  /** solveScientific: combine, then adjust once. The number shown is the product or quotient asked for. */
  function SolveScientific(op: Operation, coef1: real, coef2: real, exp1: int, exp2: int): (r: Option<(real, int)>)
    ensures r.None? <==> op == Div && coef2 == 0.0
    ensures r.Some? && op == Mult ==> Value(r.value.0, r.value.1) == Value(coef1, exp1) * Value(coef2, exp2)
    ensures r.Some? && op == Div ==> Value(r.value.0, r.value.1) == Value(coef1, exp1) / Value(coef2, exp2)
  {
    match Combine(op, coef1, coef2, exp1, exp2)
    case None => None
    case Some((coef, exp)) => Some(Normalise(coef, exp))
  }

  /**
   * genScientific draws coefficients t/10 with t in [10, 99]. Then one
   * adjustment is enough: the shown coefficient is in [1, 10).
   */
  lemma GeneratedScientificNormalised(op: Operation, t1: int, t2: int, exp1: int, exp2: int)
    requires 10 <= t1 <= 99 && 10 <= t2 <= 99
    ensures SolveScientific(op, t1 as real / 10.0, t2 as real / 10.0, exp1, exp2).Some?
    ensures IsScientific(SolveScientific(op, t1 as real / 10.0, t2 as real / 10.0, exp1, exp2).value.0)
  {
    var c1, c2 := t1 as real / 10.0, t2 as real / 10.0;
    match op
    case Mult =>
      ProductBounds(c1, c2);
      OneShiftLands(c1 * c2, exp1 + exp2);
    case Div =>
      QuotientBounds(c1, c2);
      OneShiftLands(c1 / c2, exp1 - exp2);
  }

  lemma ProductBounds(c1: real, c2: real)
    requires 1.0 <= c1 < 10.0 && 1.0 <= c2 < 10.0
    ensures 1.0 <= c1 * c2 < 100.0
  {
    assert c1 * c2 >= 1.0 * c2;
    assert c1 * c2 < 10.0 * c2;
  }

  lemma QuotientBounds(c1: real, c2: real)
    requires 1.0 <= c1 < 10.0 && 1.0 <= c2 < 10.0
    ensures 0.1 <= c1 / c2 < 10.0
  {
    var q := c1 / c2;
    assert q * c2 == c1;
    assert q > 0.0;
    assert q * c2 >= q;
    assert q * 10.0 > q * c2;
  }

  /** A coefficient in [0.1, 100) needs at most one shift to land in [1, 10). */
  lemma OneShiftLands(coef: real, exp: int)
    requires 0.1 <= coef < 100.0
    ensures IsScientific(Normalise(coef, exp).0)
  {
  }

  /** Scientific notation is unique: two forms with coefficients in [1, 10) of the same number are the same. */
  lemma ScientificUnique(c1: real, e1: int, c2: real, e2: int)
    requires IsScientific(c1) && IsScientific(c2)
    requires Value(c1, e1) == Value(c2, e2)
    ensures c1 == c2 && e1 == e2
  {
    if e1 < e2 {
      Bigger(c1, e1, c2, e2);
    } else if e2 < e1 {
      Bigger(c2, e2, c1, e1);
    } else {
      Pow10Positive(e1);
      CancelPositive(c1, c2, Pow10(e1));
    }
  }

  lemma CancelPositive(x: real, y: real, p: real)
    requires p > 0.0 && x * p == y * p
    ensures x == y
  {
  }

  lemma Bigger(c1: real, e1: int, c2: real, e2: int)
    requires IsScientific(c1) && IsScientific(c2) && e1 < e2
    ensures Value(c1, e1) < Value(c2, e2)
  {
    Pow10Add(e1, e2 - e1);
    Pow10AtLeastTen(e2 - e1);
    Pow10Positive(e1);
    OrderOfMagnitude(c1, c2, Pow10(e1), Pow10(e2 - e1));
  }

  lemma OrderOfMagnitude(c1: real, c2: real, p: real, k: real)
    requires c1 < 10.0 && 1.0 <= c2 && p > 0.0 && k >= 10.0
    ensures c1 * p < c2 * (p * k)
  {
    assert c1 * p < 10.0 * p;
    assert 10.0 * p <= k * p;
    assert k * p <= c2 * (k * p);
  }

  /** So the shown result is the scientific notation of the product or quotient, whatever else could be shown. */
  lemma GeneratedScientificIsTheNotation(op: Operation, t1: int, t2: int, exp1: int, exp2: int, c: real, e: int)
    requires 10 <= t1 <= 99 && 10 <= t2 <= 99
    requires IsScientific(c)
    requires var v1, v2 := Value(t1 as real / 10.0, exp1), Value(t2 as real / 10.0, exp2);
             Value(c, e) == (if op == Mult then v1 * v2 else v1 / v2)
    ensures SolveScientific(op, t1 as real / 10.0, t2 as real / 10.0, exp1, exp2) == Some((c, e))
  {
    GeneratedScientificNormalised(op, t1, t2, exp1, exp2);
    var r := SolveScientific(op, t1 as real / 10.0, t2 as real / 10.0, exp1, exp2).value;
    ScientificUnique(r.0, r.1, c, e);
  }
}
