/** scripts/analysis/dickson_polynomial_formulas.py: the integer recurrence
    used for the symbolic expansions, the numeric evaluator `dickson_mod`,
    the three cardinality-2 indices and the "value is x or -x" check. */
module Formulas {
  import opened Outcomes
  import opened PyArith
  import opened Sorting
  import opened Dickson

  /** `dickson_polynomial_recurrence(n, x, a)` on integer arguments: D_n(a, x)
      for n >= 0; a negative index skips the loop and returns `a`. */
  method DicksonPolynomialRecurrence(n: int, x: int, a: int) returns (r: int)
    ensures 0 <= n ==> r == D(n, a, x)
    ensures n < 0 ==> r == a
  {
    if n == 0 {
      return 2;
    }
    if n == 1 {
      return a;
    }
    if n < 0 {
      return a;  // range(2, n + 1) is empty
    }
    var prev2, prev1 := 2, a;
    for i := 2 to n + 1
      invariant prev2 == D(i - 2, a, x) && prev1 == D(i - 1, a, x)
    {
      var cur := a * prev1 - x * prev2;
      prev2, prev1 := prev1, cur;
    }
    return prev1;
  }

  /** What `dickson_mod(n, x, p)` returns for a non-zero modulus: the classical
      value E_n(x, 1) reduced modulo p, and `x % p` for a negative index. */
  function DicksonModValue(n: int, x: int, p: int): (r: int)
    requires p != 0
    ensures Canonical(r, p)
  {
    if n < 0 then PyMod(x, p) else PyMod(E(n, x, 1), p)
  }

  /** `dickson_mod(n, x, p)`: reduces `x` first (so p == 0 fails at once),
      then runs the recurence E_i = x*E_{i-1} - E_{i-2} reducing each term. */
  method DicksonMod(n: int, x: int, p: int) returns (r: Result<int>)
    ensures p == 0 ==> r == Err(ZeroDivisionError)
    ensures p != 0 ==> r == Ok(DicksonModValue(n, x, p))
  {
    if p == 0 {
      return Err(ZeroDivisionError);
    }
    var xr := PyMod(x, p);
    PyModIdempotent(x, p);
    if n == 0 {
      return Ok(PyMod(2, p));
    }
    if n == 1 {
      return Ok(xr);
    }
    if n < 0 {
      return Ok(xr);  // range(2, n + 1) is empty
    }
    PyModIdempotent(2, p);
    var prev2, prev1 := PyMod(2, p), xr;
    for i := 2 to n + 1
      invariant PyMod(prev2, p) == PyMod(E(i - 2, x, 1), p)
      invariant prev1 == PyMod(E(i - 1, x, 1), p)
    {
      PyModIdempotent(E(i - 1, x, 1), p);
      PyModLinearStep(x, E(i - 1, x, 1), 1, E(i - 2, x, 1), xr, prev1, 1, prev2, p);
      var cur := PyMod(xr * prev1 - prev2, p);
      prev2, prev1 := prev1, cur;
    }
    return Ok(prev1);
  }

  /** `dickson_mod` is `reversed_dickson(n, a = x, x = 1, p)`: the classical
      recurrence with parameter 1 is the reversed one with its arguments
      exchanged. */
  lemma DicksonModIsReversedSwapped(n: nat, x: int, p: int)
    requires p != 0
    ensures DicksonModValue(n, x, p) == PyMod(D(n, x, 1), p)
  {
    ClassicalIsReversedSwapped(n, x, 1);
  }

  /** `dickson_mod` depends on `x` only through `x % p`. */
  lemma DicksonModResidue(n: int, x: int, x': int, p: int)
    requires p != 0 && PyMod(x', p) == PyMod(x, p)
    ensures DicksonModValue(n, x', p) == DicksonModValue(n, x, p)
  {
    if n >= 0 {
      DicksonModIsReversedSwapped(n, x, p);
      DicksonModIsReversedSwapped(n, x', p);
      CongruentParameters(n, x, 1, x', 1, p);
    }
  }

  /** The reading of `dickson_mod` its documentation gives: D_n(1, x)
      reduced modulo p, with x reduced first. */
  method DicksonModCorrected(n: int, x: int, p: int) returns (r: Result<int>)
    ensures p == 0 ==> r == Err(ZeroDivisionError)
    ensures p != 0 && 0 <= n ==> r == Ok(PyMod(D(n, 1, x), p))
    ensures p != 0 && n < 0 ==> r == Ok(PyMod(1, p))
  {
    if p == 0 {
      return Err(ZeroDivisionError);
    }
    var xr := PyMod(x, p);
    PyModIdempotent(x, p);
    PyModIdempotent(1, p);
    if n == 0 {
      return Ok(PyMod(2, p));
    }
    if n < 2 {
      return Ok(PyMod(1, p));
    }
    PyModIdempotent(2, p);
    var prev2, prev1 := PyMod(2, p), PyMod(1, p);
    for i := 2 to n + 1
      invariant PyMod(prev2, p) == PyMod(D(i - 2, 1, x), p)
      invariant prev1 == PyMod(D(i - 1, 1, x), p)
    {
      PyModIdempotent(D(i - 1, 1, x), p);
      PyModLinearStep(1, D(i - 1, 1, x), x, D(i - 2, 1, x), 1, prev1, xr, prev2, p);
      var cur := PyMod(prev1 - xr * prev2, p);
      prev2, prev1 := prev1, cur;
    }
    return Ok(prev1);
  }

  /** The documented and the computed values differ: at n = 2, x = 0, p = 5
      D_2(1, 0) = 1 while E_2(0, 1) = -2, which is 3 modulo 5. */
  lemma DicksonModDocstringMismatch()
    ensures PyMod(D(2, 1, 0), 5) == 1
    ensures DicksonModValue(2, 0, 5) == 3
  {
  }

  /** The three cardinality-2 indices (n1, n2, n3) = ((p^2+1)//2, p^2-1,
      (p^2+2p-1)//2); `//` by 2 floors, as Dafny's `/` does for a positive
      divisor.  For odd p the halvings are exact, for even p they drop 1/2. */
  function ClosedFormIndices(p: int): (r: (int, int, int))
    ensures r.1 + 1 == p * p
    ensures p % 2 == 1 ==> 2 * r.0 == p * p + 1 && 2 * r.2 == p * p + 2 * p - 1
    ensures p % 2 == 0 ==> 2 * r.0 == p * p && 2 * r.2 == p * p + 2 * p - 2
  {
    if p % 2 == 1 then ExactHalves(p); ((p * p + 1) / 2, p * p - 1, (p * p + 2 * p - 1) / 2)
    else EvenHalves(p); ((p * p + 1) / 2, p * p - 1, (p * p + 2 * p - 1) / 2)
  }

  /** For odd p the two halved indices are exact: (p*p + 1) // 2 and
      (p*p + 2p - 1) // 2 drop no remainder. */
  lemma ExactHalves(p: int)
    requires p % 2 == 1
    ensures 2 * ((p * p + 1) / 2) == p * p + 1
    ensures 2 * ((p * p + 2 * p - 1) / 2) == p * p + 2 * p - 1
  {
    var k := p / 2;
    assert p == 2 * k + 1;
    var q := 2 * k * k + 2 * k;
    assert p * p == 2 * q + 1;
    assert (p * p + 1) / 2 == q + 1;
    assert (p * p + 2 * p - 1) / 2 == q + p;
  }

  /** For even p both halvings truncate by one half. */
  lemma EvenHalves(p: int)
    requires p % 2 == 0
    ensures 2 * ((p * p + 1) / 2) == p * p
    ensures 2 * ((p * p + 2 * p - 1) / 2) == p * p + 2 * p - 2
  {
    var k := p / 2;
    assert p == 2 * k;
    var q := 2 * k * k;
    assert p * p == 2 * q;
    assert (p * p + 1) / 2 == q;
    assert (p * p + 2 * p - 1) / 2 == q + p - 1;
  }

  /** The per-x condition of the check: the value is x % p or (-x) % p. */
  predicate PlusOrMinus(n: int, x: int, p: int)
    requires p != 0
  {
    DicksonModValue(n, x, p) == PyMod(x, p) || DicksonModValue(n, x, p) == PyMod(-x, p)
  }

  /** The distinct values `dickson_mod` takes on [0, p). */
  function ClassicalValueSet(n: int, p: int): set<int> {
    set x | 0 <= x < p :: DicksonModValue(n, x, p)
  }

  /** `[dickson_mod(n, xv, p) for xv in range(p)]`; empty when p <= 0. */
  method ModValues(n: int, p: int) returns (values: seq<int>)
    ensures p <= 0 ==> values == []
    ensures p > 0 ==> |values| == p && forall x :: 0 <= x < p ==> values[x] == DicksonModValue(n, x, p)
  {
    values := [];
    var xv := 0;
    while xv < p
      invariant (xv == 0 || 0 < xv <= p) && |values| == xv
      invariant forall x :: 0 <= x < xv ==> values[x] == DicksonModValue(n, x, p)
    {
      var v := DicksonMod(n, xv, p);
      values := values + [v.value];
      xv := xv + 1;
    }
  }

  /** `check_n(n, label)` without its printing: the sorted distinct values
      and the `matches_pm` flag, which the loop clears and leaves at the
      first x whose value is neither x nor -x. */
  method CheckN(n: int, p: int) returns (uniq: seq<int>, matchesPm: bool)
    ensures StrictlyIncreasing(uniq)
    ensures forall v :: v in uniq <==> v in ClassicalValueSet(n, p)
    ensures matchesPm <==> forall x :: 0 <= x < p ==> PlusOrMinus(n, x, p)
  {
    var values := ModValues(n, p);
    DistinctValues(n, p, values);
    uniq := SortSet(set v | v in values);
    matchesPm := true;
    var xv := 0;
    while xv < p
      invariant xv == 0 || 0 < xv <= p
      invariant matchesPm
      invariant forall x :: 0 <= x < xv ==> PlusOrMinus(n, x, p)
    {
      var val := DicksonMod(n, xv, p);
      if !(val.value == PyMod(xv, p) || val.value == PyMod(-xv, p)) {
        assert !PlusOrMinus(n, xv, p);
        matchesPm := false;
        break;
      }
      xv := xv + 1;
    }
  }

  /** The members of the list of values are the value set. */
  lemma DistinctValues(n: int, p: int, values: seq<int>)
    requires p <= 0 ==> values == []
    requires p > 0 ==> |values| == p && forall x :: 0 <= x < p ==> values[x] == DicksonModValue(n, x, p)
    ensures (set v | v in values) == ClassicalValueSet(n, p)
  {
    forall v | v in ClassicalValueSet(n, p) ensures v in values {
      var x :| 0 <= x < p && v == DicksonModValue(n, x, p);
      assert values[x] == v;
    }
    forall v | v in values ensures v in ClassicalValueSet(n, p) {
      var x :| 0 <= x < |values| && v == values[x];
    }
  }

  /** The printed conclusion "image size <= 2" does not follow from the
      flag: at n = 1 every value is x itself, so the flag holds while the
      image is all of [0, p), more than two values once p >= 3. */
  lemma PlusOrMinusDoesNotBoundImage(p: int)
    requires p >= 3
    ensures forall x :: 0 <= x < p ==> PlusOrMinus(1, x, p)
    ensures |ClassicalValueSet(1, p)| > 2
  {
    forall x | 0 <= x < p ensures DicksonModValue(1, x, p) == x {
      PyModOfCanonical(x, p);
    }
    assert {0, 1, 2} <= ClassicalValueSet(1, p) by {
      assert DicksonModValue(1, 0, p) == 0;
      assert DicksonModValue(1, 1, p) == 1;
      assert DicksonModValue(1, 2, p) == 2;
    }
    assert |{0, 1, 2}| == 3;
    SubsetSize({0, 1, 2}, ClassicalValueSet(1, p));
  }
}
