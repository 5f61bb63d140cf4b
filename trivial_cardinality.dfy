/** scripts/visualization/plot_q4_trivial_cardinality.py: its own evaluator
    of D_n(1, x) modulo p and the value sets it builds at n = 0, 1 and p. */
module TrivialCardinality {
  import opened Outcomes
  import opened PyArith
  import opened Dickson

  /** `reversed_dickson_polynomial(n, x, p)`: every path starts with `2 % p`
      or `1 % p`, so p == 0 fails; a negative index skips the loop and
      returns `1 % p`; otherwise D_n(1, x) mod p.  `x` itself is never
      reduced, only the running terms. */
  method ReversedDicksonPolynomial(n: int, x: int, p: int) returns (r: Result<int>)
    ensures p == 0 ==> r == Err(ZeroDivisionError)
    ensures p != 0 && 0 <= n ==> r == Ok(PyMod(D(n, 1, x), p))
    ensures p != 0 && n < 0 ==> r == Ok(PyMod(1, p))
  {
    if p == 0 {
      return Err(ZeroDivisionError);
    }
    if n == 0 {
      return Ok(PyMod(2, p));
    }
    if n == 1 {
      return Ok(PyMod(1, p));
    }
    var dPrev, dCurr := PyMod(2, p), PyMod(1, p);
    if n < 0 {
      return Ok(dCurr);  // range(2, n + 1) is empty
    }
    for i := 2 to n + 1
      invariant dPrev == PyMod(D(i - 2, 1, x), p)
      invariant dCurr == PyMod(D(i - 1, 1, x), p)
    {
      PyModIdempotent(D(i - 1, 1, x), p);
      PyModIdempotent(D(i - 2, 1, x), p);
      PyModLinearStep(1, D(i - 1, 1, x), x, D(i - 2, 1, x), 1, dCurr, x, dPrev, p);
      var dNext := PyMod(dCurr - x * dPrev, p);
      dPrev, dCurr := dCurr, dNext;
    }
    return Ok(dCurr);
  }

  /** The set `values` built by `values.add(...)` over x in range(p):
      the value set of D_n(1, .) modulo p, and {1 % p} for a negative index. */
  method TrivialValueSet(n: int, p: int) returns (values: set<int>)
    ensures 0 <= n ==> values == ValueSetOf(n, p, 1)
    ensures n < 0 ==> values == (if p > 0 then {PyMod(1, p)} else {})
  {
    values := {};
    var x := 0;
    while x < p
      invariant x == 0 || 0 < x <= p
      invariant 0 <= n ==> values == set y | 0 <= y < x :: PyMod(D(n, 1, y), p)
      invariant n < 0 ==> values == (if x > 0 then {PyMod(1, p)} else {})
    {
      var v := ReversedDicksonPolynomial(n, x, p);
      values := values + {v.value};
      x := x + 1;
    }
    if 0 <= n {
      forall v | v in ValueSetOf(n, p, 1) ensures v in values {
        var y :| 0 <= y < p && v == PyMod(D(n, 1, y), p);
        assert y < x;
        assert values == set z | 0 <= z < x :: PyMod(D(n, 1, z), p);
        assert PyMod(D(n, 1, y), p) in set z | 0 <= z < x :: PyMod(D(n, 1, z), p);
      }
      forall v | v in values ensures v in ValueSetOf(n, p, 1) {
        var y :| 0 <= y < x && v == PyMod(D(n, 1, y), p);
      }
    }
  }

  /** n = 0 and n = 1: D_0 = 2 and D_1 = 1 whatever x is, so both value sets
      are singletons, {2} and {1} once p >= 3. */
  lemma TrivialIndices(p: int)
    requires p > 0
    ensures ValueSetOf(0, p, 1) == {PyMod(2, p)}
    ensures ValueSetOf(1, p, 1) == {PyMod(1, p)}
    ensures p >= 3 ==> PyMod(2, p) == 2 && PyMod(1, p) == 1
  {
    assert PyMod(D(0, 1, 0), p) in ValueSetOf(0, p, 1);
    assert PyMod(D(1, 1, 0), p) in ValueSetOf(1, p, 1);
    if p >= 3 {
      PyModOfCanonical(2, p);
      PyModOfCanonical(1, p);
    }
  }

  /** D_5(1, x) = 1 - 5x + 5x^2 over the integers. */
  lemma FifthPolynomial(x: int)
    ensures D(5, 1, x) == 1 + 5 * (x * x - x)
  {
    assert D(2, 1, x) == 1 - 2 * x;
    assert D(3, 1, x) == 1 - 3 * x;
    assert D(4, 1, x) == 1 - 4 * x + 2 * x * x;
  }

  /** D_7(1, x) = 1 - 7x + 14x^2 - 7x^3 over the integers. */
  lemma SeventhPolynomial(x: int)
    ensures D(7, 1, x) == 1 + 7 * (2 * x * x - x - x * x * x)
  {
    var x2 := x * x;
    var x3 := x * x * x;
    assert D(2, 1, x) == 1 - 2 * x;
    assert D(3, 1, x) == 1 - 3 * x;
    TimesX(x, 1, -2, 0);
    assert D(4, 1, x) == 1 - 4 * x + 2 * x2;
    TimesX(x, 1, -3, 0);
    assert D(5, 1, x) == 1 - 5 * x + 5 * x2;
    TimesX(x, 1, -4, 2);
    assert D(6, 1, x) == 1 - 6 * x + 9 * x2 - 2 * x3;
    TimesX(x, 1, -5, 5);
    assert D(7, 1, x) == 1 - 7 * x + 14 * x2 - 7 * x3;
  }

  /** Multiplying a quadratic in x by x. */
  lemma TimesX(x: int, a: int, b: int, c: int)
    ensures x * (a + b * x + c * (x * x)) == a * x + b * (x * x) + c * (x * x * x)
  {
  }

  /** For p = 5 and p = 7 the value set at n = p is {1}: D_p(1, x) is 1 plus
      a multiple of p for every integer x. */
  lemma PrimeIndexSingleton(p: int)
    requires p == 5 || p == 7
    ensures ValueSetOf(p, p, 1) == {1}
  {
    forall x | 0 <= x < p ensures PyMod(D(p, 1, x), p) == 1 {
      if p == 5 {
        FifthPolynomial(x);
        PyModAddMultiple(1, x * x - x, 5);
      } else {
        SeventhPolynomial(x);
        PyModAddMultiple(1, 2 * x * x - x - x * x * x, 7);
      }
      PyModOfCanonical(1, p);
    }
    assert PyMod(D(p, 1, 0), p) in ValueSetOf(p, p, 1);
  }
}
