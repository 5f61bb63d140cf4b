/** The shared evaluators of scripts/utilities/dickson.py: the reversed
    Dickson recurrence D_n(a, x) and the classical one E_n(x, a), each
    evaluated by a loop over a running pair, optionally reduced modulo a
    modulus, and the value set {D_n(a, x) mod p : x in [0, p)}. */
module Dickson {
  import opened Outcomes
  import opened PyArith
  import opened NumberTheory

  /** The reversed Dickson recurrence over the integers:
      D_0 = 2, D_1 = a, D_n = a*D_{n-1} - x*D_{n-2}. */
  function D(n: nat, a: int, x: int): int {
    if n == 0 then 2
    else if n == 1 then a
    else a * D(n - 1, a, x) - x * D(n - 2, a, x)
  }

  /** The classical first-kind Dickson recurrence over the integers:
      E_0 = 2, E_1 = x, E_n = x*E_{n-1} - a*E_{n-2}. */
  function E(n: nat, x: int, a: int): int {
    if n == 0 then 2
    else if n == 1 then x
    else x * E(n - 1, x, a) - a * E(n - 2, x, a)
  }

  /** The optional final reduction: `v % m` under a modulus, `v` without. */
  function Reduce(v: int, modulus: Option<int>): int
    requires modulus != Some(0)
  {
    match modulus
    case None => v
    case Some(m) => PyMod(v, m)
  }

  /** `reversed_dickson(n, a, x, modulus)`: fails for a negative index,
      fails on the first reduction when the modulus is 0, and otherwise
      returns D_n(a, x) reduced by the modulus, although the loop itself
      reduces `a`, `x` and every intermediate term as it goes. */
  method ReversedDickson(n: int, a: int, x: int, modulus: Option<int>) returns (r: Result<int>)
    ensures n < 0 ==> r == Err(NegativeIndex)
    ensures 0 <= n && modulus == Some(0) ==> r == Err(ZeroDivisionError)
    ensures 0 <= n && modulus != Some(0) ==> r == Ok(Reduce(D(n, a, x), modulus))
  {
    if n < 0 {
      return Err(NegativeIndex);
    }
    var ar, xr := a, x;
    if modulus.Some? {
      if modulus.value == 0 {
        return Err(ZeroDivisionError);
      }
      ar, xr := PyMod(a, modulus.value), PyMod(x, modulus.value);
      PyModIdempotent(a, modulus.value);
      PyModIdempotent(x, modulus.value);
    }
    if n == 0 {
      return Ok(if modulus.Some? then PyMod(2, modulus.value) else 2);
    }
    if n == 1 {
      return Ok(if modulus.Some? then PyMod(ar, modulus.value) else ar);
    }
    var prev2, prev1 := 2, ar;
    for i := 2 to n + 1
      invariant modulus.None? ==> prev2 == D(i - 2, a, x) && prev1 == D(i - 1, a, x)
      invariant modulus.Some? ==> PyMod(prev2, modulus.value) == PyMod(D(i - 2, a, x), modulus.value)
      invariant modulus.Some? ==> prev1 == PyMod(D(i - 1, a, x), modulus.value)
    {
      var cur := ar * prev1 - xr * prev2;
      if modulus.Some? {
        var m := modulus.value;
        PyModIdempotent(D(i - 1, a, x), m);
        PyModLinearStep(a, D(i - 1, a, x), x, D(i - 2, a, x), ar, prev1, xr, prev2, m);
        cur := PyMod(cur, m);
      }
      prev2, prev1 := prev1, cur;
    }
    return Ok(prev1);
  }

  /** `reversed_dickson_d1(n, x, modulus)`: the canonical variant a = 1. */
  method ReversedDicksonD1(n: int, x: int, modulus: int) returns (r: Result<int>)
    ensures n < 0 ==> r == Err(NegativeIndex)
    ensures 0 <= n && modulus == 0 ==> r == Err(ZeroDivisionError)
    ensures 0 <= n && modulus != 0 ==> r == Ok(PyMod(D(n, 1, x), modulus))
  {
    r := ReversedDickson(n, 1, x, Some(modulus));
  }

  /** `classical_dickson(n, x, a, modulus)`: the same loop with the roles of
      the two parameters exchanged in the recurrence. */
  method ClassicalDickson(n: int, x: int, a: int, modulus: Option<int>) returns (r: Result<int>)
    ensures n < 0 ==> r == Err(NegativeIndex)
    ensures 0 <= n && modulus == Some(0) ==> r == Err(ZeroDivisionError)
    ensures 0 <= n && modulus != Some(0) ==> r == Ok(Reduce(E(n, x, a), modulus))
  {
    if n < 0 {
      return Err(NegativeIndex);
    }
    var ar, xr := a, x;
    if modulus.Some? {
      if modulus.value == 0 {
        return Err(ZeroDivisionError);
      }
      ar, xr := PyMod(a, modulus.value), PyMod(x, modulus.value);
      PyModIdempotent(a, modulus.value);
      PyModIdempotent(x, modulus.value);
    }
    if n == 0 {
      return Ok(if modulus.Some? then PyMod(2, modulus.value) else 2);
    }
    if n == 1 {
      return Ok(if modulus.Some? then PyMod(xr, modulus.value) else xr);
    }
    var prev2, prev1 := 2, xr;
    for i := 2 to n + 1
      invariant modulus.None? ==> prev2 == E(i - 2, x, a) && prev1 == E(i - 1, x, a)
      invariant modulus.Some? ==> PyMod(prev2, modulus.value) == PyMod(E(i - 2, x, a), modulus.value)
      invariant modulus.Some? ==> prev1 == PyMod(E(i - 1, x, a), modulus.value)
    {
      var cur := xr * prev1 - ar * prev2;
      if modulus.Some? {
        var m := modulus.value;
        PyModIdempotent(E(i - 1, x, a), m);
        PyModLinearStep(x, E(i - 1, x, a), a, E(i - 2, x, a), xr, prev1, ar, prev2, m);
        cur := PyMod(cur, m);
      }
      prev2, prev1 := prev1, cur;
    }
    return Ok(prev1);
  }

  /** The value set {D_n(a, x) mod p : 0 <= x < p}; empty when p <= 0. */
  function ValueSetOf(n: nat, p: int, a: int): set<int> {
    set x | 0 <= x < p :: PyMod(D(n, a, x), p)
  }

  /** `reversed_value_set(n, p, a)`: the set comprehension never calls the
      evaluator when `range(p)` is empty, so p <= 0 gives the empty set even
      for a negative index; otherwise a negative index fails on x = 0. */
  function ReversedValueSet(n: int, p: int, a: int): (r: Result<set<int>>)
    ensures p <= 0 ==> r == Ok({})
    ensures 0 < p && n < 0 ==> r == Err(NegativeIndex)
    ensures 0 < p && 0 <= n ==> r.Ok? && r.value != {} && |r.value| <= p
    ensures r.Ok? ==> forall v :: v in r.value ==> 0 <= v < p
  {
    if p <= 0 then Ok({})
    else if n < 0 then Err(NegativeIndex)
    else
      ValueSetBounds(n, p, a);
      Ok(ValueSetOf(n, p, a))
  }

  /** The value set of a positive modulus is a non-empty set of at most p
      residues in [0, p). */
  lemma ValueSetBounds(n: nat, p: int, a: int)
    requires p > 0
    ensures PyMod(D(n, a, 0), p) in ValueSetOf(n, p, a)
    ensures forall v :: v in ValueSetOf(n, p, a) ==> 0 <= v < p
    ensures |ValueSetOf(n, p, a)| <= p
  {
    var f := x => PyMod(D(n, a, x), p);
    var image := set x | 0 <= x < p :: f(x);
    forall v | v in ValueSetOf(n, p, a) ensures v in image {
      var x :| 0 <= x < p && v == PyMod(D(n, a, x), p);
      assert f(x) == v;
    }
    forall v | v in image ensures v in ValueSetOf(n, p, a) {
      var x :| 0 <= x < p && v == f(x);
    }
    assert ValueSetOf(n, p, a) == image;
    ImageOfPrefix(f, p);
  }

  /** The image of the first k integers under any map has at most k members. */
  lemma {:induction false} ImageOfPrefix(f: int -> int, k: nat)
    ensures |set x | 0 <= x < k :: f(x)| <= k
  {
    if k > 0 {
      ImageOfPrefix(f, k - 1);
      var smaller := set x | 0 <= x < k - 1 :: f(x);
      assert (set x | 0 <= x < k :: f(x)) == smaller + {f(k - 1)};
    } else {
      assert (set x | 0 <= x < k :: f(x)) == {};
    }
  }

  /** A subset is no larger than its superset. */
  lemma SubsetSize<T>(s: set<T>, t: set<T>)
    requires s <= t
    ensures |s| <= |t|
  {
    assert t == s + (t - s);
  }

  /** For n >= 2 the reduced value obeys the recurrence on reduced values:
      the pair the loop keeps, (D_{i-1} mod m, D_i mod m), determines the
      next reduced term. */
  lemma ReducedRecurrence(n: nat, a: int, x: int, m: int)
    requires n >= 2 && m != 0
    ensures PyMod(D(n, a, x), m)
         == PyMod(PyMod(a, m) * PyMod(D(n - 1, a, x), m) - PyMod(x, m) * PyMod(D(n - 2, a, x), m), m)
  {
    PyModIdempotent(a, m);
    PyModIdempotent(x, m);
    PyModIdempotent(D(n - 1, a, x), m);
    PyModIdempotent(D(n - 2, a, x), m);
    PyModLinearStep(a, D(n - 1, a, x), x, D(n - 2, a, x),
                    PyMod(a, m), PyMod(D(n - 1, a, x), m), PyMod(x, m), PyMod(D(n - 2, a, x), m), m);
  }

  /** Only the residues of `a` and `x` matter: congruent parameters give
      congruent values at every index. */
  lemma {:induction false} CongruentParameters(n: nat, a: int, x: int, a': int, x': int, m: int)
    requires m != 0 && PyMod(a', m) == PyMod(a, m) && PyMod(x', m) == PyMod(x, m)
    ensures PyMod(D(n, a', x'), m) == PyMod(D(n, a, x), m)
  {
    if n >= 2 {
      CongruentParameters(n - 1, a, x, a', x', m);
      CongruentParameters(n - 2, a, x, a', x', m);
      PyModLinearStep(a, D(n - 1, a, x), x, D(n - 2, a, x), a', D(n - 1, a', x'), x', D(n - 2, a', x'), m);
    }
  }

  /** Shifting `a` or `x` by a multiple of the modulus leaves the reduced
      value unchanged. */
  lemma ShiftInvariance(n: nat, a: int, x: int, i: int, j: int, m: int)
    requires m != 0
    ensures PyMod(D(n, a + i * m, x + j * m), m) == PyMod(D(n, a, x), m)
  {
    PyModAddMultiple(a, i, m);
    PyModAddMultiple(x, j, m);
    CongruentParameters(n, a, x, a + i * m, x + j * m, m);
  }

  /** The classical recurrence is the reversed one with the two parameters
      exchanged: E_n(x = u, a = v) = D_n(a = u, x = v). */
  lemma {:induction false} ClassicalIsReversedSwapped(n: nat, u: int, v: int)
    ensures E(n, u, v) == D(n, u, v)
  {
    if n >= 2 {
      ClassicalIsReversedSwapped(n - 1, u, v);
      ClassicalIsReversedSwapped(n - 2, u, v);
    }
  }

  /** Scaling identity over the integers: D_n(c, c^2 * y) = c^n * D_n(1, y). */
  lemma {:induction false} Scaling(n: nat, c: int, y: int)
    ensures D(n, c, c * c * y) == Pow(c, n) * D(n, 1, y)
  {
    if n >= 2 {
      Scaling(n - 1, c, y);
      Scaling(n - 2, c, y);
      ScalingStep(c, Pow(c, n - 2), D(n - 1, 1, y), D(n - 2, 1, y), y);
    }
  }

  lemma ScalingStep(c: int, q: int, u: int, v: int, y: int)
    ensures c * (c * q * u) - c * c * y * (q * v) == c * (c * q) * (u - y * v)
  {
  }
}
