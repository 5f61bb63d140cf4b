/** Python's integer remainder `a % m` and the congruence facts the
    recurrence evaluators rely on.  Python's `%` takes the sign of the
    divisor (it floors the quotient); Dafny's `%` is Euclidean, so the two
    differ when the modulus is negative.  `PyMod` is Python's operator,
    written out. */
module PyArith {

  /** Python's `a % m` for a non-zero modulus: the representative of `a`
      modulo `m` that lies in [0, m) when m > 0 and in (m, 0] when m < 0. */
  function PyMod(a: int, m: int): (r: int)
    requires m != 0
    ensures m > 0 ==> 0 <= r < m
    ensures m < 0 ==> m < r <= 0
  {
    if m > 0 then a % m else -((-a) % (-m))
  }

  /** `r` lies in the range Python's `%` returns for modulus `m`. */
  predicate Canonical(r: int, m: int) {
    (m > 0 ==> 0 <= r < m) && (m < 0 ==> m < r <= 0)
  }

  lemma MulAtLeast(m: int, k: int)
    requires m > 0 && k >= 1
    ensures m * k >= m
  {
  }

  /** Euclidean division has a unique remainder: for m > 0, exhibiting
      `a` as `r + k*m` with 0 <= r < m fixes `a % m` as `r`. */
  lemma RemainderUnique(a: int, m: int, k: int, r: int)
    requires m > 0 && 0 <= r < m && a == r + k * m
    ensures a % m == r
  {
    var q, s := a / m, a % m;
    assert a == q * m + s;
    var diff := k - q;
    assert diff * m == s - r;
    if diff >= 1 {
      MulAtLeast(m, diff);
    } else if -diff >= 1 {
      MulAtLeast(m, -diff);
    }
  }

  /** A remainder is unique: whatever quotient `k` exhibits `a` as
      `r + k*m` with `r` in Python's range, `PyMod(a, m)` is `r`. */
  lemma PyModUnique(a: int, m: int, k: int, r: int)
    requires m != 0 && Canonical(r, m) && a == r + k * m
    ensures PyMod(a, m) == r
  {
    if m > 0 {
      RemainderUnique(a, m, k, r);
    } else {
      assert -a == -r + k * (-m);
      RemainderUnique(-a, -m, k, -r);
    }
  }

  /** Every integer is its Python remainder plus a multiple of the modulus. */
  lemma PyModDecompose(a: int, m: int) returns (k: int)
    requires m != 0
    ensures a == PyMod(a, m) + k * m
  {
    if m > 0 {
      k := a / m;
    } else {
      k := (-a) / (-m);
      assert -a == (-m) * k + (-a) % (-m);
    }
  }

  /** Adding a multiple of the modulus does not change the remainder. */
  lemma PyModAddMultiple(a: int, k: int, m: int)
    requires m != 0
    ensures PyMod(a + k * m, m) == PyMod(a, m)
  {
    var q := PyModDecompose(a, m);
    assert a + k * m == PyMod(a, m) + (q + k) * m;
    PyModUnique(a + k * m, m, q + k, PyMod(a, m));
  }

  /** Reducing twice is reducing once. */
  lemma PyModIdempotent(a: int, m: int)
    requires m != 0
    ensures PyMod(PyMod(a, m), m) == PyMod(a, m)
  {
    PyModUnique(PyMod(a, m), m, 0, PyMod(a, m));
  }

  /** A value already in Python's range is its own remainder. */
  lemma PyModOfCanonical(r: int, m: int)
    requires m != 0 && Canonical(r, m)
    ensures PyMod(r, m) == r
  {
    PyModUnique(r, m, 0, r);
  }

  /** Two integers have the same remainder exactly when their difference
      is a multiple of the modulus; this direction produces the multiple. */
  lemma SameRemainderDifference(a: int, b: int, m: int) returns (k: int)
    requires m != 0 && PyMod(a, m) == PyMod(b, m)
    ensures a == b + k * m
  {
    var qa := PyModDecompose(a, m);
    var qb := PyModDecompose(b, m);
    k := qa - qb;
    assert a - b == (qa - qb) * m;
  }

  lemma ProductShift(a': int, a: int, i: int, u': int, u: int, j: int, m: int)
    requires a' == a + i * m && u' == u + j * m
    ensures a' * u' == a * u + (a * j + i * u + i * j * m) * m
  {
  }

  /** Reduction is a ring homomorphism for the expression the recurrences
      evaluate: replacing each of `a`, `u`, `x`, `v` by a congruent value
      leaves `a*u - x*v` in the same residue class. */
  lemma PyModLinearStep(a: int, u: int, x: int, v: int,
                        a': int, u': int, x': int, v': int, m: int)
    requires m != 0
    requires PyMod(a', m) == PyMod(a, m) && PyMod(u', m) == PyMod(u, m)
    requires PyMod(x', m) == PyMod(x, m) && PyMod(v', m) == PyMod(v, m)
    ensures PyMod(a' * u' - x' * v', m) == PyMod(a * u - x * v, m)
  {
    var i := SameRemainderDifference(a', a, m);
    var j := SameRemainderDifference(u', u, m);
    var k := SameRemainderDifference(x', x, m);
    var l := SameRemainderDifference(v', v, m);
    var c := (a * j + i * u + i * j * m) - (x * l + k * v + k * l * m);
    ProductShift(a', a, i, u', u, j, m);
    ProductShift(x', x, k, v', v, l, m);
    assert a' * u' - x' * v' == (a * u - x * v) + c * m;
    PyModAddMultiple(a * u - x * v, c, m);
  }

  /** Reduction respects multiplication. */
  lemma PyModMul(a: int, b: int, a': int, b': int, m: int)
    requires m != 0
    requires PyMod(a', m) == PyMod(a, m) && PyMod(b', m) == PyMod(b, m)
    ensures PyMod(a' * b', m) == PyMod(a * b, m)
  {
    PyModLinearStep(a, b, 0, 0, a', b', 0, 0, m);
  }
}
