/** Integer number theory the scripts rely on: primality as trial division
    defines it, greatest common divisors with Bezout coefficients, and the
    inverse of a unit modulo a prime. */
module NumberTheory {
  import opened PyArith

  /** `n` is prime: at least 2 and no d in [2, n) divides it. */
  predicate Prime(n: int) {
    n >= 2 && forall d :: 2 <= d < n ==> n % d != 0
  }

  lemma MulPositiveMono(a: int, b: int, c: int)
    requires 0 < a <= b && c > 0
    ensures a * c <= b * c
  {
  }

  /** `q * d` leaves no remainder modulo a positive `d`. */
  lemma MultipleMod(q: int, d: int)
    requires d > 0
    ensures (q * d) % d == 0
  {
    PyModAddMultiple(0, q, d);
  }

  /** A composite n has a proper divisor below any bound i with i*i > n:
      trial division up to the square root is enough. */
  lemma DivisorBelowRoot(n: int, d: int, i: int) returns (e: int)
    requires 2 <= d < n && n % d == 0 && 0 < i && n < i * i
    ensures 2 <= e < i && n % e == 0
  {
    var c := n / d;
    assert n == d * c;
    if d < i {
      e := d;
    } else {
      if c >= i {
        MulPositiveMono(i, d, i);
        MulPositiveMono(i, c, d);
      }
      e := c;
      MultipleMod(d, c);
    }
  }

  /** Greatest common divisor of two naturals by Euclid's algorithm, with
      Bezout coefficients: g == s*a + t*b and g divides both. */
  function ExtendedGcd(a: nat, b: nat): (r: (nat, int, int))
    ensures r.0 == r.1 * a + r.2 * b
    ensures b > 0 ==> r.0 > 0
    ensures a > 0 ==> r.0 > 0
    ensures r.0 > 0 ==> a % r.0 == 0 && b % r.0 == 0
    decreases b
  {
    if b == 0 then (a, 1, 0)
    else
      var q := a / b;
      var rest := ExtendedGcd(b, a % b);
      var g, s, t := rest.0, rest.1, rest.2;
      assert a == q * b + a % b;
      assert g == t * a + (s - t * q) * b by {
        assert g == s * b + t * (a - q * b);
      }
      DividesCombination(g, b, a % b, q);
      (g, t, s - t * q)
  }

  /** A common divisor of b and r divides q*b + r. */
  lemma DividesCombination(g: int, b: int, r: int, q: int)
    requires g > 0 && b % g == 0 && r % g == 0
    ensures (q * b + r) % g == 0
  {
    var kb := PyModDecompose(b, g);
    var kr := PyModDecompose(r, g);
    assert q * b + r == (q * kb + kr) * g;
    MultipleMod(q * kb + kr, g);
  }

  /** The only positive divisors of a prime are 1 and itself. */
  lemma PrimeDivisor(p: int, g: int)
    requires Prime(p) && 0 < g && p % g == 0
    ensures g == 1 || g == p
  {
  }

  /** A residue that is not 0 modulo a prime p has an inverse modulo p. */
  lemma InverseModPrime(p: int, a: int) returns (b: int)
    requires Prime(p) && PyMod(a, p) != 0
    ensures PyMod(a * b, p) == 1
  {
    var r := PyMod(a, p);
    var c;
    b, c := UnitBezout(p, r);
    PyModIdempotent(a, p);
    PyModMul(r, b, a, b, p);
    PyModAddMultiple(r * b, c, p);
    PyModOfCanonical(1, p);
  }

  /** A residue r in (0, p) of a prime p has Bezout coefficients giving 1. */
  lemma UnitBezout(p: int, r: int) returns (b: int, c: int)
    requires Prime(p) && 0 < r < p
    ensures r * b + c * p == 1
  {
    var e := ExtendedGcd(r, p);
    PrimeDivisor(p, e.0);
    b, c := e.1, e.2;
  }

  /** c to the power n. */
  function Pow(c: int, n: nat): int {
    if n == 0 then 1 else c * Pow(c, n - 1)
  }

  /** Divisibility is transitive: e | r and r | n give e | n. */
  lemma DividesTransitive(n: int, r: int, e: int)
    requires r > 0 && e > 0 && n % r == 0 && r % e == 0
    ensures n % e == 0
  {
    var q1 := n / r;
    var q2 := r / e;
    assert n == r * q1 && r == e * q2;
    assert n == (q2 * q1) * e;
    MultipleMod(q2 * q1, e);
  }

  /** Euclid's lemma: a prime that divides a product and not its first
      factor divides the second. */
  lemma Euclid(q: int, a: int, b: int)
    requires Prime(q) && (a * b) % q == 0 && a % q != 0
    ensures b % q == 0
  {
    var c := InverseModPrime(q, a);
    PyModOfCanonical(0, q);
    PyModOfCanonical(1, q);
    PyModMul(c, 0, c, a * b, q);
    assert c * (a * b) == b * (a * c);
    PyModMul(b, 1, b, a * c, q);
  }
}
