/** `divisors(n)` of scripts/visualization/plot_q3_cardinality_c_indices.py
    (copied unchanged into scripts/investigation/q2_missing_cardinality_patterns.py):
    trial division up to the integer square root, collecting each divisor
    found together with its co-divisor. */
module DivisorEnumeration {
  import opened Outcomes
  import opened PyArith
  import opened NumberTheory
  import opened Dickson

  /** The integer square root: the largest r with r*r <= n.  It stands for
      `int(math.sqrt(n))`. */
  function ISqrt(n: nat): (r: nat)
    ensures r * r <= n < (r + 1) * (r + 1)
  {
    if n == 0 then 0
    else
      var s := ISqrt(n - 1);
      if (s + 1) * (s + 1) <= n then s + 1 else s
  }

  /** The positive divisors of n. */
  function DivisorSet(n: int): set<int> {
    set d | 1 <= d <= n && n % d == 0
  }

  /** The divisors of n with d < i or n / d < i: what the loop has collected
      before candidate i. */
  ghost predicate Collected(divs: set<int>, n: int, i: int) {
    forall d :: d in divs <==> 1 <= d <= n && n % d == 0 && (d < i || n / d < i)
  }

  /** Cancelling a positive factor. */
  lemma MulCancel(d: int, a: int, b: int)
    requires d > 0 && d * a == d * b
    ensures a == b
  {
    assert d * (a - b) == 0;
    if a - b >= 1 {
      MulAtLeast(d, a - b);
    } else if b - a >= 1 {
      MulAtLeast(d, b - a);
    }
  }

  /** n = d * e with d > 0 makes e the exact quotient. */
  lemma ExactQuotient(n: int, d: int, e: int)
    requires d > 0 && n == d * e
    ensures n % d == 0 && n / d == e
  {
    MultipleMod(e, d);
    assert n == d * (n / d) + n % d;
    MulCancel(d, n / d, e);
  }

  /** For a divisor d of n >= 1, n / d is a divisor too, with co-divisor d. */
  lemma CoDivisor(n: int, d: int)
    requires 1 <= d <= n && n % d == 0
    ensures d * (n / d) == n && 1 <= n / d <= n && n % (n / d) == 0 && n / (n / d) == d
  {
    var e := n / d;
    assert n == d * e + n % d;
    assert n == d * e;
    if e <= 0 {
      MulNonPositive(d, e);
    }
    MulPositiveMono(1, d, e);
    ExactQuotient(n, e, d);
  }

  lemma MulNonPositive(d: int, e: int)
    requires d >= 0 && e <= 0
    ensures d * e <= 0
  {
  }

  /** Two factors of n cannot both exceed its integer square root. */
  lemma SmallSide(n: nat, d: int)
    requires 1 <= d <= n && n % d == 0 && d > ISqrt(n)
    ensures n / d <= ISqrt(n)
  {
    var r := ISqrt(n);
    CoDivisor(n, d);
    var e := n / d;
    if e >= r + 1 {
      MulPositiveMono(r + 1, d, e);
      MulPositiveMono(r + 1, e, r + 1);
    }
  }

  /** A divisor of n >= 1 is at most n. */
  lemma DivisorAtMostN(n: int, i: int)
    requires n >= 1 && i >= 1 && n % i == 0
    ensures i <= n
  {
    var q := n / i;
    assert n == i * q;
    if q <= 0 {
      MulNonPositive(i, q);
    }
    MulPositiveMono(1, q, i);
  }

  /** The divisors candidate i contributes: d == i or n / d == i holds for
      a divisor d exactly when i divides n and d is i or n / i. */
  lemma Contribution(n: int, i: int, d: int)
    requires n >= 1 && i >= 1
    ensures (1 <= d <= n && n % d == 0 && (d == i || n / d == i))
        <==> (n % i == 0 && (d == i || d == n / i))
  {
    if 1 <= d <= n && n % d == 0 {
      CoDivisor(n, d);
    }
    if n % i == 0 {
      DivisorAtMostN(n, i);
      CoDivisor(n, i);
    }
  }

  /** Candidate i adds i and n / i when it divides n. */
  lemma CollectStep(divs: set<int>, n: int, i: int)
    requires n >= 1 && i >= 1 && Collected(divs, n, i)
    ensures n % i == 0 ==> Collected(divs + {i, n / i}, n, i + 1)
    ensures n % i != 0 ==> Collected(divs, n, i + 1)
  {
    var added := if n % i == 0 then {i, n / i} else {};
    forall d ensures d in divs + added <==> 1 <= d <= n && n % d == 0 && (d < i + 1 || n / d < i + 1) {
      Contribution(n, i, d);
    }
    assert Collected(divs + added, n, i + 1);
  }

  /** `divisors(n)`: for n < 0 `math.sqrt` fails; otherwise the set of
      positive divisors of n, empty for n = 0. */
  method Divisors(n: int) returns (r: Result<set<int>>)
    ensures n < 0 ==> r == Err(MathDomain)
    ensures n >= 0 ==> r == Ok(DivisorSet(n))
  {
    if n < 0 {
      return Err(MathDomain);
    }
    var divs: set<int> := {};
    var root := ISqrt(n);
    for i := 1 to root + 1
      invariant n >= 1 ==> Collected(divs, n, i)
      invariant n == 0 ==> divs == {}
    {
      if n % i == 0 {
        CollectStep(divs, n, i);
        divs := divs + {i, n / i};
      } else {
        CollectStep(divs, n, i);
      }
    }
    forall d | 1 <= d <= n && n % d == 0 ensures d in divs {
      if d > root {
        SmallSide(n, d);
      }
    }
    assert divs == DivisorSet(n);
    return Ok(divs);
  }

  /** The divisor set of n >= 1 holds 1 and n, is closed under d -> n / d,
      and has at most n members; that of n <= 0 is empty. */
  lemma DivisorSetFacts(n: int)
    ensures n >= 1 ==> 1 in DivisorSet(n) && n in DivisorSet(n)
    ensures forall d :: d in DivisorSet(n) ==> n / d in DivisorSet(n) && n / (n / d) == d
    ensures n <= 0 ==> DivisorSet(n) == {}
    ensures n >= 1 ==> |DivisorSet(n)| <= n
  {
    forall d | d in DivisorSet(n) ensures n / d in DivisorSet(n) && n / (n / d) == d {
      CoDivisor(n, d);
    }
    if n >= 1 {
      assert n % n == 0 && n % 1 == 0;
      var next := (x: int) => x + 1;
      var image := set x | 0 <= x < n :: next(x);
      ImageOfPrefix(next, n);
      forall d | d in DivisorSet(n) ensures d in image {
        assert next(d - 1) == d;
      }
      SubsetSize(DivisorSet(n), image);
    }
  }
}
