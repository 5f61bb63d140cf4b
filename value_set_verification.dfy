/** scripts/verification/verify_value_sets.py: the value set of D_n(1, x)
    modulo p as a sorted list, the three cases checked for each prime and
    the pass/fail comparison that folds into `all_passed`. */
module ValueSetVerification {
  import opened Outcomes
  import opened PyArith
  import opened Sorting
  import opened Dickson
  import opened NumberTheory
  import opened Formulas

  /** `reversed_dickson_polynomial(n, x, p)`: a thin wrapper over
      `reversed_dickson_d1` with the modulus p. */
  method ReversedDicksonPolynomial(n: int, x: int, p: int) returns (r: Result<int>)
    ensures n < 0 ==> r == Err(NegativeIndex)
    ensures 0 <= n && p == 0 ==> r == Err(ZeroDivisionError)
    ensures 0 <= n && p != 0 ==> r == Ok(PyMod(D(n, 1, x), p))
  {
    r := ReversedDicksonD1(n, x, p);
  }

  /** `compute_value_set(n, p)`: the distinct values over x in range(p) in
      increasing order.  An empty range gives [] without evaluating
      anything; otherwise a negative index fails at x = 0. */
  method ComputeValueSet(n: int, p: int) returns (r: Result<seq<int>>)
    ensures p <= 0 ==> r == Ok([])
    ensures 0 < p && n < 0 ==> r == Err(NegativeIndex)
    ensures 0 < p && 0 <= n ==> r.Ok? && StrictlyIncreasing(r.value)
    ensures 0 < p && 0 <= n ==> forall v :: v in r.value <==> v in ValueSetOf(n, p, 1)
    ensures 0 < p && 0 <= n ==> 1 <= |r.value| <= p && forall v :: v in r.value ==> 0 <= v < p
  {
    var values: set<int> := {};
    var x := 0;
    while x < p
      invariant x == 0 || (0 < x <= p && 0 <= n)
      invariant 0 <= n ==> values == set y | 0 <= y < x :: PyMod(D(n, 1, y), p)
      invariant x == 0 ==> values == {}
    {
      var value := ReversedDicksonPolynomial(n, x, p);
      if value.Err? {
        return Err(value.error);
      }
      values := values + {value.value};
      x := x + 1;
    }
    if 0 < p {
      ValueSetBounds(n, p, 1);
      forall v | v in ValueSetOf(n, p, 1) ensures v in values {
        var y :| 0 <= y < p && v == PyMod(D(n, 1, y), p);
        assert values == set z | 0 <= z < x :: PyMod(D(n, 1, z), p);
        assert PyMod(D(n, 1, y), p) in set z | 0 <= z < x :: PyMod(D(n, 1, z), p);
      }
      assert values == ValueSetOf(n, p, 1);
    }
    var sorted := SortSet(values);
    return Ok(sorted);
  }

  /** One entry of the dictionary `verify_for_prime` returns. */
  datatype Case = Case(n: int, expected: seq<int>, actual: seq<int>)

  /** `verify_for_prime(p)`: the cases n1 = p^2 - 1 with expected [1, 2],
      and n2 = (p^2+1)//2, n3 = (p^2+2p-1)//2 with expected [1, p-1].  The
      first two labels are exchanged with respect to the formulas script.
      None of the three evaluations can fail: for p > 0 every index is
      non-negative, and for p <= 0 the range is empty. */
  method VerifyForPrime(p: int) returns (cases: seq<Case>)
    ensures |cases| == 3
    ensures var idx := ClosedFormIndices(p);
      cases[0].n == idx.1 && cases[1].n == idx.0 && cases[2].n == idx.2
    ensures cases[0].expected == [1, 2]
    ensures cases[1].expected == [1, p - 1] && cases[2].expected == [1, p - 1]
    ensures forall i :: 0 <= i < 3 ==> ListsValueSet(cases[i].actual, cases[i].n, p)
  {
    var n1 := p * p - 1;
    var n2 := (p * p + 1) / 2;
    var n3 := (p * p + 2 * p - 1) / 2;
    if p > 0 {
      assert n3 >= 0 by {
        assert p * p >= 1 by { MulPositiveMono(1, p, p); }
      }
    }
    var a1 := ComputeValueSet(n1, p);
    var a2 := ComputeValueSet(n2, p);
    var a3 := ComputeValueSet(n3, p);
    cases := [Case(n1, [1, 2], a1.value), Case(n2, [1, p - 1], a2.value), Case(n3, [1, p - 1], a3.value)];
  }

  /** `actual` is what `compute_value_set(n, p)` returns: the value set in
      increasing order, and [] when the range is empty. */
  ghost predicate ListsValueSet(actual: seq<int>, n: int, p: int) {
    StrictlyIncreasing(actual) &&
    (p <= 0 ==> actual == []) &&
    (0 < p ==> 0 <= n && forall v :: v in actual <==> v in ValueSetOf(n, p, 1))
  }

  /** The comparison `sorted(expected) == sorted(actual)`. */
  function CasePasses(expected: seq<int>, actual: seq<int>): bool {
    Sort(expected) == Sort(actual)
  }

  /** Comparing sorted lists compares the lists as multisets. */
  lemma CasePassesMultiset(expected: seq<int>, actual: seq<int>)
    ensures CasePasses(expected, actual) <==> multiset(expected) == multiset(actual)
  {
    SortFacts(expected);
    SortFacts(actual);
    if multiset(expected) == multiset(actual) {
      AscendingUnique(Sort(expected), Sort(actual));
    }
  }

  /** Against an expected pair u < w, a case passes exactly when the value
      set is {u, w}. */
  lemma PairCasePasses(u: int, w: int, actual: seq<int>, n: int, p: int)
    requires u < w && ListsValueSet(actual, n, p)
    ensures CasePasses([u, w], actual) <==> 0 < p && ValueSetOf(n, p, 1) == {u, w}
  {
    CasePassesMultiset([u, w], actual);
    if multiset([u, w]) == multiset(actual) {
      assert u in multiset(actual) && w in multiset(actual);
      assert actual != [];
      forall v ensures v in actual <==> v == u || v == w {
        assert v in actual <==> v in multiset(actual);
      }
      assert 0 < p;
    }
    if 0 < p && ValueSetOf(n, p, 1) == {u, w} {
      StrictSameMembers(actual, [u, w]);
    }
  }

  /** Everything `main` checks about one prime: the three value sets are
      the ones the closed forms predict. */
  ghost predicate PrimePasses(p: int) {
    var idx := ClosedFormIndices(p);
    0 < p && 0 <= idx.0 && 0 <= idx.1 && 0 <= idx.2 &&
    ValueSetOf(idx.1, p, 1) == {1, 2} &&
    ValueSetOf(idx.0, p, 1) == {1, p - 1} &&
    ValueSetOf(idx.2, p, 1) == {1, p - 1}
  }

  /** The fold in `main`: `all_passed` stays true exactly when every case
      of every prime passes, which for the three cases of a prime means
      the value sets the closed forms predict. */
  method AllPassed(primes: seq<int>) returns (allPassed: bool)
    ensures allPassed <==> forall i :: 0 <= i < |primes| ==> PrimePasses(primes[i])
  {
    allPassed := true;
    for i := 0 to |primes|
      invariant allPassed <==> forall j :: 0 <= j < i ==> PrimePasses(primes[j])
    {
      allPassed := CheckPrime(primes[i], allPassed);
    }
  }

  /** One pass of the outer loop of `main`: run the three cases of p and
      fold their comparisons into the flag. */
  method CheckPrime(p: int, allPassed: bool) returns (r: bool)
    ensures r <==> allPassed && PrimePasses(p)
  {
    var cases := VerifyForPrime(p);
    r := FoldCases(cases, allPassed);
    PrimeCases(p, cases[0], cases[1], cases[2]);
    ThreeCases(cases, Passes);
  }

  /** A property holds for each of three cases exactly when it holds for
      the first, the second and the third. */
  lemma ThreeCases(cases: seq<Case>, holds: Case -> bool)
    requires |cases| == 3
    ensures (forall j :: 0 <= j < |cases| ==> holds(cases[j]))
        <==> holds(cases[0]) && holds(cases[1]) && holds(cases[2])
  {
  }

  /** The inner loop of `main` over the cases of one prime: a failing case
      clears the flag. */
  method FoldCases(cases: seq<Case>, allPassed: bool) returns (r: bool)
    ensures r <==> allPassed && forall j :: 0 <= j < |cases| ==> Passes(cases[j])
  {
    r := allPassed;
    for k := 0 to |cases|
      invariant r <==> allPassed && forall j :: 0 <= j < k ==> Passes(cases[j])
    {
      var passed := CasePasses(cases[k].expected, cases[k].actual);
      if !passed {
        r := false;
      }
    }
  }

  /** The comparison for one case. */
  predicate Passes(c: Case) {
    CasePasses(c.expected, c.actual)
  }

  /** The three cases of a prime pass together exactly when the prime
      passes. */
  lemma PrimeCases(p: int, c0: Case, c1: Case, c2: Case)
    requires var idx := ClosedFormIndices(p); c0.n == idx.1 && c1.n == idx.0 && c2.n == idx.2
    requires c0.expected == [1, 2] && c1.expected == [1, p - 1] && c2.expected == [1, p - 1]
    requires ListsValueSet(c0.actual, c0.n, p)
    requires ListsValueSet(c1.actual, c1.n, p)
    requires ListsValueSet(c2.actual, c2.n, p)
    ensures Passes(c0) && Passes(c1) && Passes(c2) <==> PrimePasses(p)
  {
    PairCasePasses(1, 2, c0.actual, c0.n, p);
    if p >= 3 {
      PairCasePasses(1, p - 1, c1.actual, c1.n, p);
      PairCasePasses(1, p - 1, c2.actual, c2.n, p);
    } else if 0 < p {
      // 2 is not a residue modulo p, so the first case already fails
      ValueSetBounds(c0.n, p, 1);
    }
  }
}
