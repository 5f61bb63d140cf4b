/** Trial-division factorisation and the arithmetic functions built on it
    (scripts/visualization/plot_q5_full_coverage.py, with an identical
    `factorize` in plot_q3_cardinality_c_indices.py).  A Python dict is
    modelled with its insertion order: the keys in the order they were first
    stored, and the map from key to value. */
module Factorization {
  import opened NumberTheory
  import opened Sorting

  /** A dict from integers to counts, in insertion order. */
  datatype Dict = Dict(keys: seq<int>, values: map<int, nat>)

  const EmptyDict := Dict([], map[])

  /** Keys listed once each, and exactly the keys of the map. */
  predicate WellFormed(f: Dict) {
    (forall i, j :: 0 <= i < j < |f.keys| ==> f.keys[i] != f.keys[j])
    && (forall k :: k in f.keys ==> k in f.values)
    && (forall k :: k in f.values ==> k in f.keys)
  }

  /** The statement `f[k] = f.get(k, 0) + 1`: a present key keeps its place
      and counts one more, an absent key is stored last with count 1. */
  function Increment(f: Dict, k: int): Dict {
    if k in f.values then Dict(f.keys, f.values[k := f.values[k] + 1])
    else Dict(f.keys + [k], f.values[k := 1])
  }

  /** Counting keeps a dict well formed, raises the count of k by one and
      changes no other count. */
  lemma IncrementFacts(f: Dict, k: int)
    ensures WellFormed(f) ==> WellFormed(Increment(f, k))
    ensures k in Increment(f, k).values
    ensures Increment(f, k).values[k] == (if k in f.values then f.values[k] else 0) + 1
    ensures forall j :: j in f.values && j != k ==> j in Increment(f, k).values && Increment(f, k).values[j] == f.values[j]
  {
  }

  /** The dict obtained by counting the entries of xs one after the other. */
  function Tally(xs: seq<int>): Dict {
    if xs == [] then EmptyDict
    else Increment(Tally(xs[..|xs| - 1]), xs[|xs| - 1])
  }

  /** Counting one more entry is one `Increment`. */
  lemma TallySnoc(xs: seq<int>, x: int)
    ensures Tally(xs + [x]) == Increment(Tally(xs), x)
  {
    assert (xs + [x])[..|xs|] == xs;
  }

  /** Product of a list. */
  function SeqProduct(xs: seq<int>): int {
    if xs == [] then 1 else xs[0] * SeqProduct(xs[1..])
  }

  /** The least divisor of n that is at least d, when n has none in [2, d). */
  function SmallestFactorFrom(n: int, d: int): (r: int)
    requires 2 <= d <= n
    ensures d <= r <= n && n % r == 0
    ensures forall e :: d <= e < r ==> n % e != 0
    decreases n - d
  {
    if n % d == 0 then d else SmallestFactorFrom(n, d + 1)
  }

  /** The least divisor of n above 1; it is prime. */
  function SmallestFactor(n: int): (r: int)
    requires n >= 2
    ensures Prime(r) && n % r == 0
    ensures forall e :: 2 <= e < r ==> n % e != 0
  {
    var r := SmallestFactorFrom(n, 2);
    forall e | 2 <= e < r ensures r % e != 0 {
      if r % e == 0 {
        DividesTransitive(n, r, e);
      }
    }
    r
  }

  /** The least divisor above 1 is pinned down by any divisor d that has no
      divisor of n in [2, d) below it. */
  lemma SmallestFactorIs(n: int, d: int)
    requires n >= 2 && d >= 2 && n % d == 0
    requires forall e :: 2 <= e < d ==> n % e != 0
    ensures SmallestFactor(n) == d
  {
  }

  /** The prime factors of n with multiplicity, in ascending order, each
      taken as the least divisor of what remains: the reference for what
      trial division finds. */
  function FactorList(n: int): seq<int>
    decreases if n < 1 then 0 else n
  {
    if n <= 1 then []
    else
      var q := SmallestFactor(n);
      QuotientBounds(n, q);
      [q] + FactorList(n / q)
  }

  /** Dividing n >= 2 by one of its divisors q >= 2 leaves a quotient in [1, n). */
  lemma QuotientBounds(n: int, q: int)
    requires 2 <= q <= n && n % q == 0
    ensures 1 <= n / q < n && n == q * (n / q)
  {
    var m := n / q;
    assert n == q * m;
    ProductSign(q, m);
  }

  /** For q >= 2 the product q * m has the sign of m and, for m >= 1, is
      at least 2 * m. */
  lemma ProductSign(q: int, m: int)
    requires q >= 2
    ensures m <= 0 ==> q * m <= 0
    ensures m >= 1 ==> q * m >= 2 * m
  {
    if m >= 1 {
      MulPositiveMono(2, q, m);
    }
  }

  /** Every entry of the factor list is prime. */
  lemma {:induction false} FactorListPrime(n: int)
    ensures forall i :: 0 <= i < |FactorList(n)| ==> Prime(FactorList(n)[i])
    decreases if n < 1 then 0 else n
  {
    if n >= 2 {
      var q := SmallestFactor(n);
      FactorListPrime(n / q);
      var r := FactorList(n);
      assert r == [q] + FactorList(n / q);
      forall i | 0 <= i < |r| ensures Prime(r[i]) {
        if i > 0 {
          assert r[i] == FactorList(n / q)[i - 1];
        }
      }
    }
  }

  /** The factor list of n >= 1 multiplies back to n. */
  lemma {:induction false} FactorListProduct(n: int)
    requires n >= 1
    ensures SeqProduct(FactorList(n)) == n
    decreases n
  {
    if n >= 2 {
      var q := SmallestFactor(n);
      QuotientBounds(n, q);
      FactorListProduct(n / q);
      assert FactorList(n)[1..] == FactorList(n / q);
    }
  }

  /** The factor list is ascending: the least divisor of n / q is a divisor
      of n, so it is not below q. */
  lemma {:induction false} FactorListAscending(n: int)
    ensures NonDecreasing(FactorList(n))
    decreases if n < 1 then 0 else n
  {
    if n >= 2 {
      var q := SmallestFactor(n);
      var m := n / q;
      QuotientBounds(n, q);
      FactorListAscending(m);
      assert FactorList(n) == [q] + FactorList(m);
      if m >= 2 {
        HeadAtLeast(n, q, m);
        ConsAscending(q, FactorList(m));
      }
    }
  }

  /** The smallest factor of n is at most the smallest factor of n / q. */
  lemma HeadAtLeast(n: int, q: int, m: int)
    requires n >= 2 && q == SmallestFactor(n) && m == n / q && m >= 2
    ensures FactorList(m) != [] && q <= FactorList(m)[0]
  {
    QuotientBounds(n, q);
    var s := SmallestFactor(m);
    MultipleMod(q, m);
    DividesTransitive(n, m, s);
  }

  /** For n >= 1 the factor list holds exactly the primes dividing n; the
      harder direction is Euclid's lemma. */
  lemma {:induction false} FactorListMembers(n: int, v: int)
    requires n >= 1
    ensures v in FactorList(n) <==> Prime(v) && n % v == 0
    decreases n
  {
    if n >= 2 {
      var q := SmallestFactor(n);
      var m := n / q;
      QuotientBounds(n, q);
      assert FactorList(n) == [q] + FactorList(m);
      FactorListMembers(m, v);
      if v in FactorList(n) && v != q {
        assert v in FactorList(m);
        MultipleMod(q, m);
        DividesTransitive(n, m, v);
      }
      if Prime(v) && n % v == 0 && v != q {
        if q % v == 0 {
          PrimeDivisor(q, v);
        }
        Euclid(v, q, m);
      }
    } else {
      if Prime(v) {
        assert n % v == 1;
      }
    }
  }

  /** Multiplying a list extended by one entry. */
  lemma {:induction false} SeqProductAppend(xs: seq<int>, x: int)
    ensures SeqProduct(xs + [x]) == SeqProduct(xs) * x
  {
    if xs != [] {
      assert (xs + [x])[1..] == xs[1..] + [x];
      SeqProductAppend(xs[1..], x);
    }
  }

  /** A tally is well formed, holds exactly the listed values, each with a
      positive count. */
  lemma {:induction false} TallyFacts(xs: seq<int>)
    ensures WellFormed(Tally(xs))
    ensures forall k :: k in Tally(xs).values <==> k in xs
    ensures forall k :: k in Tally(xs).values ==> Tally(xs).values[k] >= 1
  {
    if xs != [] {
      var init := xs[..|xs| - 1];
      TallyFacts(init);
      IncrementFacts(Tally(init), xs[|xs| - 1]);
      assert xs == init + [xs[|xs| - 1]];
    }
  }

  /** Counting a key no smaller than every stored key keeps the keys
      increasing and leaves it as the last key. */
  lemma IncrementAscending(f: Dict, x: int)
    requires WellFormed(f) && StrictlyIncreasing(f.keys)
    requires forall k :: k in f.keys ==> k <= x
    requires x in f.values ==> f.keys[|f.keys| - 1] == x
    ensures StrictlyIncreasing(Increment(f, x).keys)
    ensures Increment(f, x).keys != [] && Increment(f, x).keys[|Increment(f, x).keys| - 1] == x
  {
    if x !in f.values {
      var ks := f.keys + [x];
      forall i, j | 0 <= i < j < |ks| ensures ks[i] < ks[j] {
        if j == |ks| - 1 {
          assert ks[i] in f.keys;
        }
      }
    }
  }

  /** Tallying an ascending list stores the keys in increasing order, the
      last key being the last entry. */
  lemma {:induction false} TallyAscending(xs: seq<int>)
    requires NonDecreasing(xs)
    ensures StrictlyIncreasing(Tally(xs).keys)
    ensures xs != [] ==> Tally(xs).keys != [] && Tally(xs).keys[|Tally(xs).keys| - 1] == xs[|xs| - 1]
  {
    if xs != [] {
      var init := xs[..|xs| - 1];
      var x := xs[|xs| - 1];
      assert xs == init + [x];
      PrefixAscending(xs, |xs| - 1);
      TallyAscending(init);
      AscendingStep(init, x, xs);
    }
  }

  /** Counting the next entry of an ascending list keeps the keys
      increasing, with that entry as the last key. */
  lemma AscendingStep(init: seq<int>, x: int, xs: seq<int>)
    requires xs == init + [x] && NonDecreasing(xs) && StrictlyIncreasing(Tally(init).keys)
    requires init != [] ==> Tally(init).keys != [] && Tally(init).keys[|Tally(init).keys| - 1] == init[|init| - 1]
    ensures StrictlyIncreasing(Increment(Tally(init), x).keys)
    ensures Increment(Tally(init), x).keys != [] && Increment(Tally(init), x).keys[|Increment(Tally(init), x).keys| - 1] == x
  {
    AppendReady(init, x, xs);
    IncrementAscending(Tally(init), x);
  }

  /** The tally of the first entries of an ascending list has keys no
      larger than the next entry, which, if already counted, is the last
      key. */
  lemma AppendReady(init: seq<int>, x: int, xs: seq<int>)
    requires xs == init + [x] && NonDecreasing(xs)
    requires init != [] ==> Tally(init).keys != [] && Tally(init).keys[|Tally(init).keys| - 1] == init[|init| - 1]
    ensures WellFormed(Tally(init))
    ensures forall k :: k in Tally(init).keys ==> k <= x
    ensures x in Tally(init).values ==> Tally(init).keys[|Tally(init).keys| - 1] == x
  {
    TallyFacts(init);
    var t := Tally(init);
    forall k | k in t.keys ensures k <= x {
      var i :| 0 <= i < |init| && init[i] == k;
      assert xs[i] == k && xs[|xs| - 1] == x;
    }
    if x in t.values {
      var i :| 0 <= i < |init| && init[i] == x;
      assert xs[i] == x && xs[|init| - 1] == init[|init| - 1] && xs[|xs| - 1] == x;
      assert init[|init| - 1] == x;
    }
  }

  /** Product over the keys of a dict, in key order, of term(key, value). */
  function Fold(ks: seq<int>, v: map<int, nat>, term: (int, nat) -> int): int {
    if ks == [] then 1
    else Fold(ks[..|ks| - 1], v, term) * term(ks[|ks| - 1], Count(v, ks[|ks| - 1]))
  }

  /** The value stored for k, 0 when there is none. */
  function Count(v: map<int, nat>, k: int): nat {
    if k in v then v[k] else 0
  }

  /** The factor contributed by a prime with its exponent. */
  function PowerTerm(k: int, e: nat): int {
    Pow(k, e)
  }

  /** Changing the value of a key that is not listed changes no fold. */
  lemma {:induction false} FoldFrame(ks: seq<int>, v: map<int, nat>, k: int, e: nat, term: (int, nat) -> int)
    requires k !in ks
    ensures Fold(ks, v[k := e], term) == Fold(ks, v, term)
  {
    if ks != [] {
      FoldFrame(ks[..|ks| - 1], v, k, e, term);
    }
  }

  /** A fold over a concatenation is the product of the two folds. */
  lemma {:induction false} FoldSplit(a: seq<int>, b: seq<int>, v: map<int, nat>, term: (int, nat) -> int)
    ensures Fold(a + b, v, term) == Fold(a, v, term) * Fold(b, v, term)
  {
    if b == [] {
      assert a + b == a;
    } else {
      var b' := b[..|b| - 1];
      assert (a + b)[..|a + b| - 1] == a + b';
      FoldSplit(a, b', v, term);
    }
  }

  /** Counting a new key multiplies the product of prime powers by it. */
  lemma IncrementNewProduct(f: Dict, x: int)
    requires WellFormed(f) && x !in f.values
    ensures Fold(Increment(f, x).keys, Increment(f, x).values, PowerTerm)
         == Fold(f.keys, f.values, PowerTerm) * x
  {
    var v := f.values[x := 1];
    var ks := f.keys + [x];
    FoldFrame(f.keys, f.values, x, 1, PowerTerm);
    assert ks[..|f.keys|] == f.keys;
    assert Fold(ks, v, PowerTerm) == Fold(f.keys, v, PowerTerm) * PowerTerm(x, 1);
    assert Pow(x, 1) == x * Pow(x, 0);
  }

  /** Counting the last key once more also multiplies the product by it. */
  lemma IncrementLastProduct(f: Dict, x: int)
    requires x in f.values && f.keys != [] && f.keys[|f.keys| - 1] == x
    requires forall j :: 0 <= j < |f.keys| - 1 ==> f.keys[j] != x
    ensures Fold(Increment(f, x).keys, Increment(f, x).values, PowerTerm)
         == Fold(f.keys, f.values, PowerTerm) * x
  {
    var e := f.values[x];
    var v := f.values[x := e + 1];
    assert Increment(f, x) == Dict(f.keys, v);
    var ks := f.keys[..|f.keys| - 1];
    assert f.keys == ks + [x];
    forall j | 0 <= j < |ks| ensures ks[j] != x {
      assert ks[j] == f.keys[j];
    }
    assert x !in ks;
    FoldFrame(ks, f.values, x, e + 1, PowerTerm);
    var a, b := Fold(ks, f.values, PowerTerm), PowerTerm(x, e);
    assert Fold(f.keys, v, PowerTerm) == a * PowerTerm(x, e + 1);
    assert Fold(f.keys, f.values, PowerTerm) == a * b;
    assert PowerTerm(x, e + 1) == x * b;
    MulRotate(a, x, b);
  }

  lemma MulRotate(a: int, x: int, b: int)
    ensures a * (x * b) == (a * b) * x
  {
  }

  /** The tally of an ascending list, raised to its counts and multiplied,
      gives the product of the list. */
  lemma {:induction false} TallyProduct(xs: seq<int>)
    requires NonDecreasing(xs)
    ensures Fold(Tally(xs).keys, Tally(xs).values, PowerTerm) == SeqProduct(xs)
  {
    if xs != [] {
      var init := xs[..|xs| - 1];
      var x := xs[|xs| - 1];
      assert xs == init + [x];
      PrefixAscending(xs, |xs| - 1);
      TallyProduct(init);
      SeqProductAppend(init, x);
      AppendProduct(init, x, xs);
    }
  }

  /** Counting the next entry of an ascending list multiplies the product
      of prime powers by that entry. */
  lemma AppendProduct(init: seq<int>, x: int, xs: seq<int>)
    requires xs == init + [x] && NonDecreasing(xs)
    ensures Fold(Increment(Tally(init), x).keys, Increment(Tally(init), x).values, PowerTerm)
         == Fold(Tally(init).keys, Tally(init).values, PowerTerm) * x
  {
    assert init == xs[..|xs| - 1];
    PrefixAscending(xs, |xs| - 1);
    TallyAscending(init);
    AppendReady(init, x, xs);
    var t := Tally(init);
    if x in t.values {
      forall j | 0 <= j < |t.keys| - 1 ensures t.keys[j] != x {
        assert t.keys[j] < t.keys[|t.keys| - 1];
      }
      IncrementLastProduct(t, x);
    } else {
      IncrementNewProduct(t, x);
    }
  }

  /** A positive divisor of a positive integer is at most that integer. */
  lemma DivisorAtMost(m: int, d: int)
    requires m >= 1 && d >= 1 && m % d == 0
    ensures d <= m
  {
    assert m == d * (m / d);
    assert m / d >= 1;
    assert d * (m / d) >= d;
  }

  /** The dict `factorize(n)` returns: the factor list of n, counted. */
  function Factorization(n: int): Dict {
    Tally(FactorList(n))
  }

  /** The factorisation is a well-formed dict with increasing prime keys
      and positive exponents. */
  lemma FactorizationShape(n: int)
    ensures WellFormed(Factorization(n)) && StrictlyIncreasing(Factorization(n).keys)
    ensures forall k :: k in Factorization(n).keys ==> Prime(k) && Factorization(n).values[k] >= 1
  {
    var xs := FactorList(n);
    var f := Factorization(n);
    TallyFacts(xs);
    FactorListAscending(n);
    TallyAscending(xs);
    FactorListPrime(n);
    forall k | k in f.keys ensures Prime(k) {
      var i :| 0 <= i < |xs| && xs[i] == k;
    }
  }

  /** The factorisation is empty exactly for n <= 1. */
  lemma FactorizationEmpty(n: int)
    ensures Factorization(n).keys == [] <==> n <= 1
  {
    var xs := FactorList(n);
    assert n <= 1 <==> xs == [];
    TallyFacts(xs);
    if xs != [] {
      assert xs[0] in Factorization(n).values;
    }
  }

  /** For n >= 1 the prime powers of the factorisation multiply back to n. */
  lemma FactorizationProduct(n: int)
    requires n >= 1
    ensures Fold(Factorization(n).keys, Factorization(n).values, PowerTerm) == n
  {
    FactorListAscending(n);
    TallyProduct(FactorList(n));
    FactorListProduct(n);
  }

  /** For n >= 1 the keys of the factorisation are the primes dividing n. */
  lemma FactorizationPrimes(n: int, q: int)
    requires n >= 1
    ensures q in Factorization(n).keys <==> Prime(q) && n % q == 0
  {
    TallyFacts(FactorList(n));
    FactorListMembers(n, q);
  }

  /** No integer in [2, d) divides m: what trial division up to d leaves. */
  predicate NoDivisorBelow(m: int, d: int) {
    forall e :: 2 <= e < d ==> m % e != 0
  }

  /** A candidate that does not divide m may be skipped. */
  lemma NextCandidate(m: int, d: int)
    requires d >= 2 && NoDivisorBelow(m, d) && m % d != 0
    ensures NoDivisorBelow(m, d + 1)
  {
  }

  /** One division step of trial division: when d divides m and nothing in
      [2, d) does, d heads the factor list of m and the quotient still has
      no divisor in [2, d). */
  lemma DivideOut(m: int, d: int)
    requires m >= 1 && d >= 2 && m % d == 0 && NoDivisorBelow(m, d)
    ensures 1 <= m / d < m
    ensures FactorList(m) == [d] + FactorList(m / d)
    ensures NoDivisorBelow(m / d, d)
  {
    DivisorAtMost(m, d);
    SmallestFactorIs(m, d);
    QuotientBounds(m, d);
    forall e | 2 <= e < d ensures (m / d) % e != 0 {
      if (m / d) % e == 0 {
        MultipleMod(d, m / d);
        DividesTransitive(m, m / d, e);
      }
    }
  }

  /** What remains once d*d exceeds it, if above 1, is a prime: its own
      factor list. */
  lemma LastFactor(m: int, d: int)
    requires m > 1 && d >= 2 && m < d * d && NoDivisorBelow(m, d)
    ensures FactorList(m) == [m]
  {
    forall e | 2 <= e < m ensures m % e != 0 {
      if m % e == 0 {
        var e' := DivisorBelowRoot(m, e, d);
      }
    }
    SmallestFactorIs(m, m);
    assert FactorList(m) == [m] + FactorList(1);
  }

  /** The state of trial division on n: the factors found so far,
      followed by the factor list of what remains, make up the factor list
      of n, and `factors` counts the factors found so far. */
  ghost predicate Progress(n: int, m: int, consumed: seq<int>, factors: Dict) {
    consumed + FactorList(m) == FactorList(n) && factors == Tally(consumed)
  }

  /** `factorize(n)`: trial division by d = 2, 3, ... while d*d does not
      exceed what remains, dividing out each divisor as often as it goes;
      a remainder above 1 is one last prime. */
  method Factorize(n: int) returns (factors: Dict)
    ensures factors == Factorization(n)
  {
    factors := EmptyDict;
    var m := n;
    var d := 2;
    ghost var consumed: seq<int> := [];
    while d * d <= m
      invariant 2 <= d && NoDivisorBelow(m, d)
      invariant Progress(n, m, consumed, factors)
      decreases m - d
    {
      ghost var start := m;
      assert d * d >= 2 * d;
      while m % d == 0
        invariant 1 <= m <= start && NoDivisorBelow(m, d)
        invariant Progress(n, m, consumed, factors)
        decreases m
      {
        DivideStep(n, m, d, consumed, factors);
        consumed := consumed + [d];
        factors := Increment(factors, d);
        m := m / d;
      }
      NextCandidate(m, d);
      d := d + 1;
    }
    if m > 1 {
      FinalStep(n, m, d, consumed, factors);
      consumed := consumed + [m];
      factors := Increment(factors, m);
    } else {
      Exhausted(n, m, consumed, factors);
    }
  }

  /** One pass of the inner loop keeps the invariants of `Factorize`: the
      factor divided out joins the consumed list and the dict. */
  lemma DivideStep(n: int, m: int, d: int, consumed: seq<int>, factors: Dict)
    requires m >= 1 && d >= 2 && m % d == 0 && NoDivisorBelow(m, d)
    requires Progress(n, m, consumed, factors)
    ensures 1 <= m / d < m && NoDivisorBelow(m / d, d)
    ensures Progress(n, m / d, consumed + [d], Increment(factors, d))
  {
    DivideOut(m, d);
    TallySnoc(consumed, d);
    assert (consumed + [d]) + FactorList(m / d) == consumed + FactorList(m);
  }

  /** The remainder above 1 left after the outer loop completes the
      factor list. */
  lemma FinalStep(n: int, m: int, d: int, consumed: seq<int>, factors: Dict)
    requires m > 1 && d >= 2 && m < d * d && NoDivisorBelow(m, d)
    requires Progress(n, m, consumed, factors)
    ensures Increment(factors, m) == Factorization(n)
  {
    LastFactor(m, d);
    TallySnoc(consumed, m);
  }

  /** Nothing above 1 remains: the factors found are all of them. */
  lemma Exhausted(n: int, m: int, consumed: seq<int>, factors: Dict)
    requires m <= 1 && Progress(n, m, consumed, factors)
    ensures factors == Factorization(n)
  {
    assert consumed + FactorList(m) == consumed;
  }

  /** The factor a prime contributes to the divisor count. */
  function CountTerm(k: int, e: nat): int {
    e + 1
  }

  /** Each factor e + 1 is at least 2, so the product is 1 only when empty. */
  lemma {:induction false} CountFoldBounds(ks: seq<int>, v: map<int, nat>)
    requires PrimePowers(ks, v)
    ensures Fold(ks, v, CountTerm) >= 1
    ensures Fold(ks, v, CountTerm) == 1 <==> ks == []
  {
    if ks != [] {
      var init := ks[..|ks| - 1];
      assert PrimePowers(init, v) by {
        forall j | 0 <= j < |init| ensures init[j] >= 2 && Count(v, init[j]) >= 1 {
          assert init[j] == ks[j];
        }
      }
      CountFoldBounds(init, v);
      var a, c := Fold(init, v, CountTerm), CountTerm(ks[|ks| - 1], Count(v, ks[|ks| - 1]));
      assert c >= 2;
      assert a * c >= c;
    }
  }

  /** `tau(n)`: the product of (e + 1) over the exponents of the
      factorisation, visited in the dict's order; it is 1 exactly when the
      factorisation is empty, that is when n <= 1. */
  method Tau(n: int) returns (result: int)
    ensures result == Fold(Factorization(n).keys, Factorization(n).values, CountTerm)
    ensures result >= 1 && (result == 1 <==> n <= 1)
  {
    var facts := Factorize(n);
    var ks, v := facts.keys, facts.values;
    assert PrimePowers(ks, v) && (n <= 1 <==> ks == []) && forall k :: k in ks ==> k in v by {
      FactorizationShape(n);
      FactorizationEmpty(n);
      forall j | 0 <= j < |ks| ensures ks[j] >= 2 && Count(v, ks[j]) >= 1 {
        assert ks[j] in ks;
      }
    }
    result := 1;
    for i := 0 to |ks|
      invariant result == Fold(ks[..i], v, CountTerm)
    {
      assert ks[i] in ks;
      FoldSnoc(ks, i, v, CountTerm);
      result := result * (v[ks[i]] + 1);
    }
    assert ks[..|ks|] == ks;
    CountFoldBounds(ks, v);
  }

  /** The primes dividing n. */
  function PrimeDivisors(n: int): set<int> {
    set q | 2 <= q <= n && Prime(q) && n % q == 0
  }

  /** `omega(n)`: the number of keys of the factorisation, which is the
      number of distinct primes dividing n. */
  method Omega(n: int) returns (r: int)
    ensures r == |Factorization(n).keys|
    ensures r == |PrimeDivisors(n)|
  {
    var facts := Factorize(n);
    r := |facts.keys|;
    FactorizationShape(n);
    FactorizationEmpty(n);
    DistinctListSize(facts.keys);
    if n >= 1 {
      forall q ensures q in facts.keys <==> q in PrimeDivisors(n) {
        FactorizationPrimes(n, q);
        if q in facts.keys {
          DivisorAtMost(n, q);
        }
      }
    }
    assert (set v | v in facts.keys) == PrimeDivisors(n);
  }

  /** The fold over one more key of a prefix. */
  lemma FoldSnoc(ks: seq<int>, i: int, v: map<int, nat>, term: (int, nat) -> int)
    requires 0 <= i < |ks|
    ensures Fold(ks[..i + 1], v, term) == Fold(ks[..i], v, term) * term(ks[i], Count(v, ks[i]))
  {
    assert ks[..i + 1][..i] == ks[..i];
  }

  /** The fold over a suffix, with its first key taken out. */
  lemma FoldCons(ks: seq<int>, i: int, v: map<int, nat>, term: (int, nat) -> int)
    requires 0 <= i < |ks|
    ensures Fold(ks[i..], v, term) == term(ks[i], Count(v, ks[i])) * Fold(ks[i + 1..], v, term)
  {
    assert ks[i..] == [ks[i]] + ks[i + 1..];
    FoldSplit([ks[i]], ks[i + 1..], v, term);
    assert [ks[i]][..0] == [];
  }

  /** The factor a prime power p^e contributes to Euler's totient:
      p^(e-1) * (p - 1). */
  function TotientTerm(k: int, e: nat): int {
    if e == 0 then 1 else Pow(k, e - 1) * (k - 1)
  }

  /** The prime itself, whatever its exponent. */
  function RadicalTerm(k: int, e: nat): int {
    k
  }

  /** The prime less one, whatever its exponent. */
  function ReducedTerm(k: int, e: nat): int {
    k - 1
  }

  /** One step of `result * (p - 1) // p` when p^e with e >= 1 is a factor
      of `result`: the division is exact and turns p^e into p^(e-1)*(p-1). */
  lemma TotientStep(a: int, b: int, k: int, e: nat, result: int)
    requires k >= 2 && e >= 1 && result == a * (Pow(k, e) * b)
    ensures (result * (k - 1)) % k == 0
    ensures (result * (k - 1)) / k == a * TotientTerm(k, e) * b
    ensures (result * (k - 1)) / k * k == result * (k - 1)
  {
    var q := Pow(k, e - 1);
    var c := a * (q * (k - 1)) * b;
    assert Pow(k, e) == k * q;
    assert result * (k - 1) == c * k by {
      assert result == a * (k * q * b);
      assert a * (k * q * b) * (k - 1) == (a * (q * (k - 1)) * b) * k;
    }
    MultipleMod(c, k);
    assert (c * k) / k == c;
  }

  /** The exact-fraction identity kept by each step: if r * R == n * M and
      r' * k == r * (k - 1), then r' * (R * k) == n * (M * (k - 1)). */
  lemma FractionStep(r: int, r': int, k: int, rad: int, red: int, n: int)
    requires r * rad == n * red && r' * k == r * (k - 1)
    ensures r' * (rad * k) == n * (red * (k - 1))
  {
    calc {
      r' * (rad * k);
      (r' * k) * rad;
      (r * (k - 1)) * rad;
      (r * rad) * (k - 1);
      (n * red) * (k - 1);
    }
  }

  /** Every key is at least 2 and has a positive count. */
  predicate PrimePowers(ks: seq<int>, v: map<int, nat>) {
    forall j :: 0 <= j < |ks| ==> ks[j] >= 2 && Count(v, ks[j]) >= 1
  }

  /** The loop of `euler_phi` keeps its two invariants through one key
      p = ks[i], a prime with a positive count. */
  lemma TotientLoopStep(ks: seq<int>, v: map<int, nat>, i: int, p: int, result: int, n: int)
    requires 0 <= i < |ks| && p == ks[i] && p >= 2 && Count(v, p) >= 1
    requires result * Fold(ks[..i], v, RadicalTerm) == n * Fold(ks[..i], v, ReducedTerm)
    requires result == Fold(ks[..i], v, TotientTerm) * Fold(ks[i..], v, PowerTerm)
    ensures (result * (p - 1)) % p == 0
    ensures result * (p - 1) / p * Fold(ks[..i + 1], v, RadicalTerm)
         == n * Fold(ks[..i + 1], v, ReducedTerm)
    ensures result * (p - 1) / p
         == Fold(ks[..i + 1], v, TotientTerm) * Fold(ks[i + 1..], v, PowerTerm)
  {
    FoldCons(ks, i, v, PowerTerm);
    TotientStep(Fold(ks[..i], v, TotientTerm), Fold(ks[i + 1..], v, PowerTerm), p, Count(v, p), result);
    FoldSnoc(ks, i, v, TotientTerm);
    FoldSnoc(ks, i, v, RadicalTerm);
    FoldSnoc(ks, i, v, ReducedTerm);
    FractionStep(result, result * (p - 1) / p, p, Fold(ks[..i], v, RadicalTerm), Fold(ks[..i], v, ReducedTerm), n);
  }

  /** `euler_phi(n)`: starting from n, `result * (p - 1) // p` for each key
      p of the factorisation.  Every division is exact, so for n >= 1 the
      result is the product of p^(e-1) * (p - 1) over the factorisation, and
      for every n the result times the product of the primes equals n times
      the product of the primes less one; n <= 1 is returned unchanged. */
  method EulerPhi(n: int) returns (result: int)
    ensures n <= 1 ==> result == n
    ensures n >= 1 ==> result == Fold(Factorization(n).keys, Factorization(n).values, TotientTerm)
    ensures result * Fold(Factorization(n).keys, Factorization(n).values, RadicalTerm)
         == n * Fold(Factorization(n).keys, Factorization(n).values, ReducedTerm)
  {
    var facts := Factorize(n);
    var ks, v := facts.keys, facts.values;
    assert PrimePowers(ks, v) && (n <= 1 <==> ks == []) by {
      FactorizationShape(n);
      FactorizationEmpty(n);
      forall j | 0 <= j < |ks| ensures ks[j] >= 2 && Count(v, ks[j]) >= 1 {
        assert ks[j] in ks;
      }
    }
    if n >= 1 {
      FactorizationProduct(n);
      assert ks[0..] == ks;
    }
    result := n;
    for i := 0 to |ks|
      invariant result * Fold(ks[..i], v, RadicalTerm) == n * Fold(ks[..i], v, ReducedTerm)
      invariant n >= 1 ==> result == Fold(ks[..i], v, TotientTerm) * Fold(ks[i..], v, PowerTerm)
    {
      var p := ks[i];
      TotientLoopStep(ks, v, i, p, result, n);
      result := result * (p - 1) / p;
    }
    assert ks[..|ks|] == ks;
  }

  /** The factorisation of a prime q is q to the first power. */
  lemma PrimeFactorization(q: int)
    requires Prime(q)
    ensures Factorization(q) == Dict([q], map[q := 1])
  {
    SmallestFactorIs(q, q);
    assert FactorList(q) == [q] + FactorList(1);
    assert [q][..0] == [];
  }

  /** For a prime q: tau(q) = 2 and euler_phi(q) = q - 1. */
  lemma PrimeTauAndTotient(q: int)
    requires Prime(q)
    ensures Fold(Factorization(q).keys, Factorization(q).values, CountTerm) == 2
    ensures Fold(Factorization(q).keys, Factorization(q).values, TotientTerm) == q - 1
  {
    PrimeFactorization(q);
    assert [q][..0] == [];
  }

  /** `s` consists of decimal digits. */
  predicate IsDigits(s: string) {
    forall i :: 0 <= i < |s| ==> '0' <= s[i] <= '9'
  }

  /** The character of a decimal digit. */
  function DigitChar(d: int): (c: char)
    requires 0 <= d < 10
    ensures '0' <= c <= '9' && c as int - '0' as int == d
  {
    ('0' as int + d) as char
  }

  /** Python's `str(n)` for a natural number: its decimal digits, with no
      leading zero. */
  function Decimal(n: nat): (s: string)
    ensures |s| >= 1 && IsDigits(s)
    ensures |s| > 1 ==> s[0] != '0'
  {
    if n < 10 then [DigitChar(n)] else Decimal(n / 10) + [DigitChar(n % 10)]
  }

  /** The number a string of decimal digits denotes. */
  function DecimalValue(s: string): nat
    requires IsDigits(s)
  {
    if s == [] then 0
    else DecimalValue(s[..|s| - 1]) * 10 + (s[|s| - 1] as int - '0' as int)
  }

  /** Reading `str(n)` back gives n. */
  lemma {:induction false} DecimalRoundTrip(n: nat)
    ensures DecimalValue(Decimal(n)) == n
  {
    if n >= 10 {
      DecimalRoundTrip(n / 10);
      var s := Decimal(n);
      assert s[..|s| - 1] == Decimal(n / 10);
    }
  }

  /** A digit string without a leading zero denotes at least 1 when it is
      longer than one digit. */
  lemma {:induction false} LeadingDigitPositive(s: string)
    requires IsDigits(s) && |s| >= 1 && s[0] != '0'
    ensures DecimalValue(s) >= 1
  {
    if |s| > 1 {
      var init := s[..|s| - 1];
      assert init[0] == s[0];
      LeadingDigitPositive(init);
    }
  }

  /** Every digit string without a leading zero is `str` of the number it
      denotes, so `Decimal` is a bijection onto such strings. */
  lemma {:induction false} DecimalCanonical(s: string)
    requires IsDigits(s) && |s| >= 1 && (|s| > 1 ==> s[0] != '0')
    ensures Decimal(DecimalValue(s)) == s
  {
    var init := s[..|s| - 1];
    var d := s[|s| - 1] as int - '0' as int;
    if |s| == 1 {
      assert init == [];
    } else {
      assert init[0] == s[0];
      LeadingDigitPositive(init);
      DecimalCanonical(init);
      var n := DecimalValue(s);
      assert n == DecimalValue(init) * 10 + d;
      assert n / 10 == DecimalValue(init) && n % 10 == d;
      assert s == init + [s[|s| - 1]];
    }
  }

  /** Python's `str(k)` for any integer: a minus sign before the digits of
      a negative one. */
  function Str(k: int): (s: string)
    ensures s != ""
  {
    if k < 0 then "-" + Decimal(-k) else Decimal(k)
  }

  /** One part of `factorize_str`: `str(p)` for exponent 1, `f'{p}^{e}'`
      otherwise. */
  function Part(p: int, e: nat): string {
    if e == 1 then Str(p) else Str(p) + "^" + Str(e)
  }

  /** The parts for the keys ks, in order. */
  function Parts(ks: seq<int>, v: map<int, nat>): seq<string> {
    if ks == [] then []
    else Parts(ks[..|ks| - 1], v) + [Part(ks[|ks| - 1], Count(v, ks[|ks| - 1]))]
  }

  /** One more key adds its part at the end. */
  lemma PartsSnoc(ks: seq<int>, i: nat, v: map<int, nat>)
    requires i < |ks|
    ensures Parts(ks[..i + 1], v) == Parts(ks[..i], v) + [Part(ks[i], Count(v, ks[i]))]
  {
    assert ks[..i + 1][..i] == ks[..i];
  }

  /** Python's `sep.join(parts)`. */
  function Join(parts: seq<string>, sep: string): string {
    if parts == [] then ""
    else if |parts| == 1 then parts[0]
    else Join(parts[..|parts| - 1], sep) + sep + parts[|parts| - 1]
  }

  /** Joining non-empty parts gives the empty string only for no parts. */
  lemma JoinEmpty(parts: seq<string>, sep: string)
    requires forall i :: 0 <= i < |parts| ==> parts[i] != ""
    ensures Join(parts, sep) == "" <==> parts == []
  {
    if |parts| >= 1 {
      var last := parts[|parts| - 1];
      assert |Join(parts, sep)| >= |last|;
    }
  }

  /** Every part is non-empty. */
  lemma {:induction false} PartsNonEmpty(ks: seq<int>, v: map<int, nat>)
    ensures |Parts(ks, v)| == |ks|
    ensures forall i :: 0 <= i < |Parts(ks, v)| ==> Parts(ks, v)[i] != ""
  {
    if ks != [] {
      PartsNonEmpty(ks[..|ks| - 1], v);
    }
  }

  /** `factorize_str(n)`: the parts of the factorisation in ascending order
      of prime, joined by " * "; the empty string exactly when n <= 1. */
  method FactorizeStr(n: int) returns (s: string)
    ensures s == Join(Parts(Factorization(n).keys, Factorization(n).values), " * ")
    ensures s == "" <==> n <= 1
  {
    var facts := Factorize(n);
    var sortedKeys := Sort(facts.keys);
    assert sortedKeys == facts.keys && (facts.keys == [] <==> n <= 1)
        && forall k :: k in facts.keys ==> k in facts.values by {
      FactorizationShape(n);
      FactorizationEmpty(n);
      SortOfAscending(facts.keys);
    }
    var parts: seq<string> := [];
    for i := 0 to |sortedKeys|
      invariant parts == Parts(sortedKeys[..i], facts.values)
    {
      var p := sortedKeys[i];
      assert p in facts.keys;
      var e := facts.values[p];
      PartsSnoc(sortedKeys, i, facts.values);
      if e == 1 {
        parts := parts + [Str(p)];
      } else {
        parts := parts + [Str(p) + "^" + Str(e)];
      }
    }
    assert sortedKeys[..|sortedKeys|] == sortedKeys;
    s := Join(parts, " * ");
    PartsNonEmpty(sortedKeys, facts.values);
    JoinEmpty(parts, " * ");
  }
}
