/** scripts/visualization/plot_q1_parameter_independence.py: the cardinality
    histogram `card_matrix[a, c - 1]` over all parameters a in [0, p), the
    check that the rows of the nonzero parameters agree, and the scaling
    argument the script gives for it.  Its `is_prime` and
    `compute_value_sets` are the same code as in the parameter-variation
    script and are modelled there. */
module ParameterIndependence {
  import opened Outcomes
  import opened PyArith
  import opened NumberTheory
  import opened Sorting
  import opened Dickson
  import opened ParameterVariation

  /** The number of indices n in [0, k) whose value set has c elements. */
  function CardinalityCount(p: int, a: int, c: int, k: nat): (r: nat)
    ensures r <= k
  {
    if k == 0 then 0
    else CardinalityCount(p, a, c, k - 1) + (if |ValueSetOf(k - 1, p, a)| == c then 1 else 0)
  }

  /** The histogram loop of `main` for one prime: `np.zeros((p, p))` (which
      refuses a negative size), then one row per parameter a, counting the
      records of `compute_value_sets(p, a)` by cardinality. */
  method CardMatrix(p: int) returns (r: Result<array2<int>>)
    ensures p < 0 ==> r == Err(ValueError("negative dimensions are not allowed"))
    ensures 0 <= p ==> r.Ok? && fresh(r.value) && r.value.Length0 == p && r.value.Length1 == p
    ensures 0 <= p ==> forall a, c :: 0 <= a < p && 0 <= c < p ==>
              r.value[a, c] == CardinalityCount(p, a, c + 1, RecordCount(p))
  {
    if p < 0 {
      return Err(ValueError("negative dimensions are not allowed"));
    }
    var m := new int[p, p]((_, _) => 0);
    for a := 0 to p
      invariant forall a', c :: 0 <= a' < a && 0 <= c < p ==>
                  m[a', c] == CardinalityCount(p, a', c + 1, RecordCount(p))
      invariant forall a', c :: a <= a' < p && 0 <= c < p ==> m[a', c] == 0
    {
      var results := ComputeValueSets(p, a);
      var recs := results.value;
      for i := 0 to |recs|
        invariant forall a', c :: 0 <= a' < a && 0 <= c < p ==>
                    m[a', c] == CardinalityCount(p, a', c + 1, RecordCount(p))
        invariant forall a', c :: a < a' < p && 0 <= c < p ==> m[a', c] == 0
        invariant forall c :: 0 <= c < p ==> m[a, c] == CardinalityCount(p, a, c + 1, i)
      {
        var card := recs[i].cardinality;
        ValuesCardinality(recs[i], i, p, a);
        if 1 <= card <= p {
          m[a, card - 1] := m[a, card - 1] + 1;
        }
      }
    }
    return Ok(m);
  }

  /** `np.all(nonzero_rows == nonzero_rows[0])`: every row below the first
      equals row 1.  Fewer than two rows make `nonzero_rows[0]` fail. */
  predicate NonzeroRowsIdentical(m: array2<int>)
    reads m
    requires m.Length0 >= 2
  {
    forall a, c :: 1 <= a < m.Length0 && 0 <= c < m.Length1 ==> m[a, c] == m[1, c]
  }

  /** The sum of the first j entries of row a. */
  function RowSum(m: array2<int>, a: int, j: nat): int
    reads m
    requires 0 <= a < m.Length0 && j <= m.Length1
  {
    if j == 0 then 0 else RowSum(m, a, j - 1) + m[a, j - 1]
  }

  /** c to the power n for both factors of a unit: if a*b is 1 modulo p, so
      is a^n * b^n. */
  lemma {:induction false} PowInverse(a: int, b: int, n: nat, p: int)
    requires p > 1 && PyMod(a * b, p) == 1
    ensures PyMod(Pow(a, n) * Pow(b, n), p) == 1
  {
    PyModOfCanonical(1, p);
    if n > 0 {
      PowInverse(a, b, n - 1, p);
      var rest := Pow(a, n - 1) * Pow(b, n - 1);
      assert Pow(a, n) * Pow(b, n) == (a * b) * rest by {
        PowProduct(a, b, Pow(a, n - 1), Pow(b, n - 1));
      }
      PyModMul(1, 1, a * b, rest, p);
    }
  }

  lemma PowProduct(a: int, b: int, u: int, v: int)
    ensures (a * u) * (b * v) == (a * b) * (u * v)
  {
  }

  /** Given an inverse b of a, y = x * b^2 solves a^2 * y == x modulo p. */
  lemma SquareRootOfScale(a: int, b: int, x: int, p: int) returns (y: int)
    requires p > 1 && PyMod(a * b, p) == 1
    ensures 0 <= y < p && PyMod(a * a * y, p) == PyMod(x, p)
  {
    y := PyMod(x * b * b, p);
    PyModOfCanonical(1, p);
    PyModIdempotent(x * b * b, p);
    PyModMul(a * a, x * b * b, a * a, y, p);
    assert (a * a) * (x * b * b) == x * ((a * b) * (a * b));
    PyModMul(1, 1, a * b, a * b, p);
    PyModMul(x, 1, x, (a * b) * (a * b), p);
  }

  /** The scaling argument modulo p: when a has an inverse, the value set
      for parameter a is the value set for parameter 1 multiplied by a^n,
      because D_n(a, a^2 y) = a^n D_n(1, y) and y -> a^2 y is onto. */
  lemma ScaledValueSet(n: nat, p: int, a: int, b: int)
    requires p > 1 && PyMod(a * b, p) == 1
    ensures ValueSetOf(n, p, a) == set v | v in ValueSetOf(n, p, 1) :: PyMod(Pow(a, n) * v, p)
  {
    var image := set v | v in ValueSetOf(n, p, 1) :: PyMod(Pow(a, n) * v, p);
    forall w | w in ValueSetOf(n, p, a) ensures w in image {
      var x :| 0 <= x < p && w == PyMod(D(n, a, x), p);
      var y := SquareRootOfScale(a, b, x, p);
      ScaledTerm(n, p, a, x, y);
      assert PyMod(D(n, 1, y), p) in ValueSetOf(n, p, 1);
    }
    forall w | w in image ensures w in ValueSetOf(n, p, a) {
      var u :| u in ValueSetOf(n, p, 1) && w == PyMod(Pow(a, n) * u, p);
      var y :| 0 <= y < p && u == PyMod(D(n, 1, y), p);
      var x := PyMod(a * a * y, p);
      PyModIdempotent(a * a * y, p);
      ScaledTerm(n, p, a, x, y);
    }
  }

  /** One term of the scaling argument: if a^2 y == x modulo p then
      D_n(a, x) == a^n * (D_n(1, y) mod p) modulo p. */
  lemma ScaledTerm(n: nat, p: int, a: int, x: int, y: int)
    requires p > 1 && PyMod(a * a * y, p) == PyMod(x, p)
    ensures PyMod(D(n, a, x), p) == PyMod(Pow(a, n) * PyMod(D(n, 1, y), p), p)
  {
    CongruentParameters(n, a, a * a * y, a, x, p);
    Scaling(n, a, y);
    PyModIdempotent(D(n, 1, y), p);
    PyModMul(Pow(a, n), D(n, 1, y), Pow(a, n), PyMod(D(n, 1, y), p), p);
  }

  /** Multiplication by a unit modulo p is one-to-one on residues. */
  lemma ScaleInjective(u: int, v: int, w: int, ui: int, p: int)
    requires p > 1 && PyMod(u * ui, p) == 1
    requires 0 <= v < p && 0 <= w < p && PyMod(u * v, p) == PyMod(u * w, p)
    ensures v == w
  {
    PyModOfCanonical(1, p);
    PyModMul(ui, u * v, ui, u * w, p);
    assert ui * (u * v) == (u * ui) * v && ui * (u * w) == (u * ui) * w;
    PyModMul(1, v, u * ui, v, p);
    PyModMul(1, w, u * ui, w, p);
    PyModOfCanonical(v, p);
    PyModOfCanonical(w, p);
  }

  /** A map that is one-to-one on a finite set keeps its size. */
  lemma {:induction false} InjectiveImageSize(s: set<int>, g: int -> int)
    requires forall v, w :: v in s && w in s && g(v) == g(w) ==> v == w
    ensures |set v | v in s :: g(v)| == |s|
    decreases |s|
  {
    if s == {} {
      assert (set v | v in s :: g(v)) == {};
    } else {
      var u := LeastExists(s);
      var rest := s - {u};
      InjectiveImageSize(rest, g);
      assert (set v | v in s :: g(v)) == (set v | v in rest :: g(v)) + {g(u)};
      assert g(u) !in (set v | v in rest :: g(v));
    }
  }

  /** Parameter independence: modulo a prime p, every parameter a that is not
      a multiple of p gives value sets of the same size as a = 1, index by
      index. */
  lemma CardinalityIndependent(n: nat, p: int, a: int)
    requires Prime(p) && PyMod(a, p) != 0
    ensures |ValueSetOf(n, p, a)| == |ValueSetOf(n, p, 1)|
  {
    var b := InverseModPrime(p, a);
    ScaledValueSet(n, p, a, b);
    var u, ui := Pow(a, n), Pow(b, n);
    PowInverse(a, b, n, p);
    var g := v => PyMod(u * v, p);
    var s := ValueSetOf(n, p, 1);
    ValueSetBounds(n, p, 1);
    forall v, w | v in s && w in s && g(v) == g(w) ensures v == w {
      ScaleInjective(u, v, w, ui, p);
    }
    InjectiveImageSize(s, g);
    assert (set v | v in s :: g(v)) == set v | v in s :: PyMod(u * v, p);
  }

  /** Hence the histogram counts agree for every nonzero parameter. */
  lemma {:induction false} CountsIndependent(p: int, a: int, c: int, k: nat)
    requires Prime(p) && PyMod(a, p) != 0
    ensures CardinalityCount(p, a, c, k) == CardinalityCount(p, 1, c, k)
  {
    if k > 0 {
      CountsIndependent(p, a, c, k - 1);
      CardinalityIndependent(k - 1, p, a);
    }
  }

  /** For a prime p the check on the histogram succeeds: all rows of the
      nonzero parameters are identical. */
  lemma RowsIdentical(m: array2<int>, p: int)
    requires Prime(p) && m.Length0 == p && m.Length1 == p
    requires forall a, c :: 0 <= a < p && 0 <= c < p ==>
               m[a, c] == CardinalityCount(p, a, c + 1, RecordCount(p))
    ensures NonzeroRowsIdentical(m)
  {
    forall a, c | 1 <= a < p && 0 <= c < p ensures m[a, c] == m[1, c] {
      PyModOfCanonical(a, p);
      PyModOfCanonical(1, p);
      CountsIndependent(p, a, c + 1, RecordCount(p));
    }
  }

  /** The total of the counts for cardinalities 1..cmax over [0, k). */
  function SumCounts(p: int, a: int, cmax: nat, k: nat): (r: nat)
    ensures k == 0 ==> r == 0
  {
    if cmax == 0 then 0 else SumCounts(p, a, cmax - 1, k) + CardinalityCount(p, a, cmax, k)
  }

  /** One more index adds one to the total when its cardinality is counted. */
  lemma {:induction false} SumCountsStep(p: int, a: int, cmax: nat, k: nat)
    ensures SumCounts(p, a, cmax, k + 1)
         == SumCounts(p, a, cmax, k) + (if 1 <= |ValueSetOf(k, p, a)| <= cmax then 1 else 0)
  {
    if cmax > 0 {
      SumCountsStep(p, a, cmax - 1, k);
    }
  }

  /** Every index has a cardinality in 1..p, so the counts for 1..p add up
      to the number of indices. */
  lemma {:induction false} SumCountsTotal(p: int, a: int, k: nat)
    requires p > 0
    ensures SumCounts(p, a, p, k) == k
  {
    if k > 0 {
      SumCountsTotal(p, a, k - 1);
      SumCountsStep(p, a, p, k - 1);
      ValueSetBounds(k - 1, p, a);
      SubsetSize({PyMod(D(k - 1, a, 0), p)}, ValueSetOf(k - 1, p, a));
      assert 1 <= |ValueSetOf(k - 1, p, a)| <= p;
    }
  }

  /** A row of the histogram adds up to the number of records. */
  lemma {:induction false} RowSumCounts(m: array2<int>, p: int, a: int, j: nat)
    requires 0 <= a < p && m.Length0 == p && m.Length1 == p && j <= p
    requires forall a', c :: 0 <= a' < p && 0 <= c < p ==>
               m[a', c] == CardinalityCount(p, a', c + 1, RecordCount(p))
    ensures RowSum(m, a, j) == SumCounts(p, a, j, RecordCount(p))
  {
    if j > 0 {
      RowSumCounts(m, p, a, j - 1);
    }
  }

  /** Every row of the histogram sums to the number of records, p^2 for
      p >= 2. */
  lemma RowTotal(m: array2<int>, p: int, a: int)
    requires 0 <= a < p && m.Length0 == p && m.Length1 == p
    requires forall a', c :: 0 <= a' < p && 0 <= c < p ==>
               m[a', c] == CardinalityCount(p, a', c + 1, RecordCount(p))
    ensures RowSum(m, a, p) == RecordCount(p)
    ensures p >= 2 ==> RowSum(m, a, p) == p * p
  {
    RowSumCounts(m, p, a, p);
    SumCountsTotal(p, a, RecordCount(p));
    if p >= 2 {
      MulPositiveMono(2, p, p);
    }
  }
}
