/** scripts/investigation/q5_parameter_a_variation.py: the trial-division
    primality test, the sweep that classifies the value set of D_n(a, x)
    modulo p for every index n in [0, p*p), and the two index filters the
    analysis applies to the sweep's records. */
module ParameterVariation {
  import opened Outcomes
  import opened PyArith
  import opened Sorting
  import opened NumberTheory
  import opened Dickson
  import opened Formulas

  /** `is_prime(num)`: trial division by every d with d*d <= num. */
  method IsPrime(num: int) returns (b: bool)
    ensures b <==> Prime(num)
  {
    if num < 2 {
      return false;
    }
    var i := 2;
    while i * i <= num
      invariant 2 <= i
      invariant forall d :: 2 <= d < i ==> num % d != 0
    {
      if num % i == 0 {
        return false;
      }
      i := i + 1;
    }
    forall d | 2 <= d < num
      ensures num % d != 0
    {
      if num % d == 0 {
        var e := DivisorBelowRoot(num, d, i);
        assert false;
      }
    }
    return true;
  }

  /** One classification record: the index n, the number of distinct
      values, whether the map x -> D_n(a, x) mod p hits all p residues, and
      the distinct values in increasing order. */
  datatype Record = Record(n: int, cardinality: int, isPermutation: bool, values: seq<int>)

  /** The record the sweep emits for index n: its values are exactly the
      value set of D_n(a, .) modulo p, listed once each in increasing order. */
  ghost predicate Classifies(rec: Record, n: nat, p: int, a: int) {
    && rec.n == n
    && StrictlyIncreasing(rec.values)
    && (forall v :: v in rec.values <==> v in ValueSetOf(n, p, a))
    && rec.cardinality == |rec.values|
    && rec.isPermutation == (rec.cardinality == p)
  }

  /** The sweep appends records for n = 0 and n = 1 and then one for each n
      in range(2, p*p), so it covers every n in [0, p*p) and never fewer
      than two. */
  function RecordCount(p: int): nat {
    if p * p < 2 then 2 else p * p
  }

  /** The length of `[v] * p`: Python repeats a list zero times for p <= 0. */
  function Width(p: int): nat {
    if p > 0 then p else 0
  }

  /** The distinct entries of a list of values are the value set at n. */
  lemma ListValueSet(vs: seq<int>, n: nat, p: int, a: int)
    requires p != 0 && |vs| == Width(p)
    requires forall x :: 0 <= x < |vs| ==> vs[x] == PyMod(D(n, a, x), p)
    ensures (set v | v in vs) == ValueSetOf(n, p, a)
  {
    forall v | v in ValueSetOf(n, p, a) ensures v in vs {
      var x :| 0 <= x < p && v == PyMod(D(n, a, x), p);
      assert vs[x] == v;
    }
  }

  /** `compute_value_sets(p, a)`. Python raises at `2 % p` for p == 0. The
      lists `Dprev`/`Dcurr` hold D_{n-1} and D_n reduced modulo p for every
      x; they are rotated every step, and the value they would give through
      the recurrence is exactly the value the direct evaluation returns. */
  method ComputeValueSets(p: int, a: int) returns (r: Result<seq<Record>>)
    ensures p == 0 ==> r == Err(ZeroDivisionError)
    ensures p != 0 ==> r.Ok? && |r.value| == RecordCount(p)
    ensures p != 0 ==> forall n :: 0 <= n < |r.value| ==> Classifies(r.value[n], n, p, a)
  {
    if p == 0 {
      return Err(ZeroDivisionError);
    }
    var results: seq<Record> := [];
    var dPrev := seq(Width(p), _ => PyMod(2, p));
    var dCurr := seq(Width(p), _ => PyMod(a, p));

    var rec := Classify(0, p, a, dPrev);
    results := results + [rec];
    rec := Classify(1, p, a, dCurr);
    results := results + [rec];

    for n := 2 to RecordCount(p)
      invariant |results| == n
      invariant forall i :: 0 <= i < n ==> Classifies(results[i], i, p, a)
      invariant RowOf(dPrev, n - 2, p, a) && RowOf(dCurr, n - 1, p, a)
    {
      var dNext := NextRow(n, p, a, dPrev, dCurr);
      rec := Classify(n, p, a, dNext);
      results := results + [rec];
      dPrev, dCurr := dCurr, dNext;
    }
    return Ok(results);
  }

  /** `row` lists D_n(a, x) mod p at every position x of `range(p)`. */
  ghost predicate RowOf(row: seq<int>, n: nat, p: int, a: int) {
    |row| == Width(p) && forall x :: 0 <= x < |row| ==> row[x] == PyMod(D(n, a, x), p)
  }

  /** `vals = sorted(set(row))` and the record built from it. */
  method Classify(n: nat, p: int, a: int, row: seq<int>) returns (rec: Record)
    requires p != 0 && RowOf(row, n, p, a)
    ensures Classifies(rec, n, p, a)
  {
    ListValueSet(row, n, p, a);
    var vals := SortSet(set v | v in row);
    rec := Record(n, |vals|, |vals| == p, vals);
  }

  /** The inner loop building `Dnext` by direct evaluation; each entry is
      also what the recurrence gives from the entries of `Dprev` and
      `Dcurr`. */
  method NextRow(n: nat, p: int, a: int, dPrev: seq<int>, dCurr: seq<int>) returns (dNext: seq<int>)
    requires n >= 2 && p != 0
    requires RowOf(dPrev, n - 2, p, a) && RowOf(dCurr, n - 1, p, a)
    ensures RowOf(dNext, n, p, a)
    ensures forall x :: 0 <= x < |dNext| ==> dNext[x] == PyMod(a * dCurr[x] - x * dPrev[x], p)
  {
    dNext := [];
    for x := 0 to Width(p)
      invariant |dNext| == x
      invariant forall y :: 0 <= y < x ==> dNext[y] == PyMod(D(n, a, y), p)
      invariant forall y :: 0 <= y < x ==> dNext[y] == PyMod(a * dCurr[y] - y * dPrev[y], p)
    {
      var value := ReversedDickson(n, a, x, Some(p));
      AmortisedStep(n, a, x, p, dPrev[x], dCurr[x]);
      dNext := dNext + [value.value];
    }
  }

  /** The recurrence applied to the reduced values the lists hold for x
      gives the reduced value at index n. */
  lemma AmortisedStep(n: nat, a: int, x: int, p: int, prev: int, curr: int)
    requires n >= 2 && p != 0
    requires prev == PyMod(D(n - 2, a, x), p) && curr == PyMod(D(n - 1, a, x), p)
    ensures PyMod(a * curr - x * prev, p) == PyMod(D(n, a, x), p)
  {
    ReducedRecurrence(n, a, x, p);
    PyModIdempotent(a, p);
    PyModIdempotent(x, p);
    PyModIdempotent(D(n - 1, a, x), p);
    PyModIdempotent(D(n - 2, a, x), p);
    PyModLinearStep(a, curr, x, prev, PyMod(a, p), curr, PyMod(x, p), prev, p);
  }

  /** The indices n of the records a filter keeps, in sweep order: the list
      comprehension `[r[0] for r in results if keep(r)]`. */
  function Indices(results: seq<Record>, keep: Record -> bool): seq<int> {
    if results == [] then []
    else
      var last := results[|results| - 1];
      Indices(results[..|results| - 1], keep) + (if keep(last) then [last.n] else [])
  }

  predicate HasCardinalityTwo(rec: Record) {
    rec.cardinality == 2
  }

  predicate IsPermutationRecord(rec: Record) {
    rec.isPermutation
  }

  /** `card2_indices`: the indices whose value set has two elements. */
  function Card2Indices(results: seq<Record>): seq<int> {
    Indices(results, HasCardinalityTwo)
  }

  /** `perm_indices`: the indices classified as permutations. */
  function PermIndices(results: seq<Record>): seq<int> {
    Indices(results, IsPermutationRecord)
  }

  /** On a sweep whose record i describes index i, a filter returns exactly
      the indices of the kept records, in increasing order. */
  lemma {:induction false} IndicesOfSweep(results: seq<Record>, keep: Record -> bool)
    requires forall i :: 0 <= i < |results| ==> results[i].n == i
    ensures StrictlyIncreasing(Indices(results, keep))
    ensures forall k :: k in Indices(results, keep) <==> 0 <= k < |results| && keep(results[k])
  {
    if results != [] {
      var init := results[..|results| - 1];
      IndicesOfSweep(init, keep);
      var front := Indices(init, keep);
      var whole := Indices(results, keep);
      assert forall i :: 0 <= i < |front| ==> front[i] < |init| by {
        forall i | 0 <= i < |front| ensures front[i] < |init| {
          assert front[i] in front;
        }
      }
      assert whole == front + (if keep(results[|init|]) then [|init|] else []);
    }
  }

  /** The two filters on the records of `compute_value_sets`. */
  lemma FiltersOfSweep(results: seq<Record>, p: int, a: int)
    requires forall n :: 0 <= n < |results| ==> Classifies(results[n], n, p, a)
    ensures StrictlyIncreasing(Card2Indices(results)) && StrictlyIncreasing(PermIndices(results))
    ensures forall k :: k in Card2Indices(results) <==> 0 <= k < |results| && |ValueSetOf(k, p, a)| == 2
    ensures forall k :: k in PermIndices(results) <==> 0 <= k < |results| && |ValueSetOf(k, p, a)| == p
  {
    IndicesOfSweep(results, HasCardinalityTwo);
    IndicesOfSweep(results, IsPermutationRecord);
    forall k | 0 <= k < |results| ensures results[k].cardinality == |ValueSetOf(k, p, a)| {
      ValuesCardinality(results[k], k, p, a);
    }
  }

  /** A record's cardinality is the size of the value set it lists. */
  lemma ValuesCardinality(rec: Record, n: nat, p: int, a: int)
    requires Classifies(rec, n, p, a)
    ensures rec.cardinality == |ValueSetOf(n, p, a)|
  {
    DistinctListSize(rec.values);
    assert (set v | v in rec.values) == ValueSetOf(n, p, a);
  }

  /** The records for n = 0 and n = 1 list the single values 2 mod p and
      a mod p, for any positive modulus. */
  lemma FirstRecords(results: seq<Record>, p: int, a: int)
    requires p > 0 && |results| >= 2
    requires forall n :: 0 <= n < |results| ==> Classifies(results[n], n, p, a)
    ensures results[0].values == [PyMod(2, p)] && results[0].cardinality == 1
    ensures results[1].values == [PyMod(a, p)] && results[1].cardinality == 1
  {
    assert ValueSetOf(0, p, a) == {PyMod(2, p)} by {
      assert PyMod(D(0, a, 0), p) in ValueSetOf(0, p, a);
    }
    assert ValueSetOf(1, p, a) == {PyMod(a, p)} by {
      assert PyMod(D(1, a, 0), p) in ValueSetOf(1, p, a);
    }
    SingletonList(results[0].values, PyMod(2, p));
    SingletonList(results[1].values, PyMod(a, p));
  }

  /** Every record lists between 1 and p residues of [0, p) for p >= 1. */
  lemma RecordBounds(rec: Record, n: nat, p: int, a: int)
    requires p > 0 && Classifies(rec, n, p, a)
    ensures 1 <= rec.cardinality <= p
    ensures forall v :: v in rec.values ==> 0 <= v < p
    ensures rec.isPermutation <==> rec.cardinality == p
  {
    ValuesCardinality(rec, n, p, a);
    ValueSetBounds(n, p, a);
  }

  /** The check of lines 167-174 for a = 1: the sorted card-2 indices equal
      the sorted three predicted indices. */
  function Card2FormulaCheck(p: int, card2: seq<int>): bool {
    Sort(card2) == Sort(PredictedCard2(p))
  }

  /** The three indices the analysis predicts for cardinality 2, in the
      order the script lists them. */
  function PredictedCard2(p: int): seq<int> {
    [(p * p + 1) / 2, p * p - 1, (p * p + 2 * p - 1) / 2]
  }

  /** For odd p > 3 the three predicted indices are distinct, in this
      order, and lie in [2, p*p). */
  lemma PredictedIndicesOrdered(p: int, n1: int, n2: int, n3: int)
    requires p > 3 && p % 2 == 1
    requires n1 == (p * p + 1) / 2 && n2 == (p * p + 2 * p - 1) / 2 && n3 == p * p - 1
    ensures 2 <= n1 < n2 < n3 < p * p
  {
    ExactHalves(p);
    MulPositiveMono(3, p, p);
  }

  /** Sorting three values given in the order first, third, second. */
  lemma SortThree(n1: int, n2: int, n3: int)
    requires n1 < n2 < n3
    ensures Sort([n1, n3, n2]) == [n1, n2, n3]
  {
    SortCons(n2, []);
    assert Sort([n2]) == [n2];
    SortCons(n3, [n2]);
    InsertAfterHead(n3, [n2]);
    assert Sort([n3, n2]) == [n2, n3];
    SortCons(n1, [n3, n2]);
    InsertBeforeHead(n1, [n2, n3]);
  }

  /** The check compares an increasing list of indices in [0, p*p) with
      the three predicted ones: it succeeds exactly when the indices the
      list holds are those three. */
  lemma PredictedCheck(card2: seq<int>, p: int, hasTwo: int -> bool)
    requires p > 3 && p % 2 == 1
    requires StrictlyIncreasing(card2)
    requires forall k :: k in card2 <==> 0 <= k < p * p && hasTwo(k)
    ensures Card2FormulaCheck(p, card2)
        <==> forall k :: 0 <= k < p * p ==> (hasTwo(k) <==>
               k == (p * p + 1) / 2 || k == (p * p + 2 * p - 1) / 2 || k == p * p - 1)
  {
    var n1, n2, n3 := (p * p + 1) / 2, (p * p + 2 * p - 1) / 2, p * p - 1;
    PredictedIndicesOrdered(p, n1, n2, n3);
    assert Sort(PredictedCard2(p)) == [n1, n2, n3] by {
      assert PredictedCard2(p) == [n1, n3, n2];
      SortThree(n1, n2, n3);
    }
    SortOfAscending(card2);
    assert Card2FormulaCheck(p, card2) <==> card2 == [n1, n2, n3];
    SameAsThree(card2, n1, n2, n3, p * p, hasTwo);
  }

  /** An increasing list of the indices in [0, q) that satisfy `hasTwo` is
      [n1, n2, n3] exactly when those three are the indices satisfying it. */
  lemma SameAsThree(card2: seq<int>, n1: int, n2: int, n3: int, q: int, hasTwo: int -> bool)
    requires 0 <= n1 < n2 < n3 < q
    requires StrictlyIncreasing(card2)
    requires forall k :: k in card2 <==> 0 <= k < q && hasTwo(k)
    ensures card2 == [n1, n2, n3]
        <==> forall k :: 0 <= k < q ==> (hasTwo(k) <==> k == n1 || k == n2 || k == n3)
  {
    if forall k :: 0 <= k < q ==> (hasTwo(k) <==> k == n1 || k == n2 || k == n3) {
      StrictSameMembers(card2, [n1, n2, n3]);
    }
  }

  /** On the records of a sweep with odd p > 3 the check succeeds exactly
      when the cardinality-2 indices are the three predicted ones. */
  lemma Card2FormulaCheckMeaning(results: seq<Record>, p: int, a: int)
    requires p > 3 && p % 2 == 1 && |results| == RecordCount(p)
    requires forall n :: 0 <= n < |results| ==> Classifies(results[n], n, p, a)
    ensures Card2FormulaCheck(p, Card2Indices(results))
        <==> forall k :: 0 <= k < p * p ==> (HasTwoValues(k, p, a) <==>
               k == (p * p + 1) / 2 || k == (p * p + 2 * p - 1) / 2 || k == p * p - 1)
  {
    FiltersOfSweep(results, p, a);
    assert |results| == p * p by { MulPositiveMono(3, p, p); }
    PredictedCheck(Card2Indices(results), p, k => HasTwoValues(k, p, a));
  }

  /** The value set at index k has exactly two elements. */
  ghost predicate HasTwoValues(k: int, p: int, a: int) {
    0 <= k && |ValueSetOf(k, p, a)| == 2
  }
}
