# Dickson polynomial research scripts — a verified Dafny model

The research scripts study the reversed Dickson polynomials over a prime field:

- D_0 = 2, D_1 = a, D_n = a·D_{n−1} − x·D_{n−2}.
- For each index n, the scripts ask how many distinct values D_n(a, x) mod p takes as x runs over [0, p).

This project models the exact-integer core of those scripts. It has three parts:

- **The recurrence evaluators.** The shared ones are `reversed_dickson`, `reversed_dickson_d1` and `classical_dickson` in `scripts/utilities/dickson.py`. The per-script copies live in the trivial-cardinality, formulas and verification scripts. Each is a loop over a running pair of terms. Each is proved against one recursive definition: `Dickson.D` for the reversed recurrence, `Dickson.E` for the classical one.
- **The value-set classification.**
  - `reversed_value_set` and `compute_value_set` each produce one value set.
  - `compute_value_sets` is the sweep that emits one record per index n ∈ [0, p²).
  - The card-2 and permutation index filters select indices from the sweep.
  - The cardinality histogram `card_matrix` counts the sweep's records by cardinality.
  - Around these sit the checks the scripts perform: identical histogram rows, the three cardinality-2 indices, and the pass/fail fold of the verification script.
- **The integer number-theory helpers.** These are `is_prime`, `factorize`, `tau`, `omega`, `euler_phi`, `factorize_str` and `divisors`.

## Modelling decisions

- **Python `%`.** Python's `%` takes the sign of the divisor. It is modelled by `PyArith.PyMod`, which handles a negative modulus exactly.
- **Errors become values.** Dividing or reducing by 0 raises in Python. A negative index raises in `dickson.py`. `math.sqrt` of a negative number raises in `divisors`. Each of these becomes an `Err` value of `Outcomes.Result`.
- **Square-root bounds.** The bound `int(math.sqrt(n))` is modelled as the exact integer square root (`DivisorEnumeration.ISqrt`), or as the loop condition `i * i <= n`.
- **Python dicts.** A Python dict keeps insertion order. It is modelled as `Factorization.Dict`: a key sequence in insertion order, plus a map from key to exponent.
- **Shared copies.** Several scripts carry identical copies of the same function, and each is modelled once:
  - `is_prime`: in `q5_parameter_a_variation.py`, `plot_q1_parameter_independence.py` (lines 25-31) and `plot_q4_trivial_cardinality.py` (lines 31-37). All are modelled by `ParameterVariation.IsPrime`.
  - `compute_value_sets`: in `q5_parameter_a_variation.py` and `plot_q1_parameter_independence.py` (lines 34-59). Both are modelled by `ParameterVariation.ComputeValueSets`.
  - `factorize`: in `plot_q5_full_coverage.py` and `plot_q3_cardinality_c_indices.py` (lines 28-39). Both are modelled by `Factorization.Factorize`.
  - `divisors`: in `plot_q3_cardinality_c_indices.py` and `q2_missing_cardinality_patterns.py` (lines 16-23). Both are modelled by `DivisorEnumeration.Divisors`.
- **Where the code and its comments disagree, the model follows the code:**
  - `compute_value_sets` says it covers n ∈ [0, p²−1), but its loop covers every n ∈ [0, p²). For p² < 2 it still emits the two initial records.
  - `dickson_mod` says it computes D_n(1, x), but it runs the classical recurrence E_n(x, 1). That is D_n with the two parameters exchanged (see Findings).
  - `verify_for_prime` labels p²−1 as `n1` and (p²+1)//2 as `n2`. The formulas script uses the opposite labels.
  - The trivial-cardinality evaluator `reversed_dickson_polynomial` does not reject a negative index. Its loop is then empty and it returns `1 % p`.
  - `dickson_polynomial_recurrence` and `dickson_mod` likewise return `a` and `x % p` for a negative index.

## Model

| member | source | states |
|---|---|---|
| Dickson.ReversedDickson | scripts/utilities/dickson.py:21-50 | a negative index is an error; modulus 0 is a ZeroDivisionError; otherwise the result is D_n(a, x) reduced by the modulus (unreduced without one), although the loop reduces a, x and every intermediate term as it goes |
| Dickson.ReversedDicksonD1 | scripts/utilities/dickson.py:53-58 | the same outcomes as the general evaluator at a = 1: error for n < 0 or modulus 0, else D_n(1, x) mod m |
| Dickson.ClassicalDickson | scripts/utilities/dickson.py:61-90 | a negative index and modulus 0 are errors; otherwise the result is E_n(x, a) reduced by the modulus |
| Dickson.ReversedValueSet | scripts/utilities/dickson.py:93-95 | empty for p <= 0 (the evaluator is never called), an error for a negative index, otherwise a non-empty set of at most p residues in [0, p) |
| Dickson.ValueSetBounds | scripts/utilities/dickson.py:93-95 | the value set of a positive modulus holds D_n(a, 0) mod p, lies in [0, p) and has at most p elements |
| Dickson.ReducedRecurrence | scripts/utilities/dickson.py:43-48 | the reduced value D_n mod m is determined by the reduced pair (D_{n−1} mod m, D_{n−2} mod m) and the reduced parameters: reducing as you go gives the same residue as reducing once at the end |
| Dickson.CongruentParameters | scripts/utilities/dickson.py:34-36 | parameters congruent modulo m give congruent values at every index |
| Dickson.ShiftInvariance | scripts/utilities/dickson.py:34-36 | shifting a or x by any multiple of the modulus leaves the reduced value unchanged |
| Dickson.ClassicalIsReversedSwapped | scripts/utilities/dickson.py:83-88 | E_n(x = u, a = v) equals D_n(a = u, x = v) for every n: the classical evaluator is the reversed one with its parameters exchanged |
| Dickson.Scaling | scripts/visualization/plot_q1_parameter_independence.py:180-183 | D_n(c, c²·y) = cⁿ·D_n(1, y) over the integers |
| NumberTheory.DivisorBelowRoot | scripts/investigation/q5_parameter_a_variation.py:32-34 | a composite n has a divisor in [2, i) whenever n < i², so trial division up to the square root finds one |
| ParameterVariation.IsPrime | scripts/investigation/q5_parameter_a_variation.py:29-35 | true exactly when num >= 2 and no d in [2, num) divides num |
| ParameterVariation.ComputeValueSets | scripts/investigation/q5_parameter_a_variation.py:38-67 | p = 0 fails; otherwise one record per n in [0, max(p², 2)), record n carries index n, the value set of D_n(a, ·) mod p listed once each in increasing order, its size, and the permutation flag set exactly when the size is p; the rotated lists hold D_{n−1} and D_{n−2} for every x, and the recurrence applied to them agrees with the direct evaluation |
| ParameterVariation.Classify | scripts/investigation/q5_parameter_a_variation.py:63-64 | the record built from a row of reduced values for index n carries n, the value set of D_n listed in increasing order, its size, and the permutation flag |
| ParameterVariation.NextRow | scripts/investigation/q5_parameter_a_variation.py:58-62 | the row built by direct evaluation holds D_n(a, x) mod p for every x in [0, p), and each entry is what the recurrence gives from the two previous rows |
| ParameterVariation.AmortisedStep | scripts/investigation/q5_parameter_a_variation.py:47-65 | the recurrence applied to the reduced entries of the two previous rows gives the reduced value at index n |
| ParameterVariation.ValuesCardinality | scripts/investigation/q5_parameter_a_variation.py:63-64 | a record's cardinality is the size of the value set it describes |
| ParameterVariation.RecordBounds | scripts/investigation/q5_parameter_a_variation.py:63-64 | for p > 0 every cardinality lies in 1..p, every listed value in [0, p), and the permutation flag holds exactly when the cardinality is p |
| ParameterVariation.FirstRecords | scripts/investigation/q5_parameter_a_variation.py:47-55 | records 0 and 1 list the single values 2 mod p and a mod p, with cardinality 1 |
| ParameterVariation.IndicesOfSweep | scripts/investigation/q5_parameter_a_variation.py:100-101 | a filtered index list is strictly increasing and holds exactly the positions of the records the filter keeps |
| ParameterVariation.FiltersOfSweep | scripts/investigation/q5_parameter_a_variation.py:100-101 | on the sweep, `card2_indices` holds exactly the n whose value set has 2 elements and `perm_indices` exactly the n whose value set has p elements, both in increasing order |
| ParameterVariation.PredictedIndicesOrdered | scripts/investigation/q5_parameter_a_variation.py:170 | for odd p > 3 the predicted indices satisfy 2 <= (p²+1)/2 < (p²+2p−1)/2 < p²−1 < p² |
| ParameterVariation.PredictedCheck | scripts/investigation/q5_parameter_a_variation.py:167-174 | comparing a sorted index list with the sorted predictions succeeds exactly when the listed indices are the three predicted ones |
| ParameterVariation.Card2FormulaCheckMeaning | scripts/investigation/q5_parameter_a_variation.py:167-174 | on a sweep with odd p > 3 the comparison succeeds exactly when the indices in [0, p²) with two values are (p²+1)/2, (p²+2p−1)/2 and p²−1 |
| ParameterIndependence.CardMatrix | scripts/visualization/plot_q1_parameter_independence.py:84-90 | a negative size is refused; otherwise a fresh p×p matrix whose entry [a, c−1] counts the indices of the sweep for parameter a whose value set has c elements |
| ParameterIndependence.RowTotal | scripts/visualization/plot_q1_parameter_independence.py:84-90 | every row of the histogram sums to the number of records, p² for p >= 2 |
| ParameterIndependence.ScaledValueSet | scripts/visualization/plot_q1_parameter_independence.py:180-183 | for a prime p and a not divisible by p, the value set for parameter a is the image of the value set for a = 1 under v ↦ aⁿ·v mod p |
| ParameterIndependence.CardinalityIndependent | scripts/visualization/plot_q1_parameter_independence.py:180-183 | for a prime p and a not divisible by p, the value set for parameter a has the same size as the one for a = 1, index by index |
| ParameterIndependence.CountsIndependent | scripts/visualization/plot_q1_parameter_independence.py:92-97 | the histogram counts of every nonzero parameter equal those of a = 1 |
| ParameterIndependence.RowsIdentical | scripts/visualization/plot_q1_parameter_independence.py:92-97 | for a prime p, the histogram `CardMatrix` builds passes the check: every nonzero row equals row 1 |
| TrivialCardinality.ReversedDicksonPolynomial | scripts/visualization/plot_q4_trivial_cardinality.py:16-28 | p = 0 fails; n >= 0 gives D_n(1, x) mod p, and a negative index gives 1 mod p |
| TrivialCardinality.TrivialValueSet | scripts/visualization/plot_q4_trivial_cardinality.py:60-65 | the set built by `values.add` is the value set of D_n(1, ·) mod p, and {1 mod p} for a negative index |
| TrivialCardinality.TrivialIndices | scripts/visualization/plot_q4_trivial_cardinality.py:172-173 | the value sets at n = 0 and n = 1 are the singletons {2 mod p} and {1 mod p}, that is {2} and {1} once p >= 3 |
| TrivialCardinality.PrimeIndexSingleton | scripts/visualization/plot_q4_trivial_cardinality.py:174 | for p = 5 and p = 7 the value set at n = p is {1} |
| Formulas.DicksonPolynomialRecurrence | scripts/analysis/dickson_polynomial_formulas.py:30-45 | D_n(a, x) over the integers for n >= 0, and a for a negative index |
| Formulas.DicksonModValue | scripts/analysis/dickson_polynomial_formulas.py:155-169 | the value of `dickson_mod` is a canonical residue of p, in [0, p) for p > 0 |
| Formulas.DicksonMod | scripts/analysis/dickson_polynomial_formulas.py:155-169 | p = 0 fails; otherwise E_n(x, 1) mod p for n >= 0 and x mod p for a negative index |
| Formulas.DicksonModIsReversedSwapped | scripts/analysis/dickson_polynomial_formulas.py:155-169 | for n >= 0 `dickson_mod(n, x, p)` equals D_n(a = x, x = 1) mod p, the reversed evaluator with exchanged parameters |
| Formulas.DicksonModResidue | scripts/analysis/dickson_polynomial_formulas.py:157 | `dickson_mod` depends on x only through x mod p |
| Formulas.DicksonModDocstringMismatch | scripts/analysis/dickson_polynomial_formulas.py:156 | at n = 2, x = 0, p = 5 the evaluator returns 3 where D_2(1, 0) mod 5 is 1 |
| Formulas.DicksonModCorrected | scripts/analysis/dickson_polynomial_formulas.py:155-169 | the evaluator the comment describes: p = 0 fails, otherwise D_n(1, x) mod p for n >= 0 (1 mod p for a negative index) |
| Formulas.ClosedFormIndices | scripts/analysis/dickson_polynomial_formulas.py:193-195 | n2 + 1 = p²; for odd p the halves are exact, 2·n1 = p²+1 and 2·n3 = p²+2p−1; for even p they truncate by one |
| Formulas.ExactHalves | scripts/analysis/dickson_polynomial_formulas.py:193-195 | for odd p the two floor divisions by 2 lose nothing |
| Formulas.EvenHalves | scripts/analysis/dickson_polynomial_formulas.py:193-195 | for even p both floor divisions drop exactly one half |
| Formulas.ModValues | scripts/analysis/dickson_polynomial_formulas.py:198 | the list holds `dickson_mod(n, x, p)` at position x for every x in [0, p), and is empty for p <= 0 |
| Formulas.CheckN | scripts/analysis/dickson_polynomial_formulas.py:197-208 | the distinct values come out strictly increasing and are exactly the values taken on [0, p); `matches_pm` holds exactly when every x in [0, p) has value x mod p or −x mod p |
| Formulas.PlusOrMinusDoesNotBoundImage | scripts/analysis/dickson_polynomial_formulas.py:209-210 | the flag alone does not bound the image by 2: at n = 1 it holds for every p >= 3 while the image has more than two values |
| ValueSetVerification.ReversedDicksonPolynomial | scripts/verification/verify_value_sets.py:13-15 | the same outcomes as `reversed_dickson_d1`: error for n < 0 or p = 0, else D_n(1, x) mod p |
| ValueSetVerification.ComputeValueSet | scripts/verification/verify_value_sets.py:18-27 | [] for p <= 0; an error for a negative index; otherwise a strictly increasing list of 1..p residues in [0, p) holding exactly the value set of D_n(1, ·) mod p |
| ValueSetVerification.VerifyForPrime | scripts/verification/verify_value_sets.py:30-42 | three cases at p²−1, (p²+1)//2 and (p²+2p−1)//2 with expected lists [1, 2], [1, p−1], [1, p−1], each carrying the computed value set |
| ValueSetVerification.CasePassesMultiset | scripts/verification/verify_value_sets.py:62-64 | `sorted(expected) == sorted(actual)` holds exactly when the two lists are permutations of each other |
| ValueSetVerification.PairCasePasses | scripts/verification/verify_value_sets.py:62-64 | a case expecting [u, w] with u != w passes exactly when p > 0 and the value set is {u, w} |
| ValueSetVerification.PrimeCases | scripts/verification/verify_value_sets.py:36-40 | the three cases of p pass together exactly when the value sets at p²−1, (p²+1)//2 and (p²+2p−1)//2 are {1, 2}, {1, p−1} and {1, p−1} |
| ValueSetVerification.FoldCases | scripts/verification/verify_value_sets.py:60-73 | the flag after the inner loop is the old flag and-ed with the pass of every case |
| ValueSetVerification.CheckPrime | scripts/verification/verify_value_sets.py:54-73 | the flag after one prime is the old flag and-ed with that prime's three value sets being the predicted ones |
| ValueSetVerification.AllPassed | scripts/verification/verify_value_sets.py:52-73 | `all_passed` ends true exactly when every test prime has the three predicted value sets |
| Sorting.SortSet | scripts/investigation/q5_parameter_a_variation.py:63 | `sorted(set(...))` lists the members of the set once each in strictly increasing order |
| Sorting.InsertFacts | scripts/verification/verify_value_sets.py:62-63 | inserting into a non-decreasing list keeps it non-decreasing and adds exactly that element |
| Sorting.SortFacts | scripts/verification/verify_value_sets.py:62-63 | `sorted(list)` is non-decreasing and a permutation of its argument |
| Sorting.SortOfAscending | scripts/visualization/plot_q5_full_coverage.py:57 | sorting a strictly increasing list returns it unchanged |
| Factorization.IncrementFacts | scripts/visualization/plot_q5_full_coverage.py:22 | `factors[k] = factors.get(k, 0) + 1` keeps the dict well formed, raises the count of k by one (from 0 when absent) and changes no other entry |
| Factorization.TallyFacts | scripts/visualization/plot_q5_full_coverage.py:22 | counting a list gives a well-formed dict whose keys are exactly the list's members, each with count at least 1 |
| Factorization.TallyAscending | scripts/visualization/plot_q5_full_coverage.py:22 | counting a non-decreasing list inserts the keys in strictly increasing order, the last key being the last entry |
| Factorization.TallyProduct | scripts/visualization/plot_q5_full_coverage.py:22 | for a non-decreasing list the product of key^count over the counted dict is the product of the list |
| Factorization.SmallestFactor | scripts/visualization/plot_q5_full_coverage.py:19-24 | the least divisor >= 2 of n >= 2 is prime, divides n, and no number in [2, it) divides n |
| Factorization.FactorListProduct | scripts/visualization/plot_q5_full_coverage.py:19-26 | the prime factors in the order trial division finds them multiply to n |
| Factorization.FactorListMembers | scripts/visualization/plot_q5_full_coverage.py:19-26 | v occurs among the factors of n >= 1 exactly when v is a prime dividing n |
| Factorization.FactorListAscending | scripts/visualization/plot_q5_full_coverage.py:19-24 | the factors found by increasing trial divisors form a non-decreasing list |
| Factorization.NextCandidate | scripts/visualization/plot_q5_full_coverage.py:24 | once d no longer divides the remaining m, no divisor of m lies in [2, d+1) |
| Factorization.DivideOut | scripts/visualization/plot_q5_full_coverage.py:21-23 | dividing out a least divisor d peels the first factor off, and d stays below every divisor of the quotient |
| Factorization.DivideStep | scripts/visualization/plot_q5_full_coverage.py:21-23 | one pass of the inner loop keeps the invariant: the factors counted so far followed by the factors of the remaining m are the factors of n |
| Factorization.LastFactor | scripts/visualization/plot_q5_full_coverage.py:25-26 | a remainder m > 1 with no divisor d where d² <= m is its own single prime factor |
| Factorization.FinalStep | scripts/visualization/plot_q5_full_coverage.py:25-26 | counting a remainder m > 1 completes the factorization of n |
| Factorization.Exhausted | scripts/visualization/plot_q5_full_coverage.py:25-27 | a remainder of 1 means the dict already is the factorization of n |
| Factorization.Factorize | scripts/visualization/plot_q5_full_coverage.py:16-27 | the dict the nested loops build is the count of the prime factors of n in the order they are found |
| Factorization.FactorizationShape | scripts/visualization/plot_q5_full_coverage.py:16-27 | the keys are distinct, strictly increasing and prime, and every exponent is at least 1 |
| Factorization.FactorizationEmpty | scripts/visualization/plot_q5_full_coverage.py:16-27 | the dict is empty exactly when n <= 1 |
| Factorization.FactorizationProduct | scripts/visualization/plot_q5_full_coverage.py:16-27 | for n >= 1 the product of key^exponent equals n |
| Factorization.FactorizationPrimes | scripts/visualization/plot_q5_full_coverage.py:16-27 | q is a key exactly when q is a prime dividing n |
| Factorization.PrimeFactorization | scripts/visualization/plot_q5_full_coverage.py:16-27 | a prime q factorizes as {q: 1} |
| Factorization.CountFoldBounds | scripts/visualization/plot_q5_full_coverage.py:33-35 | the product of (e+1) over positive exponents is at least 1, and exactly 1 only for no keys |
| Factorization.Tau | scripts/visualization/plot_q5_full_coverage.py:30-36 | the product of (e+1) over the exponents of the factorization; at least 1, and 1 exactly when n <= 1 |
| Factorization.Omega | scripts/visualization/plot_q5_full_coverage.py:39-41 | the number of keys, which is the number of distinct primes dividing n |
| Factorization.TotientStep | scripts/visualization/plot_q5_full_coverage.py:49 | when the running value is a multiple of p, the floor division in `result * (p - 1) // p` is exact |
| Factorization.TotientLoopStep | scripts/visualization/plot_q5_full_coverage.py:47-49 | each loop step is exact, turns one more factor p^e into p^(e−1)·(p−1), and keeps result·∏p = n·∏(p−1) over the primes done so far |
| Factorization.EulerPhi | scripts/visualization/plot_q5_full_coverage.py:44-50 | n itself for n <= 1; for n >= 1 the product of p^(e−1)·(p−1) over the factorization, with result·∏p = n·∏(p−1) over the prime divisors |
| Factorization.PrimeTauAndTotient | scripts/visualization/plot_q5_full_coverage.py:30-50 | a prime q has tau 2 and totient q−1 |
| Factorization.DigitChar | scripts/visualization/plot_q5_full_coverage.py:60 | the character of a digit d is a decimal digit whose code lies d above '0' |
| Factorization.Decimal | scripts/visualization/plot_q5_full_coverage.py:60 | `str(n)` of a natural number is a non-empty string of digits with no leading zero |
| Factorization.DecimalRoundTrip | scripts/visualization/plot_q5_full_coverage.py:60 | reading back the decimal rendering of n gives n |
| Factorization.DecimalCanonical | scripts/visualization/plot_q5_full_coverage.py:60 | every digit string without a leading zero is the rendering of its value, so rendering is a bijection onto those strings |
| Factorization.Str | scripts/visualization/plot_q5_full_coverage.py:60 | `str(k)` of any integer is non-empty |
| Factorization.PartsNonEmpty | scripts/visualization/plot_q5_full_coverage.py:57-62 | one part per prime, each non-empty |
| Factorization.JoinEmpty | scripts/visualization/plot_q5_full_coverage.py:63 | joining non-empty parts is "" exactly when there are no parts |
| Factorization.FactorizeStr | scripts/visualization/plot_q5_full_coverage.py:53-63 | the primes in increasing order, each rendered "p" or "p^e" for e > 1, joined by " * "; "" exactly when n <= 1 |
| DivisorEnumeration.ISqrt | scripts/visualization/plot_q3_cardinality_c_indices.py:21 | the bound r satisfies r² <= n < (r+1)² |
| DivisorEnumeration.CoDivisor | scripts/visualization/plot_q3_cardinality_c_indices.py:24 | for a divisor d of n >= 1, n // d is a divisor of n in [1, n] whose own co-divisor is d |
| DivisorEnumeration.SmallSide | scripts/visualization/plot_q3_cardinality_c_indices.py:21 | a divisor above the square root has its co-divisor at or below it |
| DivisorEnumeration.CollectStep | scripts/visualization/plot_q3_cardinality_c_indices.py:22-24 | adding i and n // i when i divides n extends the set of divisors collected so far from candidates below i to candidates up to i |
| DivisorEnumeration.Divisors | scripts/visualization/plot_q3_cardinality_c_indices.py:18-25 | a negative n is a math domain error; otherwise exactly the d with 1 <= d <= n dividing n, empty for n = 0 |
| DivisorEnumeration.DivisorSetFacts | scripts/investigation/q2_missing_cardinality_patterns.py:16-23 | the divisors of n >= 1 include 1 and n, are closed under d ↦ n // d (an involution), and number at most n; those of n <= 0 are none |

## Left out

- Everything around the core is left out. That covers CSV reading and pandas filtering, plotting, printing and file writing, every `main` beyond the folds modelled above, and the float work: coverage percentages, polynomial fits, RMSE and log trends.
- The sympy symbolic expansions are left out because they call a foreign library. These are `analyze_dickson_for_cardinality_2_indices`, `verify_n2_formula` and `simplify`/`expand`.
- `scripts/investigation/q3_permutation_indices.py` is not part of this model. Its gcd criterion and inline factor loop sit inside a CSV-driven `main`.
- `scripts/investigation/q4_cardinality_formulas.py` is not part of this model (float fits).
- `scripts/analysis/dickson_polynomial_analysis.py` is not part of this model (printing wrappers over `dickson.py`).
- The gcd(n, p²−1) = 1 ⇔ permutation criterion and the general cardinality-2 index formulas are not proved. They need arithmetic in the field of p² elements. Only the meaning of the checks that compare against them is proved (`ParameterVariation.Card2FormulaCheckMeaning`, `ValueSetVerification.AllPassed`).
- TrivialCardinality.PrimeIndexSingleton: the value set {1} at n = p is proved for p = 5 and p = 7 only. The general statement needs the Frobenius identity in the field of p² elements.
- The claim that 0, 1 and p are the only indices in [0, p²) with cardinality 1 is not proved. It is also part of the CSV cross-check, which is outside the model.
- Factorization.Tau: the contract gives the product of (e+1) and its bounds. It does not prove that this equals the number of divisors of n.
- Factorization.EulerPhi: the contract proves exactness of every floor division and the product formula. It does not prove that the result counts the k in [1, n] coprime to n, which needs the Chinese remainder theorem.
- Python's arbitrary-precision integers are modelled by Dafny's unbounded `int`, so no overflow is modelled. The floats of `int(math.sqrt(n))` are replaced by exact integer square roots. For very large n, float rounding could make the script's bound differ by one; the model does not capture that.
- The per-prime and per-parameter sweeps are sequential in the model. Parallel execution and performance are not modelled.

## Findings

| source | as written | input that shows it | evidently intended | confidence | as-written member | corrected member |
|---|---|---|---|---|---|---|
| scripts/analysis/dickson_polynomial_formulas.py:155-169 | `dickson_mod(n, x, p)` iterates E_i = x·E_{i−1} − E_{i−2} from E_1 = x, the classical polynomial E_n(x, 1) | n = 2, x = 0, p = 5 returns 3, while D_2(1, 0) mod 5 = 1 | the documented D_n(1, x) mod p, the reversed recurrence D_i = D_{i−1} − x·D_{i−2} from D_1 = 1 | not executed | Formulas.DicksonModDocstringMismatch | Formulas.DicksonModCorrected |
