# Association-rule verifier: a Dafny model

This project models the association-rule verifier `ARVerifier` and its
statistics engine `ARStatsCalculator`. The verifier is given a set of
transactions (transaction id -> list of item ids) and a rule X => Y, where X
and Y are lists of item names.

- Its constructor runs the loops that turn each rule item name into its
  position in the item universe. It runs them before any option is set, so
  the name lists are still empty and the rule it builds is empty (see
  Findings).
- It rejects an empty dataset.
- It hands the data and the rule to the engine.
- It reports the engine's support, confidence and clusters, and tests them
  against two thresholds.

For each transaction the engine computes two overlap coefficients: one
against the left side of the rule and one against the right side. It keeps
the transactions whose coefficients pass a threshold that depends on the
size of the left side. It derives support and confidence from the kept
entries by integer division. Finally it buckets the kept transaction ids by
the priority 3*floor(left) + 2*floor(right).

Files:

- `wrappers.dfy`: the `Option` and `Result` types. A thrown exception
  becomes a `Failure`.
- `sums.dfy`: sums over finite sets of items.
- `similarity.dfy`: the overlap coefficient.
  - The counts behind it are specification functions.
  - `Jaccard` is the exact rational value.
  - The counting loops are methods proved equal to these counts.
- `ar_stats_calculator.dfy`: the engine.
  - Specification functions for the stored coefficient map and the buckets.
  - The two loops (filtering and bucketing), as methods with invariants.
  - The class `ARStatsCalculator`, with the source's fields and methods.
- `ar_properties.dfy`: consequences of the engine's definitions.
- `ar_verifier.dfy`: name resolution, the `ARHolds` test and the
  class `ARVerifier`.

The model follows the code, including these behaviours:

- An empty transaction has coefficient 0.
- The "union" adds up all of the transaction's item counts, so the
  coefficient is not symmetric.
- The threshold `(|left| - 2) / |left|` is computed in unsigned 64-bit
  arithmetic:
  - it is 0 for |left| >= 2;
  - it wraps to 2^64 - 1 for |left| = 1;
  - it is a division by zero for an empty left side, as in the default
    constructor.
- The counter of violating transactions is never incremented.
- `ARHolds` compares the confidence with `minsup` and the support with
  `minconf`.
- `VerifyAR` builds a fresh engine but never computes the statistics.

## Model

| member | source | states |
|---|---|---|
| Similarity.CountItems | src/core/algorithms/association_rules/ar_verifier/ar_stats_calculator.cpp:12-15 | the count map has exactly the distinct items as keys, each mapped to its number of occurrences |
| Similarity.AccumulateTransactionItems | src/core/algorithms/association_rules/ar_verifier/ar_stats_calculator.cpp:17-29 | the first loop yields the intersection count (sum over the transaction's items of min(count in transaction, count in rule side)) and the transaction's total count |
| Similarity.AccumulateRuleOnlyItems | src/core/algorithms/association_rules/ar_verifier/ar_stats_calculator.cpp:31-35 | the second loop adds the counts of the rule-side items that are absent from the transaction |
| Similarity.JaccardSimilarity | src/core/algorithms/association_rules/ar_verifier/ar_stats_calculator.cpp:8-40 | the result is the exact ratio Jaccard(t, r); it is 0 for an empty transaction and always lies in [0, 1] |
| Similarity.CountOrder | src/core/algorithms/association_rules/ar_verifier/ar_stats_calculator.cpp:17-37 | 0 <= intersection <= transaction count <= union, and the union is at least 1 for a non-empty transaction, so the union == 0 branch cannot be reached |
| Similarity.IntersectionFull | src/core/algorithms/association_rules/ar_verifier/ar_stats_calculator.cpp:20-27 | the intersection equals the transaction count iff every transaction item occurs in the rule side at least as often |
| Similarity.IntersectionEmpty | src/core/algorithms/association_rules/ar_verifier/ar_stats_calculator.cpp:24-27 | the intersection is 0 iff the transaction and the rule side share no item |
| Similarity.RuleOnlyEmpty | src/core/algorithms/association_rules/ar_verifier/ar_stats_calculator.cpp:31-35 | the rule-only part of the union is 0 iff every rule item occurs in the transaction |
| Similarity.JaccardBounds | src/core/algorithms/association_rules/ar_verifier/ar_stats_calculator.cpp:37-39 | the coefficient lies in [0, 1] |
| Similarity.JaccardOne | src/core/algorithms/association_rules/ar_verifier/ar_stats_calculator.cpp:20-39 | the coefficient is 1 iff the transaction is non-empty, every rule item occurs in it, and no transaction item occurs more often in the transaction than in the rule side |
| Similarity.JaccardZero | src/core/algorithms/association_rules/ar_verifier/ar_stats_calculator.cpp:10-39 | the coefficient is 0 iff no item of the transaction occurs in the rule side (this includes the empty transaction) |
| Similarity.JaccardSelfMatch | src/core/algorithms/association_rules/ar_verifier/ar_stats_calculator.cpp:20-39 | a non-empty transaction with the same multiset as the rule side has coefficient 1 |
| Similarity.JaccardAsymmetric | src/core/algorithms/association_rules/ar_verifier/ar_stats_calculator.cpp:28-35 | Jaccard([a], [a, a]) = 1 but Jaccard([a, a], [a]) = 1/2 |
| ArStats.JaccardThreshold | src/core/algorithms/association_rules/ar_verifier/ar_stats_calculator.h:19 | the unsigned computation (wrap-around subtraction, then division) equals ThresholdForLeft: a division by zero iff the left side is empty, SIZE_MAX for one item, and 0 for two or more |
| ArStats.ClusterPriority | src/core/algorithms/association_rules/ar_verifier/ar_stats_calculator.cpp:42-45 | 3*floor(l) + 2*floor(r); its values on stored pairs are stated by PriorityInUnitSquare |
| ArStats.PriorityInUnitSquare | src/core/algorithms/association_rules/ar_verifier/ar_stats_calculator.cpp:42-45 | for coefficients in [0, 1], 3*floor(l) + 2*floor(r) is one of 0, 2, 3 and 5, and it is 5 iff both coefficients are exactly 1 |
| ArStats.Relevant | src/core/algorithms/association_rules/ar_verifier/ar_stats_calculator.cpp:52-55 | the filter test: left coefficient above the threshold, and right coefficient above it or exactly 0 (consequences in StoredWhenWideLeft and NothingStoredForSingleItemLeft) |
| ArStats.StoredCoefficients | src/core/algorithms/association_rules/ar_verifier/ar_stats_calculator.cpp:47-58 | the reference map id -> (l, r) over all transactions that pass Relevant; StoreRelevant and CalculateJaccardCoefficients are proved to produce it |
| ArStats.StoredShape | src/core/algorithms/association_rules/ar_verifier/ar_stats_calculator.cpp:47-58 | the stored map has entries only for transactions, and every stored pair has one of the four priorities |
| ArStats.StoreRelevant | src/core/algorithms/association_rules/ar_verifier/ar_stats_calculator.cpp:47-58 | starting from any map that agrees with the stored map, the loop over the transactions yields exactly the stored map: id -> (l, r) iff l > threshold and (r > threshold or r == 0) |
| ArStats.Share | src/core/algorithms/association_rules/ar_verifier/ar_stats_calculator.cpp:61-66 | count / size in integer division, widened to double: for count <= size it is 1 iff count == size and 0 iff count < size |
| ArStats.ConfidenceFrom | src/core/algorithms/association_rules/ar_verifier/ar_stats_calculator.cpp:74 | support / lhs-support when lhs-support is non-zero (the result times lhs-support is the support), and 0 otherwise |
| ArStats.ExactIdsAreAllIff | src/core/algorithms/association_rules/ar_verifier/ar_stats_calculator.cpp:60-66 | the stored both-exact ids are all the transactions iff the threshold is 0 and every transaction has both coefficients exactly 1 |
| ArStats.SupportIsAllOrNothing | src/core/algorithms/association_rules/ar_verifier/ar_stats_calculator.cpp:60-66 | the integer-division support is 1 in that case and 0 otherwise |
| ArStats.SupportAtMostLhsSupport | src/core/algorithms/association_rules/ar_verifier/ar_stats_calculator.cpp:60-73 | support <= lhs-support, because the both-exact ids are among the left-exact ids |
| ArStats.ConfidenceIsSupport | src/core/algorithms/association_rules/ar_verifier/ar_stats_calculator.cpp:69-75 | support / lhs-support, or 0 when lhs-support is 0, equals the support when every transaction is left-exact, and 0 otherwise |
| ArStats.StatisticsOfStored | src/core/algorithms/association_rules/ar_verifier/ar_stats_calculator.cpp:60-75 | on the stored map, the support is 1 iff the threshold is 0 and all transactions are exact, and the confidence then equals the support |
| ArStats.SoundAfterAppend | src/core/algorithms/association_rules/ar_verifier/ar_stats_calculator.cpp:89-91 | appending a stored id to the bucket of its own priority keeps every bucketed id stored under its bucket's priority |
| ArStats.AppendToClusters | src/core/algorithms/association_rules/ar_verifier/ar_stats_calculator.cpp:89-91 | the bucketing loop keeps the buckets sound; each bucket grows by exactly the stored ids of its priority (as a multiset); a bucket exists iff it existed before or some stored id has its priority |
| ArStats.ARStatsCalculator.constructor | src/core/algorithms/association_rules/ar_verifier/ar_stats_calculator.h:30-31 | binds the data and the rule; the threshold follows from the left side; support, counter, coefficients and clusters start empty or 0 |
| ArStats.ARStatsCalculator.Default | src/core/algorithms/association_rules/ar_verifier/ar_stats_calculator.h:33 | no data, an empty rule, and hence a threshold that divides by zero |
| ArStats.ARStatsCalculator.CalculateJaccardCoefficients | src/core/algorithms/association_rules/ar_verifier/ar_stats_calculator.cpp:47-58 | afterwards the coefficient map is the stored map for the data, rule and threshold |
| ArStats.ARStatsCalculator.CalculateSupport | src/core/algorithms/association_rules/ar_verifier/ar_stats_calculator.cpp:60-67 | the support is 1 when every transaction has a both-exact entry, and 0 otherwise |
| ArStats.ARStatsCalculator.CalculateConfidence | src/core/algorithms/association_rules/ar_verifier/ar_stats_calculator.cpp:69-75 | the confidence is the support when every transaction has a left-exact entry, and 0 otherwise |
| ArStats.ARStatsCalculator.ResetState | src/core/algorithms/association_rules/ar_verifier/ar_stats_calculator.cpp:77-83 | clears coefficients and clusters, and zeroes support, confidence and counter; the data, rule sides and threshold stay |
| ArStats.ARStatsCalculator.CalculateStatistics | src/core/algorithms/association_rules/ar_verifier/ar_stats_calculator.cpp:85-92 | the coefficients become the stored map; support is 1 iff the threshold is 0 and every transaction is exact; confidence equals support; the buckets grow by exactly the stored ids of each priority; the object invariant is kept |
| ArStats.ARStatsCalculator.GetNumClustersViolatingAR | src/core/algorithms/association_rules/ar_verifier/ar_stats_calculator.h:39-41 | the number of bucket keys, which is at most 4 |
| ArStats.ARStatsCalculator.GetNumTransactionsViolatingAR | src/core/algorithms/association_rules/ar_verifier/ar_stats_calculator.h:44-46 | always 0 |
| ArStats.ARStatsCalculator.GetClustersViolatingAR | src/core/algorithms/association_rules/ar_verifier/ar_stats_calculator.h:49-51 | every key is a priority, and every bucketed id is stored with that priority |
| ArStats.ARStatsCalculator.GetSupport | src/core/algorithms/association_rules/ar_verifier/ar_stats_calculator.h:53-55 | the support, which is 0 or 1 |
| ArStats.ARStatsCalculator.GetConfidence | src/core/algorithms/association_rules/ar_verifier/ar_stats_calculator.h:57-59 | the rule's confidence slot |
| ArProperties.StoredWhenWideLeft | src/core/algorithms/association_rules/ar_verifier/ar_stats_calculator.cpp:52-55 | with at least two left items the threshold is 0, and a transaction is stored iff it shares an item with the left side |
| ArProperties.NothingStoredForSingleItemLeft | src/core/algorithms/association_rules/ar_verifier/ar_stats_calculator.h:19 | with one left item the threshold is SIZE_MAX and nothing is ever stored |
| ArProperties.DisjointSidesNeverBothExact | src/core/algorithms/association_rules/ar_verifier/ar_stats_calculator.cpp:64 | no transaction has coefficient 1 against two disjoint rule sides |
| ArProperties.DisjointRuleHasZeroSupport | src/core/algorithms/association_rules/ar_verifier/ar_stats_calculator.cpp:60-66 | for a rule whose sides are disjoint, the support is 0 whatever the data and the threshold |
| ArProperties.FreshClustersPartition | src/core/algorithms/association_rules/ar_verifier/ar_stats_calculator.cpp:85-92 | when the buckets started empty, each stored id is in exactly one bucket (that of its priority), and every bucketed id is stored |
| ArProperties.IntendedSupport | src/core/algorithms/association_rules/ar_verifier/ar_stats_calculator.cpp:60-66 | reference definition: the share of transactions that contain both rule sides, in [0, 1] |
| ArProperties.IntendedSupportPositive | src/core/algorithms/association_rules/ar_verifier/ar_stats_calculator.cpp:60-66 | one transaction containing the rule makes the reference support positive |
| ArProperties.SupportMissesContainingTransaction | src/core/algorithms/association_rules/ar_verifier/ar_stats_calculator.cpp:60-66 | transaction [1, 2, 3] and rule {1, 3} => {2}: the computed support is 0 for every threshold, while the reference support is 1 |
| ArVerifier.FirstIndex | src/core/algorithms/association_rules/ar_verifier/ar_verifier.cpp:21-26 | the position of the first occurrence of the name, or the universe length iff the name is absent |
| ArVerifier.FirstMissingIndex | src/core/algorithms/association_rules/ar_verifier/ar_verifier.cpp:20-25 | every earlier name is in the universe, and the name at the result (if any) is not |
| ArVerifier.ResolveNames | src/core/algorithms/association_rules/ar_verifier/ar_verifier.cpp:19-27 | fails exactly at the first missing name; otherwise gives one id per name, in order, each the first position of that name in the universe |
| ArVerifier.ResolveRule | src/core/algorithms/association_rules/ar_verifier/ar_verifier.cpp:17-38 | the left side is checked before the right one, with the matching error message; on success the rule has the resolved ids and confidence -1 |
| ArVerifier.ARHoldsAsWritten | src/core/algorithms/association_rules/ar_verifier/ar_verifier.h:49-52 | the comparison as written: confidence <= minsup and support >= minconf (lemmas AsWrittenRejectsPerfectRule and AsWrittenPenalisesConfidence) |
| ArVerifier.ARHoldsIntended | src/core/algorithms/association_rules/ar_verifier/ar_verifier.h:49-52 | the corrected comparison: support >= minsup and confidence >= minconf (lemma IntendedIsMonotone) |
| ArVerifier.AsWrittenRejectsPerfectRule | src/core/algorithms/association_rules/ar_verifier/ar_verifier.h:49-52 | the written test rejects support = confidence = 1 at thresholds 0.5, and accepts confidence 0 at minconf = 1 |
| ArVerifier.AsWrittenPenalisesConfidence | src/core/algorithms/association_rules/ar_verifier/ar_verifier.h:49-52 | under the written test, raising the confidence above minsup makes the rule fail |
| ArVerifier.IntendedIsMonotone | src/core/algorithms/association_rules/ar_verifier/ar_verifier.h:49-52 | the intended test is monotone in the results and the thresholds, and accepts a perfect rule for all thresholds up to 1 |
| ArVerifier.ARVerifier.constructor | src/core/algorithms/association_rules/ar_verifier/ar_verifier.cpp:13-39 | default options (singular format, tid column 0, item column 1, first_column_tid false, no rule names, minconf = minsup = 0), no data, and the rule the empty name loops give: ([], [], -1); a fresh default engine with no data, empty rule sides, a threshold that divides by zero, support and confidence 0, and empty coefficient and cluster maps |
| ArVerifier.ARVerifier.SetOptions | src/core/algorithms/association_rules/ar_verifier/ar_verifier.cpp:47-57 | the options hold the supplied values |
| ArVerifier.ARVerifier.LoadDataInternal | src/core/algorithms/association_rules/ar_verifier/ar_verifier.cpp:64-80 | stores the loaded data, and fails with the empty-dataset message iff there are no transactions |
| ArVerifier.ARVerifier.ResolveRuleIds | src/core/algorithms/association_rules/ar_verifier/ar_verifier.cpp:17-38 | a step that exists only in the model: the constructor's resolution loops, run on the configured names after loading; succeeds iff every configured name is in the universe; a missing left name is reported before any right name, with the matching message and the first missing name; on success each rule id is the first position of its name in the universe and the confidence is -1; on failure the rule ids are unchanged |
| ArVerifier.ARVerifier.VerifyAR | src/core/algorithms/association_rules/ar_verifier/ar_verifier.cpp:90-92 | a fresh engine over the data and rule, with empty statistics; the verifier's data pointer becomes null |
| ArVerifier.ARVerifier.ResetState | src/core/algorithms/association_rules/ar_verifier/ar_verifier.h:39-41 | the engine's derived state is cleared |
| ArVerifier.ARVerifier.CalculateStatistics | src/core/algorithms/association_rules/ar_verifier/ar_verifier.h:43-45 | the engine's statistics as in ARStatsCalculator.CalculateStatistics: the stored coefficients, the all-or-nothing support, confidence equal to support, and each bucket grown by exactly the stored ids of its priority |
| ArVerifier.ARVerifier.ARHolds | src/core/algorithms/association_rules/ar_verifier/ar_verifier.h:49-52 | ARHoldsAsWritten on the engine's support and confidence and the two option thresholds; since the support is 0 or 1, it never holds for minconf above 1 |
| ArVerifier.RunInSourceOrder | src/core/algorithms/association_rules/ar_verifier/ar_verifier.cpp:13-92 | constructing, setting options, loading and VerifyAR in the source's order fails iff the data is empty; otherwise the engine gets the data but the rule ([], [], -1), whose threshold divides by zero, whatever names the options give |
| ArVerifier.RunWithResolution | src/core/algorithms/association_rules/ar_verifier/ar_verifier.cpp:17-38 | with the names resolved after options and loading, it succeeds iff the data is non-empty and every name is in the universe; the engine then gets the configured rule (first positions, confidence -1), and its threshold is defined iff the left side is non-empty |
| ArVerifier.ARVerifier.HoldsBeforeStatistics | src/core/algorithms/association_rules/ar_verifier/ar_verifier.h:49-52 | right after VerifyAR with a resolved rule, ARHolds is true iff minconf <= 0 and minsup >= -1, whatever the data |
| ArVerifier.ARVerifier.GetNumClustersViolatingAR | src/core/algorithms/association_rules/ar_verifier/ar_verifier.h:55-57 | the engine's bucket count, at most 4 |
| ArVerifier.ARVerifier.GetNumTransactionsViolatingAR | src/core/algorithms/association_rules/ar_verifier/ar_verifier.h:60-62 | the engine's counter, always 0 |
| ArVerifier.ARVerifier.GetClustersViolatingAR | src/core/algorithms/association_rules/ar_verifier/ar_verifier.h:66-68 | the engine's cluster map, keyed by priorities |
| ArVerifier.ARVerifier.GetRealSupport | src/core/algorithms/association_rules/ar_verifier/ar_verifier.h:70-72 | the engine's support, 0 or 1 |
| ArVerifier.ARVerifier.GetRealConfidence | src/core/algorithms/association_rules/ar_verifier/ar_verifier.h:74-76 | the engine's confidence |

## Left out

- Options registration, the conditional options and the input table are
  framework glue. `SetOptions` stands in for the framework writing the
  option fields.
- Building the transactions (`TransactionalData::CreateFromSingular` and
  `CreateFromTabular`) is not shown. `LoadDataInternal` takes the built
  data as a parameter.
- Time measurement in `ExecuteInternal` is not modelled; its only other
  action is the call to `VerifyAR`.
- The header `ar.h` (`model::ArIDs`) and `TransactionalData` are
  not part of this model. They appear as the datatypes `ArIds` and
  `TransactionalData`, and the number of transactions is the size of the
  transaction map.
- ArVerifier.ARVerifier.constructor: the source resolves the rule names in
  the constructor, before any option is set. At that point the name lists
  are empty and the data pointer is null. The model gives the result of
  running the loops on empty lists, `([], [], -1)`, but does not model
  the null dereference. Resolving the configured names is the separate
  step `ResolveRuleIds`, which exists only in the model and is taken after
  loading. `RunInSourceOrder` shows what the source's order gives (see
  Findings).
- ArVerifier.ARVerifier.VerifyAR: the moved-from rule `ar_ids_` has an
  unspecified value in C++. The model leaves it unchanged.
- ArStats.ARStatsCalculator.Default: the rule of a default-constructed
  engine is taken to be empty with confidence 0. The default value of
  `model::ArIDs` is defined in `ar.h`, which is not part of this model.
- ArStats.ARStatsCalculator.constructor: the rule's confidence slot is kept
  as the separate field `confidence`; `rule` holds the two item lists,
  which never change.
- Doubles are exact reals. This affects two things:
  - the coefficients are exact ratios;
  - SIZE_MAX is not rounded to the nearest double.
  The code compares coefficients only with 0, 1 and the integer threshold,
  and floors them.
- ArStats.ClusterPriority: the contracts state its values only for
  coefficients in [0, 1], the only ones the engine stores.
- Integer widths of the counts (`int`, `long long`, `unsigned`) are
  unbounded. Only the threshold's unsigned wrap-around is modelled.
- The iteration order of `unordered_map` is not modelled. Buckets are
  stated as multisets, and the loops visit ids in an arbitrary order.
- Logging, Python bindings and the tid-list utilities are outside the
  verifier and are not part of this model.
- ArVerifier.ARVerifier.ARHolds: the class keeps the comparison as written.
  The corrected test is `ARHoldsIntended` (see Findings).

## Findings

| source | as written | input that shows it | evidently intended | confidence | as-written member | corrected member |
|---|---|---|---|---|---|---|
| src/core/algorithms/association_rules/ar_verifier/ar_verifier.h:49-52 | confidence <= minsup && support >= minconf | support = confidence = 1, minsup = minconf = 0.5: the rule is rejected | support >= minsup && confidence >= minconf | high, not executed | ArVerifier.AsWrittenRejectsPerfectRule | ArVerifier.IntendedIsMonotone |
| src/core/algorithms/association_rules/ar_verifier/ar_stats_calculator.cpp:60-66 | support counts transactions whose coefficients against both rule sides are exactly 1 | transaction [1, 2, 3], rule {1, 3} => {2}: the support is 0 for every threshold, and for disjoint sides it is always 0 | the share of transactions that contain both sides of the rule | medium, not executed | ArProperties.SupportMissesContainingTransaction | ArProperties.IntendedSupportPositive |
| src/core/algorithms/association_rules/ar_verifier/ar_verifier.cpp:13-39 | the rule names are resolved in the constructor, before the options are set and the data is loaded | options with left names ["a", "b"], any non-empty data: after loading and VerifyAR the engine's rule is ([], [], -1) and its threshold divides by zero | resolve the configured names after the options are set and the data is loaded | high, not executed | ArVerifier.RunInSourceOrder | ArVerifier.RunWithResolution |
