/**
 * The association-rule statistics engine (ARStatsCalculator): given the
 * transactions (id -> item ids) and a rule (two item-id sides), it keeps the
 * transactions that pass a similarity threshold with their (left, right)
 * coefficients, derives support and confidence from them by integer
 * division, and buckets the kept ids by a coarse priority.
 */
module ArStats {
  import opened Wrappers
  import opened Similarity

  /** The largest size_t value, 2^64 - 1. */
  const SizeMax: nat := 0xFFFF_FFFF_FFFF_FFFF

  /** model::ArIDs: the two rule sides as item ids, and the confidence slot the engine fills. */
  datatype ArIds = ArIds(left: seq<nat>, right: seq<nat>, confidence: real)

  /** The relevance threshold; DivisionByZero stands for the undefined result of dividing by an empty left side. */
  datatype Threshold = DivisionByZero | Threshold(value: nat)

  /** A transaction's (left, right) coefficient pair. */
  type Coefficients = (real, real)

  /**
   * The field initializer of jaccard_threshold_: (|left| - 2) / |left| in
   * unsigned size_t arithmetic, so the subtraction wraps for |left| < 2;
   * the outcome is the one ThresholdForLeft gives by cases.
   */
  function JaccardThreshold(leftSize: nat): (t: Threshold)
    ensures t == ThresholdForLeft(leftSize)
  {
    if leftSize == 0 then DivisionByZero
    else
      var wrapped := (leftSize - 2) % (SizeMax + 1);
      SmallQuotient(wrapped, leftSize);
      Threshold(wrapped / leftSize)
  }

  /**
   * The threshold by cases on the size of the left side: undefined for an
   * empty side, SIZE_MAX for one item, 0 for two or more.
   */
  function ThresholdForLeft(leftSize: nat): Threshold
  {
    if leftSize == 0 then DivisionByZero
    else if leftSize == 1 then Threshold(SizeMax)
    else Threshold(0)
  }

  /** For 0 <= a < n the quotient is 0; a divided by 1 is a. */
  lemma SmallQuotient(a: int, n: int)
    requires 0 <= a && 0 < n
    ensures a < n ==> a / n == 0
    ensures n == 1 ==> a / n == a
  {
  }

  ghost function CoefficientsOf(items: seq<nat>, rule: ArIds): Coefficients
  {
    (Jaccard(items, rule.left), Jaccard(items, rule.right))
  }

  predicate InUnitSquare(c: Coefficients)
  {
    0.0 <= c.0 <= 1.0 && 0.0 <= c.1 <= 1.0
  }

  /** The relevance filter: left above the threshold, and right above it or exactly 0. */
  predicate Relevant(c: Coefficients, threshold: nat)
  {
    c.0 > threshold as real && (c.1 > threshold as real || c.1 == 0.0)
  }

  /** The entries the relevance filter keeps among the given ids. */
  ghost function RelevantAmong(data: map<nat, seq<nat>>, rule: ArIds, threshold: nat, ids: set<nat>)
    : map<nat, Coefficients>
  {
    map id | id in ids && id in data && Relevant(CoefficientsOf(data[id], rule), threshold)
      :: CoefficientsOf(data[id], rule)
  }

  /** The coefficient map one pass over all transactions produces. */
  ghost function StoredCoefficients(data: map<nat, seq<nat>>, rule: ArIds, threshold: nat)
    : map<nat, Coefficients>
  {
    RelevantAmong(data, rule, threshold, data.Keys)
  }

  /** m agrees with the stored coefficient map wherever m is defined. */
  ghost predicate SubMapOfStored(m: map<nat, Coefficients>, data: map<nat, seq<nat>>, rule: ArIds, threshold: nat)
  {
    forall id :: id in m ==>
      id in data && Relevant(CoefficientsOf(data[id], rule), threshold) && m[id] == CoefficientsOf(data[id], rule)
  }

  predicate IsPriority(p: int)
  {
    p == 0 || p == 2 || p == 3 || p == 5
  }

  /**
   * CalculateClusterPriority: 3 * floor(left) + 2 * floor(right). For
   * coefficients in [0,1] a floor is 1 exactly when the coefficient is 1.
   */
  function ClusterPriority(c: Coefficients): int
  {
    3 * c.0.Floor + 2 * c.1.Floor
  }

  /** Every pair of m has one of the four priorities. */
  ghost predicate AllPrioritized(m: map<nat, Coefficients>)
  {
    forall id :: id in m ==> IsPriority(ClusterPriority(m[id]))
  }

  /**
   * On [0,1] x [0,1] the priority is 3 * [left == 1] + 2 * [right == 1], one
   * of 0, 2, 3, 5, and 5 exactly when both coefficients are 1.
   */
  lemma PriorityInUnitSquare(c: Coefficients)
    requires InUnitSquare(c)
    ensures ClusterPriority(c) == 3 * (if c.0 == 1.0 then 1 else 0) + 2 * (if c.1 == 1.0 then 1 else 0)
    ensures IsPriority(ClusterPriority(c))
    ensures ClusterPriority(c) == 5 <==> c.0 == 1.0 && c.1 == 1.0
  {
  }

  /** Ids whose coefficients are both exactly 1 (counted by CalculateSupport). */
  function BothExactIds(m: map<nat, Coefficients>): set<nat>
  {
    set id | id in m && m[id].0 == 1.0 && m[id].1 == 1.0
  }

  /** Ids whose left coefficient is exactly 1 (counted by CalculateConfidence). */
  function LeftExactIds(m: map<nat, Coefficients>): set<nat>
  {
    set id | id in m && m[id].0 == 1.0
  }

  /** Ids of m whose cluster priority is p. */
  function IdsWithPriority(m: map<nat, Coefficients>, p: int): set<nat>
  {
    set id | id in m && ClusterPriority(m[id]) == p
  }

  /** The bucket for p, empty when the cluster map has no key p. */
  function Bucket(clusters: map<int, seq<nat>>, p: int): seq<nat>
  {
    if p in clusters then clusters[p] else []
  }

  /**
   * Appending id to the bucket of its priority keeps "each bucket is its old
   * contents plus the ids of its priority no longer pending" true once id is
   * no longer pending.
   */
  lemma AppendStep(bucket: seq<nat>, start: multiset<nat>, ids: set<nat>, pending: set<nat>, id: nat)
    requires id in pending && id in ids
    requires multiset(bucket) == start + multiset(ids - pending)
    ensures multiset(bucket + [id]) == start + multiset(ids - (pending - {id}))
  {
    assert ids - (pending - {id}) == (ids - pending) + {id};
  }

  /** Every bucket key is a priority, and every bucketed id is stored with that priority. */
  ghost predicate ClustersSound(clusters: map<int, seq<nat>>, m: map<nat, Coefficients>)
  {
    && (forall p :: p in clusters ==> IsPriority(p))
    && (forall p, i :: p in clusters && 0 <= i < |clusters[p]| ==>
          clusters[p][i] in m && ClusterPriority(m[clusters[p][i]]) == p)
  }

  /** Appending a stored id to the bucket of its own priority keeps the clusters sound. */
  lemma SoundAfterAppend(clusters: map<int, seq<nat>>, m: map<nat, Coefficients>, id: nat)
    requires ClustersSound(clusters, m) && id in m && IsPriority(ClusterPriority(m[id]))
    ensures var q := ClusterPriority(m[id]);
            ClustersSound(clusters[q := Bucket(clusters, q) + [id]], m)
  {
    var q := ClusterPriority(m[id]);
    var clusters' := clusters[q := Bucket(clusters, q) + [id]];
    forall p, i | p in clusters' && 0 <= i < |clusters'[p]|
      ensures clusters'[p][i] in m && ClusterPriority(m[clusters'[p][i]]) == p
    {
      if p == q && i == |clusters'[p]| - 1 {
        assert clusters'[p][i] == id;
      } else {
        assert clusters'[p][i] == clusters[p][i];
      }
    }
  }

  lemma SubsetCard(a: set<nat>, b: set<nat>)
    requires a <= b
    ensures |a| <= |b|
    ensures |a| == |b| ==> a == b
  {
    assert b == a + (b - a);
    if |a| == |b| {
      assert |b - a| == 0;
      assert b - a == {};
    }
  }

  /** The exact-id counts of a coefficient map over the given transactions are at most the number of transactions. */
  lemma CountsWithinData(m: map<nat, Coefficients>, data: map<nat, seq<nat>>)
    requires m.Keys <= data.Keys && |data| > 0
    ensures |BothExactIds(m)| <= |LeftExactIds(m)| <= |data|
    ensures Share(|BothExactIds(m)|, |data|) == 0.0 || Share(|BothExactIds(m)|, |data|) == 1.0
  {
    assert LeftExactIds(m) <= data.Keys;
    SubsetCard(LeftExactIds(m), data.Keys);
    SubsetCard(BothExactIds(m), LeftExactIds(m));
    ShareOfAll(|BothExactIds(m)|, |data|);
  }

  /** count / total in integer division, for 0 <= count <= total, is 1 when count == total and 0 otherwise. */
  lemma ShareOfAll(count: nat, total: nat)
    requires 0 < total && count <= total
    ensures count / total == if count == total then 1 else 0
  {
  }

  /** Every relevant entry has coefficients in [0,1]. */
  lemma StoredInUnitSquare(data: map<nat, seq<nat>>, rule: ArIds, threshold: nat, id: nat)
    requires id in data
    ensures InUnitSquare(CoefficientsOf(data[id], rule))
  {
    JaccardBounds(data[id], rule.left);
    JaccardBounds(data[id], rule.right);
  }

  /** Every transaction has both coefficients exactly 1. */
  ghost predicate AllExact(data: map<nat, seq<nat>>, rule: ArIds)
  {
    forall id :: id in data ==> CoefficientsOf(data[id], rule) == (1.0, 1.0)
  }

  /** The stored both-exact ids are all the transactions exactly when the threshold is 0 and every transaction is exact. */
  lemma ExactIdsAreAllIff(data: map<nat, seq<nat>>, rule: ArIds, threshold: nat)
    requires |data| > 0
    ensures BothExactIds(StoredCoefficients(data, rule, threshold)) <= data.Keys
    ensures BothExactIds(StoredCoefficients(data, rule, threshold)) == data.Keys <==>
              threshold == 0 && AllExact(data, rule)
  {
    var m := StoredCoefficients(data, rule, threshold);
    var exact := BothExactIds(m);
    if exact == data.Keys {
      var id :| id in data;
      assert id in exact;
      assert Relevant(m[id], threshold);
      forall id' | id' in data ensures CoefficientsOf(data[id'], rule) == (1.0, 1.0) {
        assert id' in exact;
      }
    }
    if threshold == 0 && AllExact(data, rule) {
      forall id | id in data ensures id in exact {
        assert CoefficientsOf(data[id], rule) == (1.0, 1.0);
        assert Relevant((1.0, 1.0), threshold);
      }
    }
  }

  /**
   * The support computed over the stored map is 1 exactly when the threshold
   * is 0 and every transaction has both coefficients exactly 1; otherwise it
   * is 0.
   */
  lemma SupportIsAllOrNothing(data: map<nat, seq<nat>>, rule: ArIds, threshold: nat)
    requires |data| > 0
    ensures Share(|BothExactIds(StoredCoefficients(data, rule, threshold))|, |data|) ==
              if threshold == 0 && AllExact(data, rule) then 1.0 else 0.0
  {
    var exact := BothExactIds(StoredCoefficients(data, rule, threshold));
    ExactIdsAreAllIff(data, rule, threshold);
    SubsetCard(exact, data.Keys);
    ShareOfAll(|exact|, |data|);
  }

  /** support <= lhs-support: the both-exact ids are among the left-exact ids. */
  lemma SupportAtMostLhsSupport(m: map<nat, Coefficients>, total: nat)
    requires total > 0 && |LeftExactIds(m)| <= total
    ensures |BothExactIds(m)| / total <= |LeftExactIds(m)| / total
  {
    SubsetCard(BothExactIds(m), LeftExactIds(m));
    ShareOfAll(|BothExactIds(m)|, total);
    ShareOfAll(|LeftExactIds(m)|, total);
  }

  /** count_if(...) / size(): the integer quotient, then widened to double. */
  function Share(count: nat, total: nat): (r: real)
    requires total > 0
    ensures count <= total ==> (r == 1.0 <==> count == total) && (r == 0.0 <==> count < total)
  {
    (count / total) as real
  }

  /** The confidence formula of CalculateConfidence: support / lhs-support, or 0 when lhs-support is 0. */
  function ConfidenceFrom(support: real, lhsSupport: real): (c: real)
    ensures lhsSupport != 0.0 ==> c * lhsSupport == support
    ensures lhsSupport == 0.0 ==> c == 0.0
  {
    if lhsSupport != 0.0 then support / lhsSupport else 0.0
  }

  /**
   * Both shares are 0 or 1 and support <= lhs-support, so the confidence
   * CalculateConfidence derives is always the support itself.
   */
  lemma ConfidenceIsSupport(m: map<nat, Coefficients>, total: nat)
    requires total > 0 && |LeftExactIds(m)| <= total
    ensures ConfidenceFrom(Share(|BothExactIds(m)|, total), Share(|LeftExactIds(m)|, total))
            == Share(|BothExactIds(m)|, total)
  {
    SubsetCard(BothExactIds(m), LeftExactIds(m));
    ShareOfAll(|BothExactIds(m)|, total);
    ShareOfAll(|LeftExactIds(m)|, total);
  }

  /**
   * The statistics of the stored map: the support counted from it is 1
   * exactly when the threshold is 0 and every transaction matches both sides
   * exactly, and the confidence derived from that support is the support.
   */
  lemma StatisticsOfStored(data: map<nat, seq<nat>>, rule: ArIds, threshold: nat)
    requires |data| > 0
    ensures var m := StoredCoefficients(data, rule, threshold);
            var support := if |BothExactIds(m)| == |data| then 1.0 else 0.0;
            && support == (if threshold == 0 && AllExact(data, rule) then 1.0 else 0.0)
            && (if |LeftExactIds(m)| == |data| then support else 0.0) == support
  {
    var m := StoredCoefficients(data, rule, threshold);
    ExactIdsAreAllIff(data, rule, threshold);
    SubsetCard(BothExactIds(m), data.Keys);
    CountsWithinData(m, data);
  }

  /** The stored map has an entry only for a transaction, and every stored pair has one of the four priorities. */
  lemma StoredShape(data: map<nat, seq<nat>>, rule: ArIds, threshold: nat)
    ensures StoredCoefficients(data, rule, threshold).Keys <= data.Keys
    ensures AllPrioritized(StoredCoefficients(data, rule, threshold))
  {
    var m := StoredCoefficients(data, rule, threshold);
    StoredInUnitSquares(data, rule, threshold);
    forall id | id in m
      ensures IsPriority(ClusterPriority(m[id]))
    {
      PriorityInUnitSquare(m[id]);
    }
  }

  /**
   * A coefficient map that is empty or already the stored map agrees with
   * the stored map wherever it is defined, so clusters sound for it stay
   * sound once the coefficients are recomputed.
   */
  lemma SoundForStored(clusters: map<int, seq<nat>>, m: map<nat, Coefficients>,
                       data: map<nat, seq<nat>>, rule: ArIds, threshold: nat)
    requires ClustersSound(clusters, m)
    requires m == map[] || m == StoredCoefficients(data, rule, threshold)
    ensures SubMapOfStored(m, data, rule, threshold)
    ensures ClustersSound(clusters, StoredCoefficients(data, rule, threshold))
  {
    var stored := StoredCoefficients(data, rule, threshold);
    StoredIsSubMap(data, rule, threshold);
    forall p, i | p in clusters && 0 <= i < |clusters[p]|
      ensures clusters[p][i] in stored && ClusterPriority(stored[clusters[p][i]]) == p
    {
      var id := clusters[p][i];
      assert id in m && m[id] == stored[id];
    }
  }

  /** The stored map agrees with itself: it satisfies SubMapOfStored. */
  lemma StoredIsSubMap(data: map<nat, seq<nat>>, rule: ArIds, threshold: nat)
    ensures SubMapOfStored(StoredCoefficients(data, rule, threshold), data, rule, threshold)
  {
  }

  /** Every stored coefficient pair lies in [0,1] x [0,1]. */
  lemma StoredInUnitSquares(data: map<nat, seq<nat>>, rule: ArIds, threshold: nat)
    ensures forall id :: id in StoredCoefficients(data, rule, threshold) ==>
              InUnitSquare(StoredCoefficients(data, rule, threshold)[id])
  {
    forall id | id in StoredCoefficients(data, rule, threshold)
      ensures InUnitSquare(StoredCoefficients(data, rule, threshold)[id])
    {
      StoredInUnitSquare(data, rule, threshold, id);
    }
  }

  /** Each bucket holds its starting contents plus the ids of its priority that are no longer pending. */
  ghost predicate BucketsGrown(result: map<int, seq<nat>>, clusters: map<int, seq<nat>>,
                               m: map<nat, Coefficients>, pending: set<nat>)
  {
    forall p :: multiset(Bucket(result, p)) == multiset(Bucket(clusters, p)) + multiset(IdsWithPriority(m, p) - pending)
  }

  /** A bucket exists when it existed at the start or an id of its priority is no longer pending. */
  ghost predicate KeysGrown(result: map<int, seq<nat>>, clusters: map<int, seq<nat>>,
                            m: map<nat, Coefficients>, pending: set<nat>)
  {
    forall p :: p in result <==> p in clusters || IdsWithPriority(m, p) - pending != {}
  }

  /**
   * The loop invariant of AppendToClusters: every stored id that is no
   * longer pending has been appended to the bucket of its priority.
   */
  ghost predicate AppendedSoFar(result: map<int, seq<nat>>, clusters: map<int, seq<nat>>,
                                m: map<nat, Coefficients>, pending: set<nat>)
  {
    && pending <= m.Keys
    && ClustersSound(result, m)
    && BucketsGrown(result, clusters, m, pending)
    && KeysGrown(result, clusters, m, pending)
  }

  lemma BucketsGrownStep(result: map<int, seq<nat>>, clusters: map<int, seq<nat>>,
                         m: map<nat, Coefficients>, pending: set<nat>, id: nat, next: map<int, seq<nat>>)
    requires BucketsGrown(result, clusters, m, pending) && id in pending && id in m
    requires next == result[ClusterPriority(m[id]) := Bucket(result, ClusterPriority(m[id])) + [id]]
    ensures BucketsGrown(next, clusters, m, pending - {id})
  {
    var q := ClusterPriority(m[id]);
    forall p
      ensures multiset(Bucket(next, p)) ==
              multiset(Bucket(clusters, p)) + multiset(IdsWithPriority(m, p) - (pending - {id}))
    {
      BucketsGrownAt(result, clusters, m, pending, id, next, q, p);
    }
  }

  /** BucketsGrownStep for one bucket p. */
  lemma BucketsGrownAt(result: map<int, seq<nat>>, clusters: map<int, seq<nat>>,
                       m: map<nat, Coefficients>, pending: set<nat>, id: nat, next: map<int, seq<nat>>, q: int, p: int)
    requires multiset(Bucket(result, p)) == multiset(Bucket(clusters, p)) + multiset(IdsWithPriority(m, p) - pending)
    requires id in pending && id in m && q == ClusterPriority(m[id])
    requires next == result[q := Bucket(result, q) + [id]]
    ensures multiset(Bucket(next, p)) ==
            multiset(Bucket(clusters, p)) + multiset(IdsWithPriority(m, p) - (pending - {id}))
  {
    if p == q {
      AppendStep(Bucket(result, p), multiset(Bucket(clusters, p)), IdsWithPriority(m, p), pending, id);
    } else {
      assert IdsWithPriority(m, p) - (pending - {id}) == IdsWithPriority(m, p) - pending;
    }
  }

  lemma KeysGrownStep(result: map<int, seq<nat>>, clusters: map<int, seq<nat>>,
                      m: map<nat, Coefficients>, pending: set<nat>, id: nat, next: map<int, seq<nat>>)
    requires KeysGrown(result, clusters, m, pending) && id in pending && id in m
    requires next == result[ClusterPriority(m[id]) := Bucket(result, ClusterPriority(m[id])) + [id]]
    ensures KeysGrown(next, clusters, m, pending - {id})
  {
    var q := ClusterPriority(m[id]);
    forall p
      ensures p in next <==> p in clusters || IdsWithPriority(m, p) - (pending - {id}) != {}
    {
      if p == q {
        assert id in IdsWithPriority(m, p) - (pending - {id});
      } else {
        assert IdsWithPriority(m, p) - (pending - {id}) == IdsWithPriority(m, p) - pending;
      }
    }
  }

  /** One iteration of AppendToClusters keeps AppendedSoFar. */
  lemma AppendKeepsInvariant(result: map<int, seq<nat>>, clusters: map<int, seq<nat>>,
                             m: map<nat, Coefficients>, pending: set<nat>, id: nat, next: map<int, seq<nat>>)
    requires AppendedSoFar(result, clusters, m, pending)
    requires id in pending && IsPriority(ClusterPriority(m[id]))
    requires next == result[ClusterPriority(m[id]) := Bucket(result, ClusterPriority(m[id])) + [id]]
    ensures AppendedSoFar(next, clusters, m, pending - {id})
  {
    SoundAfterAppend(result, m, id);
    BucketsGrownStep(result, clusters, m, pending, id, next);
    KeysGrownStep(result, clusters, m, pending, id, next);
  }

  /**
   * after is before with every id of m appended to the bucket of its
   * priority: each bucket grows by exactly those ids, and a bucket exists
   * when it existed before or some id has its priority.
   */
  ghost predicate ClustersExtended(after: map<int, seq<nat>>, before: map<int, seq<nat>>, m: map<nat, Coefficients>)
  {
    && (forall p :: multiset(Bucket(after, p)) == multiset(Bucket(before, p)) + multiset(IdsWithPriority(m, p)))
    && (forall p :: p in after <==> p in before || IdsWithPriority(m, p) != {})
  }

  /** With nothing pending, AppendedSoFar is the contract of AppendToClusters. */
  lemma AppendedAll(result: map<int, seq<nat>>, clusters: map<int, seq<nat>>, m: map<nat, Coefficients>)
    requires AppendedSoFar(result, clusters, m, {})
    ensures ClustersSound(result, m) && ClustersExtended(result, clusters, m)
  {
    assert forall p :: IdsWithPriority(m, p) - {} == IdsWithPriority(m, p);
  }

  /**
   * The clustering loop of CalculateStatistics: append every id of the
   * coefficient map to the bucket keyed by its priority. Each bucket grows by
   * exactly the ids of its priority, in some order.
   */
  method AppendToClusters(clusters: map<int, seq<nat>>, coefficients: map<nat, Coefficients>)
    returns (result: map<int, seq<nat>>)
    requires ClustersSound(clusters, coefficients)
    requires AllPrioritized(coefficients)
    ensures ClustersSound(result, coefficients)
    ensures ClustersExtended(result, clusters, coefficients)
  {
    result := clusters;
    var pending := coefficients.Keys;
    while pending != {}
      invariant AppendedSoFar(result, clusters, coefficients, pending)
      decreases pending
    {
      var transactionId :| transactionId in pending;
      var priority := ClusterPriority(coefficients[transactionId]);
      ghost var visited := result;
      result := result[priority := Bucket(result, priority) + [transactionId]];
      AppendKeepsInvariant(visited, clusters, coefficients, pending, transactionId, result);
      pending := pending - {transactionId};
    }
    AppendedAll(result, clusters, coefficients);
  }

  /** Every transaction already visited has an entry exactly when it is relevant. */
  ghost predicate VisitedDecided(coefficients: map<nat, Coefficients>, data: map<nat, seq<nat>>, rule: ArIds,
                                 threshold: nat, pending: set<nat>)
  {
    forall id :: id in data && id !in pending ==>
      (id in coefficients <==> Relevant(CoefficientsOf(data[id], rule), threshold))
  }

  /** Every entry beyond the starting ones belongs to a visited transaction. */
  ghost predicate NewEntriesVisited(coefficients: map<nat, Coefficients>, start: map<nat, Coefficients>,
                                    pending: set<nat>)
  {
    forall id :: id in coefficients && id !in start ==> id !in pending
  }

  /**
   * The loop invariant of StoreRelevant: every entry agrees with the stored
   * map, the starting entries are kept, and every transaction already visited
   * has an entry exactly when it is relevant.
   */
  ghost predicate StoredSoFar(coefficients: map<nat, Coefficients>, start: map<nat, Coefficients>,
                              data: map<nat, seq<nat>>, rule: ArIds, threshold: nat, pending: set<nat>)
  {
    && pending <= data.Keys
    && SubMapOfStored(coefficients, data, rule, threshold)
    && start.Keys <= coefficients.Keys
    && VisitedDecided(coefficients, data, rule, threshold, pending)
    && NewEntriesVisited(coefficients, start, pending)
  }

  /** The entry added for a visited transaction is its own relevant pair. */
  lemma SubMapStep(coefficients: map<nat, Coefficients>, data: map<nat, seq<nat>>, rule: ArIds,
                   threshold: nat, id: nat, next: map<nat, Coefficients>)
    requires SubMapOfStored(coefficients, data, rule, threshold) && id in data
    requires var c := CoefficientsOf(data[id], rule);
             next == if Relevant(c, threshold) then coefficients[id := c] else coefficients
    ensures SubMapOfStored(next, data, rule, threshold)
  {
    forall k | k in next
      ensures k in data && Relevant(CoefficientsOf(data[k], rule), threshold) && next[k] == CoefficientsOf(data[k], rule)
    {
      if k != id {
        assert k in coefficients && next[k] == coefficients[k];
      }
    }
  }

  lemma VisitedStep(coefficients: map<nat, Coefficients>, data: map<nat, seq<nat>>, rule: ArIds,
                    threshold: nat, pending: set<nat>, id: nat, next: map<nat, Coefficients>)
    requires VisitedDecided(coefficients, data, rule, threshold, pending) && id in data
    requires id in coefficients ==> Relevant(CoefficientsOf(data[id], rule), threshold)
    requires var c := CoefficientsOf(data[id], rule);
             next == if Relevant(c, threshold) then coefficients[id := c] else coefficients
    ensures VisitedDecided(next, data, rule, threshold, pending - {id})
  {
    var relevant := Relevant(CoefficientsOf(data[id], rule), threshold);
    VisitedStepKeys(coefficients, data, rule, threshold, pending, id, relevant,
                    if relevant then coefficients.Keys + {id} else coefficients.Keys);
  }

  lemma VisitedStepKeys(coefficients: map<nat, Coefficients>, data: map<nat, seq<nat>>, rule: ArIds,
                        threshold: nat, pending: set<nat>, id: nat, relevant: bool, keys: set<nat>)
    requires VisitedDecided(coefficients, data, rule, threshold, pending) && id in data
    requires id in coefficients ==> relevant
    requires relevant == Relevant(CoefficientsOf(data[id], rule), threshold)
    requires keys == if relevant then coefficients.Keys + {id} else coefficients.Keys
    ensures forall k :: k in data && k !in pending - {id} ==>
              (k in keys <==> Relevant(CoefficientsOf(data[k], rule), threshold))
  {
    forall k | k in data && k !in pending - {id}
      ensures k in keys <==> Relevant(CoefficientsOf(data[k], rule), threshold)
    {
      if k != id {
        assert k !in pending;
      }
    }
  }

  lemma NewEntriesStep(coefficients: map<nat, Coefficients>, start: map<nat, Coefficients>,
                       pending: set<nat>, id: nat, next: map<nat, Coefficients>)
    requires NewEntriesVisited(coefficients, start, pending)
    requires next.Keys <= coefficients.Keys + {id}
    ensures NewEntriesVisited(next, start, pending - {id})
  {
    forall k | k in next && k !in start
      ensures k !in pending - {id}
    {
      if k != id {
        assert k in coefficients;
      }
    }
  }

  /** Visiting one pending transaction, and storing its pair when it is relevant, keeps StoredSoFar. */
  lemma StoreStep(coefficients: map<nat, Coefficients>, start: map<nat, Coefficients>,
                  data: map<nat, seq<nat>>, rule: ArIds, threshold: nat, pending: set<nat>, id: nat,
                  next: map<nat, Coefficients>)
    requires StoredSoFar(coefficients, start, data, rule, threshold, pending) && id in pending
    requires var c := CoefficientsOf(data[id], rule);
             next == if Relevant(c, threshold) then coefficients[id := c] else coefficients
    ensures StoredSoFar(next, start, data, rule, threshold, pending - {id})
  {
    SubMapStep(coefficients, data, rule, threshold, id, next);
    VisitedStep(coefficients, data, rule, threshold, pending, id, next);
    NewEntriesStep(coefficients, start, pending, id, next);
  }

  /** Once every transaction is visited, the entries are exactly the stored map. */
  lemma StoredAtEnd(coefficients: map<nat, Coefficients>, start: map<nat, Coefficients>,
                    data: map<nat, seq<nat>>, rule: ArIds, threshold: nat)
    requires StoredSoFar(coefficients, start, data, rule, threshold, {})
    ensures coefficients == StoredCoefficients(data, rule, threshold)
  {
    var stored := StoredCoefficients(data, rule, threshold);
    assert coefficients.Keys == stored.Keys;
  }

  /**
   * The loop of CalculateJaccardCoefficients: visit every transaction and
   * store its (left, right) pair when it passes the relevance filter, on top
   * of the entries already there.
   */
  method StoreRelevant(data: map<nat, seq<nat>>, rule: ArIds, threshold: nat, start: map<nat, Coefficients>)
    returns (coefficients: map<nat, Coefficients>)
    requires SubMapOfStored(start, data, rule, threshold)
    ensures coefficients == StoredCoefficients(data, rule, threshold)
  {
    coefficients := start;
    var pending := data.Keys;
    while pending != {}
      invariant StoredSoFar(coefficients, start, data, rule, threshold, pending)
      decreases pending
    {
      var id :| id in pending;
      var jaccardLeft := JaccardSimilarity(data[id], rule.left);
      var jaccardRight := JaccardSimilarity(data[id], rule.right);
      ghost var visited := coefficients;
      if jaccardLeft > threshold as real && (jaccardRight > threshold as real || jaccardRight == 0.0) {
        coefficients := coefficients[id := (jaccardLeft, jaccardRight)];
      }
      StoreStep(visited, start, data, rule, threshold, pending, id, coefficients);
      pending := pending - {id};
    }
    StoredAtEnd(coefficients, start, data, rule, threshold);
  }

  class ARStatsCalculator {
    /** The transactions; None stands for a null data pointer (default construction, or a moved-from pointer). */
    const data: Option<map<nat, seq<nat>>>
    /** The rule's item lists, which no method changes; its confidence slot is the field confidence. */
    const rule: ArIds
    var confidence: real
    var support: real
    var numTransactionsViolatingAR: nat
    var jaccardCoefficients: map<nat, Coefficients>
    const jaccardThreshold: Threshold
    var clustersViolatingAR: map<int, seq<nat>>

    /**
     * The object invariant: the threshold is the one JaccardThreshold
     * derives from the rule's left side, the violation counter is still 0, the support is 0 or 1, the
     * coefficient map is empty or the stored map for the data, rule and
     * threshold, and every bucketed id is stored under its own priority.
     */
    ghost predicate Valid()
      reads this
    {
      && jaccardThreshold == ThresholdForLeft(|rule.left|)
      && numTransactionsViolatingAR == 0
      && (support == 0.0 || support == 1.0)
      && (jaccardCoefficients != map[] ==>
            && data.Some?
            && jaccardThreshold.Threshold?
            && jaccardCoefficients == StoredCoefficients(data.value, rule, jaccardThreshold.value))
      && ClustersSound(clustersViolatingAR, jaccardCoefficients)
    }

    /** Binds the data and the rule; every derived field starts empty or zero. */
    constructor (data: Option<map<nat, seq<nat>>>, rule: ArIds)
      ensures Valid()
      ensures this.data == data && this.rule == rule && confidence == rule.confidence
      ensures jaccardThreshold == JaccardThreshold(|rule.left|)
      ensures support == 0.0 && numTransactionsViolatingAR == 0
      ensures jaccardCoefficients == map[] && clustersViolatingAR == map[]
    {
      this.data := data;
      this.rule := rule;
      confidence := rule.confidence;
      support := 0.0;
      numTransactionsViolatingAR := 0;
      jaccardCoefficients := map[];
      jaccardThreshold := JaccardThreshold(|rule.left|);
      clustersViolatingAR := map[];
    }

    /** The default constructor: no data, an empty rule, and therefore an undefined threshold. */
    constructor Default()
      ensures Valid()
      ensures data == None && rule.left == [] && rule.right == [] && confidence == 0.0
      ensures jaccardThreshold == DivisionByZero
      ensures support == 0.0 && numTransactionsViolatingAR == 0
      ensures jaccardCoefficients == map[] && clustersViolatingAR == map[]
    {
      data := None;
      rule := ArIds([], [], 0.0);
      confidence := 0.0;
      support := 0.0;
      numTransactionsViolatingAR := 0;
      jaccardCoefficients := map[];
      jaccardThreshold := JaccardThreshold(0);
      clustersViolatingAR := map[];
    }

    /**
     * One pass over the transactions: store id -> (left, right) for every
     * transaction that passes the relevance filter; the entries already there
     * are stored ones, so the result is the stored map.
     */
    method CalculateJaccardCoefficients()
      requires data.Some? && jaccardThreshold.Threshold?
      requires SubMapOfStored(jaccardCoefficients, data.value, rule, jaccardThreshold.value)
      modifies this`jaccardCoefficients
      ensures jaccardCoefficients == StoredCoefficients(data.value, rule, jaccardThreshold.value)
    {
      jaccardCoefficients := StoreRelevant(data.value, rule, jaccardThreshold.value, jaccardCoefficients);
    }

    /**
     * support = (#entries with both coefficients exactly 1) / #transactions,
     * in integer division: with at most one entry per transaction it is 1
     * exactly when every transaction has a both-exact entry, and 0 otherwise.
     */
    method CalculateSupport()
      requires data.Some? && |data.value| > 0 && jaccardCoefficients.Keys <= data.value.Keys
      modifies this`support
      ensures support == if |BothExactIds(jaccardCoefficients)| == |data.value| then 1.0 else 0.0
    {
      CountsWithinData(jaccardCoefficients, data.value);
      ShareOfAll(|BothExactIds(jaccardCoefficients)|, |data.value|);
      support := Share(|BothExactIds(jaccardCoefficients)|, |data.value|);
    }

    /**
     * confidence = support / lhs-support, or 0 when lhs-support is 0, where
     * lhs-support counts the left-exact entries the same way: so the
     * confidence is the support when every transaction has a left-exact
     * entry, and 0 otherwise.
     */
    method CalculateConfidence()
      requires data.Some? && |data.value| > 0 && jaccardCoefficients.Keys <= data.value.Keys
      modifies this`confidence
      ensures confidence == if |LeftExactIds(jaccardCoefficients)| == |data.value| then support else 0.0
    {
      CountsWithinData(jaccardCoefficients, data.value);
      ShareOfAll(|LeftExactIds(jaccardCoefficients)|, |data.value|);
      var lhsSupport := Share(|LeftExactIds(jaccardCoefficients)|, |data.value|);
      confidence := ConfidenceFrom(support, lhsSupport);
    }

    /** Clears the derived state; the data and the rule's sides stay. */
    method ResetState()
      requires Valid()
      modifies this
      ensures Valid()
      ensures confidence == 0.0
      ensures jaccardCoefficients == map[] && clustersViolatingAR == map[]
      ensures support == 0.0 && numTransactionsViolatingAR == 0
    {
      jaccardCoefficients := map[];
      support := 0.0;
      confidence := 0.0;
      clustersViolatingAR := map[];
      numTransactionsViolatingAR := 0;
    }

    /**
     * Runs the pipeline: coefficients, support, confidence, then appends each
     * stored id to the bucket of its priority. The buckets grow by exactly
     * the stored ids of each priority (after ResetState they start empty).
     */
    method CalculateStatistics()
      requires Valid() && data.Some? && |data.value| > 0 && jaccardThreshold.Threshold?
      modifies this
      ensures Valid()
      ensures jaccardCoefficients == StoredCoefficients(data.value, rule, jaccardThreshold.value)
      ensures support == if jaccardThreshold.value == 0 && AllExact(data.value, rule) then 1.0 else 0.0
      ensures confidence == support
      ensures ClustersExtended(clustersViolatingAR, old(clustersViolatingAR), jaccardCoefficients)
    {
      // The proof only chains the contracts of the calls below, so the
      // definitions behind those contracts stay out of sight.
      hide StoredCoefficients, SubMapOfStored, AllExact, BothExactIds, LeftExactIds;
      hide AllPrioritized, ClustersSound, ClustersExtended;
      var before := clustersViolatingAR;
      ghost var transactions, threshold := data.value, jaccardThreshold.value;
      SoundForStored(before, jaccardCoefficients, transactions, rule, threshold);
      StoredShape(transactions, rule, threshold);
      StatisticsOfStored(transactions, rule, threshold);
      CalculateJaccardCoefficients();
      CalculateSupport();
      CalculateConfidence();
      clustersViolatingAR := AppendToClusters(before, jaccardCoefficients);
    }

    function GetNumClustersViolatingAR(): (n: nat)
      reads this
      requires Valid()
      ensures n == |clustersViolatingAR.Keys|
      ensures n <= 4
    {
      SubsetCard(clustersViolatingAR.Keys, {0, 2, 3, 5});
      |clustersViolatingAR|
    }

    /** The violating-transaction counter: no code increments it, so it is always 0. */
    function GetNumTransactionsViolatingAR(): (n: nat)
      reads this
      requires Valid()
      ensures n == 0
    {
      numTransactionsViolatingAR
    }

    function GetClustersViolatingAR(): (clusters: map<int, seq<nat>>)
      reads this
      requires Valid()
      ensures forall p :: p in clusters ==> IsPriority(p)
      ensures forall p, i :: p in clusters && 0 <= i < |clusters[p]| ==>
                clusters[p][i] in jaccardCoefficients &&
                ClusterPriority(jaccardCoefficients[clusters[p][i]]) == p
    {
      clustersViolatingAR
    }

    function GetSupport(): (s: real)
      reads this
      requires Valid()
      ensures s == 0.0 || s == 1.0
    {
      support
    }

    function GetConfidence(): (c: real)
      reads this
      ensures c == confidence
    {
      confidence
    }
  }

}
