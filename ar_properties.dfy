/**
 * Consequences of the statistics engine's definitions: what the threshold
 * does to the relevance filter, why a rule with disjoint sides never gains
 * support, and how the buckets partition the stored ids.
 */
module ArProperties {
  import opened Similarity
  import opened ArStats

  /**
   * With a left side of at least two items the threshold is 0, and a
   * transaction is stored exactly when it shares an item with the left side:
   * the right-hand test "r > 0 || r == 0" always passes.
   */
  lemma StoredWhenWideLeft(data: map<nat, seq<nat>>, rule: ArIds, id: nat)
    requires |rule.left| >= 2
    ensures JaccardThreshold(|rule.left|) == Threshold(0)
    ensures id in StoredCoefficients(data, rule, 0) <==>
              id in data && exists x :: x in data[id] && x in rule.left
  {
    if id in data {
      JaccardZero(data[id], rule.left);
      JaccardBounds(data[id], rule.left);
      JaccardBounds(data[id], rule.right);
    }
  }

  /**
   * With a single-item left side the threshold wraps to SIZE_MAX, which no
   * coefficient exceeds, so nothing is ever stored.
   */
  lemma NothingStoredForSingleItemLeft(data: map<nat, seq<nat>>, rule: ArIds)
    requires |rule.left| == 1
    ensures JaccardThreshold(|rule.left|) == Threshold(SizeMax)
    ensures StoredCoefficients(data, rule, SizeMax) == map[]
  {
    forall id | id in data ensures !Relevant(CoefficientsOf(data[id], rule), SizeMax) {
      JaccardBounds(data[id], rule.left);
    }
  }

  /** The two rule sides share no item (the usual shape of an association rule X => Y). */
  predicate DisjointSides(rule: ArIds)
  {
    forall x :: x in rule.left ==> x !in rule.right
  }

  /**
   * A coefficient of exactly 1 requires every transaction item to occur in
   * the rule side, so no transaction can be exact for two disjoint sides.
   */
  lemma DisjointSidesNeverBothExact(t: seq<nat>, rule: ArIds)
    requires DisjointSides(rule)
    ensures !(Jaccard(t, rule.left) == 1.0 && Jaccard(t, rule.right) == 1.0)
  {
    JaccardOne(t, rule.left);
    JaccardOne(t, rule.right);
    if |t| > 0 {
      var x := t[0];
      assert x in multiset(t);
      assert x in rule.left <==> x in multiset(rule.left);
      assert x in rule.right <==> x in multiset(rule.right);
    }
  }

  /** Hence, for a rule with disjoint sides, the support is 0 whatever the data and the threshold. */
  lemma DisjointRuleHasZeroSupport(data: map<nat, seq<nat>>, rule: ArIds, threshold: nat)
    requires DisjointSides(rule) && |data| > 0
    ensures BothExactIds(StoredCoefficients(data, rule, threshold)) == {}
    ensures Share(|BothExactIds(StoredCoefficients(data, rule, threshold))|, |data|) == 0.0
  {
    var m := StoredCoefficients(data, rule, threshold);
    forall id | id in m ensures !(m[id].0 == 1.0 && m[id].1 == 1.0) {
      DisjointSidesNeverBothExact(data[id], rule);
    }
  }

  /**
   * When the buckets started empty (after ResetState or construction), each
   * stored id sits exactly once in the bucket of its priority and in no other
   * bucket, and every bucketed id is a stored id.
   */
  lemma FreshClustersPartition(clusters: map<int, seq<nat>>, m: map<nat, Coefficients>)
    requires forall p :: multiset(Bucket(clusters, p)) == multiset(IdsWithPriority(m, p))
    ensures forall id, p :: id in m ==>
              multiset(Bucket(clusters, p))[id] == if p == ClusterPriority(m[id]) then 1 else 0
    ensures forall p, id :: id in Bucket(clusters, p) ==> id in m && ClusterPriority(m[id]) == p
  {
    forall p, id | id in Bucket(clusters, p)
      ensures id in m && ClusterPriority(m[id]) == p
    {
      assert id in multiset(Bucket(clusters, p));
    }
  }

  /** The support an association rule X => Y evidently means: the share of transactions containing every item of X and of Y. */
  ghost function IntendedSupport(data: map<nat, seq<nat>>, rule: ArIds): (s: real)
    requires |data| > 0
    ensures 0.0 <= s <= 1.0
  {
    var containing := set id | id in data && ContainsRule(data[id], rule);
    SubsetCard(containing, data.Keys);
    |containing| as real / |data| as real
  }

  predicate ContainsRule(items: seq<nat>, rule: ArIds)
  {
    (forall x :: x in rule.left ==> x in items) && (forall x :: x in rule.right ==> x in items)
  }

  /** A transaction holding both sides of the rule gives it a positive intended support. */
  lemma IntendedSupportPositive(data: map<nat, seq<nat>>, rule: ArIds, id: nat)
    requires id in data && ContainsRule(data[id], rule)
    ensures IntendedSupport(data, rule) > 0.0
  {
    var containing := set id' | id' in data && ContainsRule(data[id'], rule);
    SubsetCard({id}, containing);
  }

  /**
   * The transaction {1, 2, 3} and the rule {1, 3} => {2}: the transaction holds
   * the whole rule, yet the support computed as written is 0, whatever the
   * threshold; the intended support is 1.
   */
  lemma SupportMissesContainingTransaction(threshold: nat)
    ensures var data, rule := map[0 := [1, 2, 3]], ArIds([1, 3], [2], 0.0);
            && Share(|BothExactIds(StoredCoefficients(data, rule, threshold))|, |data|) == 0.0
            && IntendedSupport(data, rule) == 1.0
  {
    hide StoredCoefficients, BothExactIds;
    var data, rule := map[0 := [1, 2, 3]], ArIds([1, 3], [2], 0.0);
    DisjointRuleHasZeroSupport(data, rule, threshold);
    assert ContainsRule(data[0], rule);
    assert (set id | id in data && ContainsRule(data[id], rule)) == {0};
  }

}
