/**
 * The per-transaction overlap coefficient of the association-rule statistics
 * engine (ARStatsCalculator::JaccardSimilarity): a count-based overlap between
 * a transaction's item ids and the item ids of one rule side, both read as
 * multisets.
 *
 * The coefficient is an exact ratio of two non-negative counts:
 *   intersection = sum over distinct transaction items x of min(count_T(x), count_R(x))
 *   union        = sum over distinct transaction items x of count_T(x)
 *                + sum over rule items absent from the transaction of count_R(x)
 * The "union" adds the transaction's whole count for an item, not the larger
 * of the two counts, so the coefficient is not symmetric in its arguments.
 */
module Similarity {
  import opened Sums

  /** Number of occurrences of item x in s. */
  function Count(s: seq<nat>, x: nat): nat
  {
    multiset(s)[x]
  }

  /** The distinct items of s. */
  function Items(s: seq<nat>): set<nat>
  {
    set x | x in s
  }

  function Min(a: int, b: int): int
  {
    if a <= b then a else b
  }

  /** Term of the transaction total: the count of x in the transaction. */
  function CountIn(t: seq<nat>): nat -> int
  {
    (x: nat) => Count(t, x)
  }

  /** Term of the intersection: the smaller of the two counts of x. */
  function MinIn(t: seq<nat>, r: seq<nat>): nat -> int
  {
    (x: nat) => Min(Count(t, x), Count(r, x))
  }

  /** Term of the rule-only part of the union: the rule count of x when x is not in the transaction. */
  function AbsentIn(t: seq<nat>, r: seq<nat>): nat -> int
  {
    (x: nat) => if x in t then 0 else Count(r, x)
  }

  ghost function IntersectionCount(t: seq<nat>, r: seq<nat>): int
  {
    Sum(Items(t), MinIn(t, r))
  }

  ghost function TransactionCount(t: seq<nat>): int
  {
    Sum(Items(t), CountIn(t))
  }

  ghost function RuleOnlyCount(t: seq<nat>, r: seq<nat>): int
  {
    Sum(Items(r), AbsentIn(t, r))
  }

  ghost function UnionCount(t: seq<nat>, r: seq<nat>): int
  {
    TransactionCount(t) + RuleOnlyCount(t, r)
  }

  /**
   * The coefficient as the source computes it: 0 for an empty transaction,
   * otherwise intersection / union (the union is then at least 1).
   */
  ghost function Jaccard(t: seq<nat>, r: seq<nat>): real
  {
    if |t| == 0 then 0.0
    else
      CountOrder(t, r);
      IntersectionCount(t, r) as real / UnionCount(t, r) as real
  }

  /** intersection <= transaction total <= union, and union >= 1 for a non-empty transaction. */
  lemma CountOrder(t: seq<nat>, r: seq<nat>)
    ensures 0 <= IntersectionCount(t, r) <= TransactionCount(t) <= UnionCount(t, r)
    ensures |t| > 0 ==> UnionCount(t, r) >= 1
  {
    SumZero(Items(t), MinIn(t, r));
    SumZero(Items(r), AbsentIn(t, r));
    SumLe(Items(t), MinIn(t, r), CountIn(t));
    if |t| > 0 {
      SumRemove(Items(t), CountIn(t), t[0]);
      SumZero(Items(t) - {t[0]}, CountIn(t));
    }
  }

  /** The intersection reaches the transaction total iff no item is more frequent in the transaction than in the rule side. */
  lemma IntersectionFull(t: seq<nat>, r: seq<nat>)
    ensures IntersectionCount(t, r) == TransactionCount(t) <==>
              forall x :: x in t ==> Count(t, x) <= Count(r, x)
  {
    SumLe(Items(t), MinIn(t, r), CountIn(t));
    forall x | x in Items(t)
      ensures MinIn(t, r)(x) == CountIn(t)(x) <==> Count(t, x) <= Count(r, x)
    {
    }
  }

  /** The intersection is empty iff the transaction shares no item with the rule side. */
  lemma IntersectionEmpty(t: seq<nat>, r: seq<nat>)
    ensures IntersectionCount(t, r) == 0 <==> forall x :: x in t ==> x !in r
  {
    SumZero(Items(t), MinIn(t, r));
    forall x | x in Items(t)
      ensures MinIn(t, r)(x) == 0 <==> x !in r
    {
      assert x in multiset(t);
      assert x in r <==> x in multiset(r);
    }
  }

  /** The rule-only part of the union vanishes iff every rule item occurs in the transaction. */
  lemma RuleOnlyEmpty(t: seq<nat>, r: seq<nat>)
    ensures RuleOnlyCount(t, r) == 0 <==> forall x :: x in r ==> x in t
  {
    SumZero(Items(r), AbsentIn(t, r));
    if forall x :: x in r ==> x in t {
      forall x | x in Items(r) ensures AbsentIn(t, r)(x) == 0 { }
    } else {
      var x :| x in r && x !in t;
      assert x in Items(r) && AbsentIn(t, r)(x) != 0;
    }
  }

  /** A ratio of counts 0 <= a <= b with b > 0 lies in [0,1]; it is 1 iff a == b and 0 iff a == 0. */
  lemma RatioFacts(a: int, b: int)
    requires 0 <= a <= b && b > 0
    ensures 0.0 <= a as real / b as real <= 1.0
    ensures a as real / b as real == 1.0 <==> a == b
    ensures a as real / b as real == 0.0 <==> a == 0
  {
    var q := a as real / b as real;
    assert q * b as real == a as real;
  }

  /** The coefficient always lies in [0,1]. */
  lemma JaccardBounds(t: seq<nat>, r: seq<nat>)
    ensures 0.0 <= Jaccard(t, r) <= 1.0
  {
    if |t| > 0 {
      CountOrder(t, r);
      RatioFacts(IntersectionCount(t, r), UnionCount(t, r));
    }
  }

  /**
   * The coefficient is exactly 1 iff the transaction is non-empty, every rule
   * item occurs in it, and no transaction item occurs more often in the
   * transaction than in the rule side.
   */
  lemma JaccardOne(t: seq<nat>, r: seq<nat>)
    ensures Jaccard(t, r) == 1.0 <==>
              && |t| > 0
              && (forall x :: x in r ==> x in t)
              && (forall x :: x in t ==> Count(t, x) <= Count(r, x))
  {
    if |t| > 0 {
      CountOrder(t, r);
      IntersectionFull(t, r);
      RuleOnlyEmpty(t, r);
      RatioFacts(IntersectionCount(t, r), UnionCount(t, r));
    }
  }

  /** The coefficient is exactly 0 iff the transaction shares no item with the rule side (an empty transaction shares none). */
  lemma JaccardZero(t: seq<nat>, r: seq<nat>)
    ensures Jaccard(t, r) == 0.0 <==> forall x :: x in t ==> x !in r
  {
    if |t| > 0 {
      CountOrder(t, r);
      IntersectionEmpty(t, r);
      RatioFacts(IntersectionCount(t, r), UnionCount(t, r));
    }
  }

  /** A non-empty transaction whose items are exactly the rule side, counts included, has coefficient 1. */
  lemma JaccardSelfMatch(t: seq<nat>, r: seq<nat>)
    requires |t| > 0 && multiset(t) == multiset(r)
    ensures Jaccard(t, r) == 1.0
  {
    JaccardOne(t, r);
    forall x | x in r ensures x in t {
      assert x in multiset(r);
    }
  }

  /** T = [a], R = [a, a] gives 1, while the swapped pair gives 1/2: the coefficient is not symmetric. */
  lemma JaccardAsymmetric(a: nat)
    ensures Jaccard([a], [a, a]) == 1.0
    ensures Jaccard([a, a], [a]) == 0.5
  {
    JaccardOne([a], [a, a]);
    var t, r := [a, a], [a];
    assert Items(t) == {a} && Items(r) == {a};
    assert Count(t, a) == 2 && Count(r, a) == 1;
    SumRemove({a}, MinIn(t, r), a);
    SumRemove({a}, CountIn(t), a);
    SumRemove({a}, AbsentIn(t, r), a);
    assert IntersectionCount(t, r) == 1;
    assert UnionCount(t, r) == 2;
  }

  /** Counts each item of s, like the loops filling std::map<unsigned, int> counters. */
  method CountItems(s: seq<nat>) returns (counts: map<nat, nat>)
    ensures counts.Keys == Items(s)
    ensures forall x :: x in counts ==> counts[x] == Count(s, x)
  {
    counts := map[];
    for i := 0 to |s|
      invariant counts.Keys == Items(s[..i])
      invariant forall x :: x in counts ==> counts[x] == Count(s[..i], x)
    {
      var x := s[i];
      assert s[..i + 1] == s[..i] + [x];
      counts := counts[x := (if x in counts then counts[x] else 0) + 1];
    }
    assert s[..|s|] == s;
  }

  /**
   * The first accumulation loop of JaccardSimilarity: over the transaction's
   * distinct items, add min(count_T, count_R) to the intersection when the
   * item is in the rule side, and count_T to the union.
   */
  method AccumulateTransactionItems(countTransaction: map<nat, nat>, countRule: map<nat, nat>,
                                    ghost t: seq<nat>, ghost r: seq<nat>)
    returns (intersectionCount: int, unionCount: int)
    requires countTransaction.Keys == Items(t) && countRule.Keys == Items(r)
    requires forall x :: x in countTransaction ==> countTransaction[x] == Count(t, x)
    requires forall x :: x in countRule ==> countRule[x] == Count(r, x)
    ensures intersectionCount == IntersectionCount(t, r)
    ensures unionCount == TransactionCount(t)
  {
    intersectionCount, unionCount := 0, 0;
    var pending := countTransaction.Keys;
    while pending != {}
      invariant pending <= countTransaction.Keys
      invariant intersectionCount + Sum(pending, MinIn(t, r)) == IntersectionCount(t, r)
      invariant unionCount + Sum(pending, CountIn(t)) == TransactionCount(t)
      decreases pending
    {
      var element :| element in pending;
      SumRemove(pending, MinIn(t, r), element);
      SumRemove(pending, CountIn(t), element);
      var countInTransaction := countTransaction[element];
      if element in countRule {
        intersectionCount := intersectionCount + Min(countInTransaction, countRule[element]);
      } else {
        assert element !in multiset(r);
      }
      unionCount := unionCount + countInTransaction;
      pending := pending - {element};
    }
  }

  /**
   * The second accumulation loop of JaccardSimilarity: over the rule side's
   * distinct items, add count_R to the union for each item the transaction
   * does not contain.
   */
  method AccumulateRuleOnlyItems(countTransaction: map<nat, nat>, countRule: map<nat, nat>,
                                 unionSoFar: int, ghost t: seq<nat>, ghost r: seq<nat>)
    returns (unionCount: int)
    requires countTransaction.Keys == Items(t) && countRule.Keys == Items(r)
    requires forall x :: x in countRule ==> countRule[x] == Count(r, x)
    ensures unionCount == unionSoFar + RuleOnlyCount(t, r)
  {
    unionCount := unionSoFar;
    var pending := countRule.Keys;
    while pending != {}
      invariant pending <= countRule.Keys
      invariant unionCount + Sum(pending, AbsentIn(t, r)) == unionSoFar + RuleOnlyCount(t, r)
      decreases pending
    {
      var item :| item in pending;
      SumRemove(pending, AbsentIn(t, r), item);
      if item !in countTransaction {
        unionCount := unionCount + countRule[item];
      }
      pending := pending - {item};
    }
  }

  /**
   * ARStatsCalculator::JaccardSimilarity: 0 for an empty transaction;
   * otherwise count both sides, accumulate the intersection and the union,
   * and divide (the union == 0 fallback of 1 cannot be reached). Depends on
   * its arguments only.
   */
  method JaccardSimilarity(transactionIndices: seq<nat>, rulePart: seq<nat>) returns (r: real)
    ensures r == Jaccard(transactionIndices, rulePart)
    ensures |transactionIndices| == 0 ==> r == 0.0
    ensures 0.0 <= r <= 1.0
  {
    JaccardBounds(transactionIndices, rulePart);
    if |transactionIndices| == 0 {
      return 0.0;
    }
    var countTransaction := CountItems(transactionIndices);
    var countRule := CountItems(rulePart);
    var intersectionCount, unionCount :=
      AccumulateTransactionItems(countTransaction, countRule, transactionIndices, rulePart);
    unionCount :=
      AccumulateRuleOnlyItems(countTransaction, countRule, unionCount, transactionIndices, rulePart);
    CountOrder(transactionIndices, rulePart);
    r := if unionCount == 0 then 1.0 else intersectionCount as real / unionCount as real;
  }

}
