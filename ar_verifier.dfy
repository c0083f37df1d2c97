/**
 * The association-rule verifier (ARVerifier): it loads the transactions,
 * turns the rule's item names into item ids by their position in the item
 * universe, hands data and rule to a statistics engine, and reports the
 * engine's results and whether the rule holds for two thresholds.
 */
module ArVerifier {
  import opened Wrappers
  import opened ArStats

  /** How the input table lays out the transactions. */
  datatype InputFormat = Singular | Tabular

  /**
   * model::TransactionalData as the verifier sees it: the item names, whose
   * positions are the item ids, and the transactions (id -> item ids).
   */
  datatype TransactionalData = TransactionalData(itemUniverse: seq<string>, transactions: map<nat, seq<nat>>)

  /** The verifier's input options. */
  datatype Options = Options(
    inputFormat: InputFormat,
    tidColumnIndex: nat,
    itemColumnIndex: nat,
    firstColumnTid: bool,
    ruleLeft: seq<string>,
    ruleRight: seq<string>,
    minconf: real,
    minsup: real)

  const LeftMissing: string := "Item in left rule part not found in item universe: "
  const RightMissing: string := "Item in right rule part not found in item universe: "
  const EmptyDataset: string := "Got an empty dataset: AR verifying is meaningless."

  /**
   * The position of the first occurrence of name in the universe, or the
   * length of the universe when the name does not occur (the end iterator).
   */
  function FirstIndex(universe: seq<string>, name: string): (i: nat)
    ensures i <= |universe|
    ensures i < |universe| <==> name in universe
    ensures i < |universe| ==> universe[i] == name
    ensures forall j :: 0 <= j < i ==> universe[j] != name
  {
    if |universe| == 0 || universe[0] == name then 0
    else 1 + FirstIndex(universe[1..], name)
  }

  /** The position of the first name that is not in the universe, or |names| when all are. */
  function FirstMissingIndex(universe: seq<string>, names: seq<string>): (k: nat)
    ensures k <= |names|
    ensures forall j :: 0 <= j < k ==> names[j] in universe
    ensures k < |names| ==> names[k] !in universe
  {
    if |names| == 0 || names[0] !in universe then 0
    else 1 + FirstMissingIndex(universe, names[1..])
  }

  /**
   * One of the two resolution loops: each name becomes the position of its
   * first occurrence, in the order of the names; the first name that is
   * missing stops the loop and is reported.
   */
  method ResolveNames(universe: seq<string>, names: seq<string>) returns (r: Result<seq<nat>, string>)
    ensures r.Success? <==> FirstMissingIndex(universe, names) == |names|
    ensures r.Failure? ==> r.error == names[FirstMissingIndex(universe, names)]
    ensures r.Success? ==> |r.value| == |names|
    ensures r.Success? ==> forall i :: 0 <= i < |names| ==>
              r.value[i] < |universe| && universe[r.value[i]] == names[i] &&
              r.value[i] == FirstIndex(universe, names[i])
  {
    var ids: seq<nat> := [];
    var i := 0;
    while i < |names|
      invariant 0 <= i <= |names|
      invariant |ids| == i
      invariant forall j :: 0 <= j < i ==> names[j] in universe
      invariant forall j :: 0 <= j < i ==>
                  ids[j] < |universe| && universe[ids[j]] == names[j] && ids[j] == FirstIndex(universe, names[j])
    {
      var position := FirstIndex(universe, names[i]);
      if position == |universe| {
        return Failure(names[i]);
      }
      ids := ids + [position];
      i := i + 1;
    }
    r := Success(ids);
  }

  /**
   * The name resolution of the verifier's constructor: the left side is
   * resolved first, then the right one; the rule is built with confidence -1.
   */
  method ResolveRule(universe: seq<string>, left: seq<string>, right: seq<string>) returns (r: Result<ArIds, string>)
    ensures FirstMissingIndex(universe, left) < |left| ==>
              r == Failure(LeftMissing + left[FirstMissingIndex(universe, left)])
    ensures FirstMissingIndex(universe, left) == |left| && FirstMissingIndex(universe, right) < |right| ==>
              r == Failure(RightMissing + right[FirstMissingIndex(universe, right)])
    ensures r.Success? <==> FirstMissingIndex(universe, left) == |left| && FirstMissingIndex(universe, right) == |right|
    ensures r.Success? ==> && r.value.confidence == -1.0
                           && |r.value.left| == |left| && |r.value.right| == |right|
                           && (forall i :: 0 <= i < |left| ==> r.value.left[i] == FirstIndex(universe, left[i]))
                           && (forall i :: 0 <= i < |right| ==> r.value.right[i] == FirstIndex(universe, right[i]))
  {
    var leftIds := ResolveNames(universe, left);
    if leftIds.Failure? {
      return Failure(LeftMissing + leftIds.error);
    }
    var rightIds := ResolveNames(universe, right);
    if rightIds.Failure? {
      return Failure(RightMissing + rightIds.error);
    }
    r := Success(ArIds(leftIds.value, rightIds.value, -1.0));
  }

  /** ARHolds as written: confidence against minsup, support against minconf. */
  predicate ARHoldsAsWritten(support: real, confidence: real, minsup: real, minconf: real)
  {
    confidence <= minsup && support >= minconf
  }

  /** The evidently intended test: support reaches minsup and confidence reaches minconf. */
  predicate ARHoldsIntended(support: real, confidence: real, minsup: real, minconf: real)
  {
    support >= minsup && confidence >= minconf
  }

  /**
   * The test as written rejects a rule with support and confidence 1 under
   * the thresholds 0.5 and 0.5, and accepts one with confidence 0 and support
   * 1 under minimum confidence 1 and minimum support 0.5.
   */
  lemma AsWrittenRejectsPerfectRule()
    ensures !ARHoldsAsWritten(1.0, 1.0, 0.5, 0.5) && ARHoldsIntended(1.0, 1.0, 0.5, 0.5)
    ensures ARHoldsAsWritten(1.0, 0.0, 0.5, 1.0) && !ARHoldsIntended(1.0, 0.0, 0.5, 1.0)
  {
  }

  /**
   * The intended test is monotone: raising support or confidence, or
   * lowering a threshold, never turns a holding rule into a failing one;
   * and a rule with support and confidence 1 holds for all thresholds up to 1.
   */
  lemma IntendedIsMonotone(support: real, confidence: real, minsup: real, minconf: real,
                           support': real, confidence': real, minsup': real, minconf': real)
    requires ARHoldsIntended(support, confidence, minsup, minconf)
    requires support <= support' && confidence <= confidence' && minsup' <= minsup && minconf' <= minconf
    ensures ARHoldsIntended(support', confidence', minsup', minconf')
    ensures minsup <= 1.0 && minconf <= 1.0 ==> ARHoldsIntended(1.0, 1.0, minsup, minconf)
  {
  }

  /**
   * The test as written is not monotone in the confidence: a higher
   * confidence can make a holding rule fail.
   */
  lemma AsWrittenPenalisesConfidence(support: real, confidence: real, minsup: real, minconf: real)
    requires ARHoldsAsWritten(support, confidence, minsup, minconf)
    ensures !ARHoldsAsWritten(support, minsup + 1.0, minsup, minconf)
  {
  }

  class ARVerifier {
    var options: Options
    /** None stands for a null data pointer: before loading, and after the data moved to the engine. */
    var transactionalData: Option<TransactionalData>
    var arIds: ArIds
    var statsCalculator: ARStatsCalculator
    /** The verifier's own result fields; no member reads or writes them after construction. */
    var numTransactionsViolatingAR: nat
    var clustersViolatingAR: seq<seq<nat>>

    ghost predicate Valid()
      reads this, statsCalculator
    {
      statsCalculator.Valid()
    }

    /**
     * Options at their defaults, no data, a default-constructed engine and
     * the rule the resolution loops give for the still-empty name lists.
     */
    constructor ()
      ensures Valid()
      ensures options == Options(Singular, 0, 1, false, [], [], 0.0, 0.0)
      ensures transactionalData == None
      ensures arIds == ArIds([], [], -1.0)
      ensures fresh(statsCalculator)
      ensures statsCalculator.data == None && statsCalculator.jaccardThreshold == DivisionByZero
      ensures statsCalculator.rule.left == [] && statsCalculator.rule.right == []
      ensures statsCalculator.support == 0.0 && statsCalculator.confidence == 0.0
      ensures statsCalculator.jaccardCoefficients == map[] && statsCalculator.clustersViolatingAR == map[]
      ensures numTransactionsViolatingAR == 0 && clustersViolatingAR == []
    {
      options := Options(Singular, 0, 1, false, [], [], 0.0, 0.0);
      transactionalData := None;
      numTransactionsViolatingAR := 0;
      clustersViolatingAR := [];
      statsCalculator := new ARStatsCalculator.Default();
      arIds := ArIds([], [], -1.0);
    }

    /** The option framework stores the values the caller supplies. */
    method SetOptions(o: Options)
      modifies this`options
      ensures options == o
    {
      options := o;
    }

    /**
     * Takes the transactions built from the input table in the configured
     * format, and rejects them when there are none.
     */
    method LoadDataInternal(loaded: TransactionalData) returns (r: Result<(), string>)
      modifies this`transactionalData
      ensures transactionalData == Some(loaded)
      ensures r.Failure? <==> |loaded.transactions| == 0
      ensures r.Failure? ==> r.error == EmptyDataset
    {
      transactionalData := Some(loaded);
      if |loaded.transactions| == 0 {
        return Failure(EmptyDataset);
      }
      r := Success(());
    }

    /**
     * Resolves the configured rule names against the loaded item universe;
     * on an error the rule ids stay as they were.
     */
    method ResolveRuleIds() returns (r: Result<(), string>)
      requires transactionalData.Some?
      modifies this`arIds
      ensures var universe, left, right := transactionalData.value.itemUniverse, options.ruleLeft, options.ruleRight;
              && (r.Success? <==> FirstMissingIndex(universe, left) == |left| && FirstMissingIndex(universe, right) == |right|)
              && (FirstMissingIndex(universe, left) < |left| ==>
                    r == Failure(LeftMissing + left[FirstMissingIndex(universe, left)]))
              && (FirstMissingIndex(universe, left) == |left| && FirstMissingIndex(universe, right) < |right| ==>
                    r == Failure(RightMissing + right[FirstMissingIndex(universe, right)]))
              && (r.Success? ==> && arIds.confidence == -1.0
                                 && |arIds.left| == |left| && |arIds.right| == |right|
                                 && (forall i :: 0 <= i < |left| ==>
                                       arIds.left[i] == FirstIndex(universe, left[i]) && universe[arIds.left[i]] == left[i])
                                 && (forall i :: 0 <= i < |right| ==>
                                       arIds.right[i] == FirstIndex(universe, right[i]) && universe[arIds.right[i]] == right[i]))
      ensures r.Failure? ==> arIds == old(arIds)
    {
      var resolved := ResolveRule(transactionalData.value.itemUniverse, options.ruleLeft, options.ruleRight);
      if resolved.Failure? {
        return Failure(resolved.error);
      }
      arIds := resolved.value;
      r := Success(());
    }

    /**
     * Replaces the engine with a fresh one over the data and the rule; the
     * data pointer moves to the engine. The statistics are not computed.
     */
    method VerifyAR()
      modifies this`statsCalculator, this`transactionalData
      ensures Valid() && fresh(statsCalculator)
      ensures transactionalData == None
      ensures statsCalculator.data == (if old(transactionalData).Some? then Some(old(transactionalData).value.transactions) else None)
      ensures statsCalculator.rule == arIds && statsCalculator.confidence == arIds.confidence
      ensures statsCalculator.support == 0.0 && statsCalculator.jaccardCoefficients == map[]
      ensures statsCalculator.clustersViolatingAR == map[]
    {
      var data: Option<map<nat, seq<nat>>> := None;
      if transactionalData.Some? {
        data := Some(transactionalData.value.transactions);
      }
      statsCalculator := new ARStatsCalculator(data, arIds);
      transactionalData := None;
    }

    method ResetState()
      requires Valid()
      modifies statsCalculator
      ensures Valid()
      ensures statsCalculator.confidence == 0.0 && statsCalculator.support == 0.0
      ensures statsCalculator.jaccardCoefficients == map[] && statsCalculator.clustersViolatingAR == map[]
    {
      statsCalculator.ResetState();
    }

    method CalculateStatistics()
      requires Valid()
      requires statsCalculator.data.Some? && |statsCalculator.data.value| > 0
      requires statsCalculator.jaccardThreshold.Threshold?
      modifies statsCalculator
      ensures Valid()
      ensures var calculator := statsCalculator;
              && calculator.jaccardCoefficients == StoredCoefficients(calculator.data.value, calculator.rule, calculator.jaccardThreshold.value)
              && calculator.support == (if calculator.jaccardThreshold.value == 0 && AllExact(calculator.data.value, calculator.rule) then 1.0 else 0.0)
              && calculator.confidence == calculator.support
    ensures ClustersExtended(statsCalculator.clustersViolatingAR, old(statsCalculator.clustersViolatingAR),
                             statsCalculator.jaccardCoefficients)
    {
      statsCalculator.CalculateStatistics();
    }

    /**
     * The rule holds, as the comparisons are written, for the engine's
     * results; since the support is 0 or 1, no minimum confidence above 1 is
     * ever met.
     */
    predicate ARHolds()
      reads this, statsCalculator
      requires Valid()
      ensures options.minconf > 1.0 ==> !ARHolds()
    {
      ARHoldsAsWritten(GetRealSupport(), GetRealConfidence(), options.minsup, options.minconf)
    }

    function GetNumClustersViolatingAR(): (n: nat)
      reads this, statsCalculator
      requires Valid()
      ensures n == |statsCalculator.clustersViolatingAR.Keys| && n <= 4
    {
      statsCalculator.GetNumClustersViolatingAR()
    }

    function GetNumTransactionsViolatingAR(): (n: nat)
      reads this, statsCalculator
      requires Valid()
      ensures n == 0
    {
      statsCalculator.GetNumTransactionsViolatingAR()
    }

    function GetClustersViolatingAR(): (clusters: map<int, seq<nat>>)
      reads this, statsCalculator
      requires Valid()
      ensures clusters == statsCalculator.clustersViolatingAR
      ensures forall p :: p in clusters ==> IsPriority(p)
    {
      statsCalculator.GetClustersViolatingAR()
    }

    function GetRealSupport(): (s: real)
      reads this, statsCalculator
      requires Valid()
      ensures s == statsCalculator.support && (s == 0.0 || s == 1.0)
    {
      statsCalculator.GetSupport()
    }

    function GetRealConfidence(): (c: real)
      reads this, statsCalculator
      requires Valid()
      ensures c == statsCalculator.confidence
    {
      statsCalculator.GetConfidence()
    }

    /**
     * Right after VerifyAR the engine reports support 0 and the rule's
     * confidence slot, so with a resolved rule (confidence -1) the rule
     * holds as written exactly when minconf <= 0 and minsup >= -1, whatever
     * the data.
     */
    lemma HoldsBeforeStatistics()
      requires Valid()
      requires statsCalculator.support == 0.0 && statsCalculator.confidence == -1.0
      ensures ARHolds() <==> options.minconf <= 0.0 && options.minsup >= -1.0
    {
    }
  }

  /**
   * The verifier driven in the source's order: construction (where the
   * source resolves the rule names), the options, loading, then VerifyAR.
   * Whatever names the options give, the engine receives the rule the empty
   * name lists produced, ([], [], -1), whose threshold divides by zero.
   */
  method RunInSourceOrder(o: Options, loaded: TransactionalData) returns (v: ARVerifier, r: Result<(), string>)
    ensures v.Valid()
    ensures r.Failure? <==> |loaded.transactions| == 0
    ensures r.Success? ==> && v.statsCalculator.data == Some(loaded.transactions)
                           && v.statsCalculator.rule == ArIds([], [], -1.0)
                           && v.statsCalculator.jaccardThreshold == DivisionByZero
  {
    v := new ARVerifier();
    v.SetOptions(o);
    r := v.LoadDataInternal(loaded);
    if r.Failure? {
      return;
    }
    v.VerifyAR();
  }

  /**
   * The evidently intended order: the names are resolved once the options
   * are set and the data is loaded. The engine then receives the configured
   * rule, each id the first position of its name, and a non-empty left side
   * gives it a defined threshold.
   */
  method RunWithResolution(o: Options, loaded: TransactionalData) returns (v: ARVerifier, r: Result<(), string>)
    ensures v.Valid()
    ensures r.Success? <==> && |loaded.transactions| > 0
                            && FirstMissingIndex(loaded.itemUniverse, o.ruleLeft) == |o.ruleLeft|
                            && FirstMissingIndex(loaded.itemUniverse, o.ruleRight) == |o.ruleRight|
    ensures r.Success? ==> && v.statsCalculator.data == Some(loaded.transactions)
                           && v.statsCalculator.rule.confidence == -1.0
                           && |v.statsCalculator.rule.left| == |o.ruleLeft|
                           && |v.statsCalculator.rule.right| == |o.ruleRight|
                           && (forall i :: 0 <= i < |o.ruleLeft| ==>
                                 v.statsCalculator.rule.left[i] == FirstIndex(loaded.itemUniverse, o.ruleLeft[i]))
                           && (forall i :: 0 <= i < |o.ruleRight| ==>
                                 v.statsCalculator.rule.right[i] == FirstIndex(loaded.itemUniverse, o.ruleRight[i]))
                           && (|o.ruleLeft| > 0 <==> v.statsCalculator.jaccardThreshold.Threshold?)
  {
    v := new ARVerifier();
    v.SetOptions(o);
    r := v.LoadDataInternal(loaded);
    if r.Failure? {
      return;
    }
    r := v.ResolveRuleIds();
    if r.Failure? {
      return;
    }
    v.VerifyAR();
  }

}
