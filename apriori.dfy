/**
 The miner's driver: mine every frequent itemset level by level, then derive
 the maximal and the closed ones from the accumulated set.
 */
module Apriori {
  import opened Itemsets
  import Mining
  import Closure

  /** A frequent itemset that no frequent itemset strictly contains. */
  ghost predicate IsMaximalFrequent(I: Itemset, db: seq<Transaction>, minSupport: nat)
  {
    IsFrequent(I, db, minSupport) && forall J :: I < J ==> !IsFrequent(J, db, minSupport)
  }

  /** A frequent itemset that no itemset strictly contains with the same support count. */
  ghost predicate IsClosedFrequent(I: Itemset, db: seq<Transaction>, minSupport: nat)
  {
    IsFrequent(I, db, minSupport) && forall J :: I < J ==> Support(J, db) != Support(I, db)
  }

  /** Over the set of all frequent itemsets, maximality within the set is maximality among all itemsets. */
  lemma MaximalAgrees(total: set<Itemset>, maxSets: set<Itemset>, db: seq<Transaction>, minSupport: nat)
    requires forall J :: J in total <==> IsFrequent(J, db, minSupport)
    requires forall I :: I in maxSets <==> Closure.IsMaximalIn(I, total)
    ensures forall I :: I in maxSets <==> IsMaximalFrequent(I, db, minSupport)
  {
  }

  /**
   Over the set of all frequent itemsets, closedness within the set is
   closedness among all itemsets: a superset with the same support is itself
   frequent.
   */
  lemma ClosedAgrees(total: set<Itemset>, closed: set<Itemset>, db: seq<Transaction>, minSupport: nat)
    requires forall J :: J in total <==> IsFrequent(J, db, minSupport)
    requires forall I :: I in closed <==> Closure.IsClosedIn(I, total, db)
    ensures forall I :: I in closed <==> IsClosedFrequent(I, db, minSupport)
  {
  }

  /** A maximal frequent itemset is closed: it has no frequent proper superset at all. */
  lemma MaximalIsClosed(I: Itemset, db: seq<Transaction>, minSupport: nat)
    requires IsMaximalFrequent(I, db, minSupport)
    ensures IsClosedFrequent(I, db, minSupport)
  {
  }

  /**
   Runs the level-wise miner and the two backward passes. The results match
   the textbook definitions over all itemsets, not just the accumulated ones.
   */
  method Mine(db: seq<Transaction>, minSupport: nat)
    returns (total: set<Itemset>, maxSets: set<Itemset>, closed: set<Itemset>)
    ensures forall I :: I in total <==> IsFrequent(I, db, minSupport)
    ensures forall I :: I in maxSets <==> IsMaximalFrequent(I, db, minSupport)
    ensures forall I :: I in closed <==> IsClosedFrequent(I, db, minSupport)
    ensures maxSets <= closed <= total
  {
    var freqSize;
    total, freqSize := Mining.MineFrequent(db, minSupport);
    maxSets := Closure.FindMaxFreqItemSets(freqSize, total);
    closed := Closure.FindClosedFreqItemSets(freqSize, total, db);
    MaximalAgrees(total, maxSets, db, minSupport);
    ClosedAgrees(total, closed, db, minSupport);
    forall I | I in maxSets ensures I in closed {
      MaximalIsClosed(I, db, minSupport);
    }
  }
}
