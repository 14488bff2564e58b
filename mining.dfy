/**
 The level-wise miner: at level k every k-item combination of the current
 domain is counted, the frequent ones are accumulated, and the domain shrinks
 to the items of the itemsets accepted at that level.
 */
module Mining {
  import opened Itemsets
  import SupportCounting
  import Domain

  /**
   Lists every `k`-item subset of `domain`, each exactly once, in an
   unspecified order.
   */
  method Combinations(domain: set<Item>, k: nat) returns (combs: seq<Itemset>)
    ensures forall s :: s in combs <==> s <= domain && |s| == k
    ensures forall i, j :: 0 <= i < j < |combs| ==> combs[i] != combs[j]
  {
    var pending := set s: Itemset | s <= domain && |s| == k;
    combs := [];
    while pending != {}
      invariant forall s :: s in pending ==> s <= domain && |s| == k
      invariant forall s :: s in combs <==> s <= domain && |s| == k && s !in pending
      invariant forall i, j :: 0 <= i < j < |combs| ==> combs[i] != combs[j]
      decreases pending
    {
      var s :| s in pending;
      combs := combs + [s];
      pending := pending - {s};
    }
  }

  /** Any element of `I` lies in some `j`-item subset of `I`, for every `j` from 1 to `|I|`. */
  lemma {:induction false} SubsetThrough(I: Itemset, x: Item, j: nat)
    requires x in I && 1 <= j <= |I|
    ensures exists J :: J <= I && x in J && |J| == j
    decreases |I| - j
  {
    if j == |I| {
      assert I <= I;
    } else {
      assert I - {x} != {} by {
        assert |I - {x}| == |I| - 1;
      }
      var y :| y in I - {x};
      SubsetThrough(I - {y}, x, j);
      var J :| J <= I - {y} && x in J && |J| == j;
      assert J <= I;
    }
  }

  /**
   Once every frequent `(k-1)`-itemset lies within `domain`, so does every
   frequent itemset of at least `k-1` items: each of its items sits in one of
   its frequent `(k-1)`-subsets.
   */
  lemma FrequentWithinDomain(I: Itemset, k: nat, domain: set<Item>, db: seq<Transaction>, minSupport: nat)
    requires k >= 2
    requires forall J :: IsFrequent(J, db, minSupport) && |J| == k - 1 ==> J <= domain
    requires IsFrequent(I, db, minSupport) && |I| >= k - 1
    ensures I <= domain
  {
    forall x | x in I ensures x in domain {
      SubsetThrough(I, x, k - 1);
      var J :| J <= I && x in J && |J| == k - 1;
      DownwardClosure(I, J, db, minSupport);
    }
  }

  /**
   One level of the miner: counts every `k`-item combination of `domain`,
   keeps the frequent ones and rebuilds the domain from their items.
   */
  method MineLevel(domain: set<Item>, k: nat, db: seq<Transaction>, minSupport: nat)
    returns (freqItems: seq<Itemset>, newDomain: set<Item>)
    ensures forall I :: I in freqItems <==> I <= domain && |I| == k && Support(I, db) > minSupport
    ensures forall x :: x in newDomain <==> exists I :: I in freqItems && x in I
    ensures newDomain <= domain
  {
    var combs := Combinations(domain, k);
    freqItems := SupportCounting.FindFreqItems(combs, db, minSupport);
    newDomain := {};
    for j := 0 to |freqItems|
      invariant forall x :: x in newDomain <==> exists i :: 0 <= i < j && x in freqItems[i]
    {
      newDomain := newDomain + freqItems[j];
    }
    forall x | x in newDomain ensures exists I :: I in freqItems && x in I {
      var i :| 0 <= i < |freqItems| && x in freqItems[i];
      assert freqItems[i] in freqItems;
    }
  }

  /**
   The mining loop: levels 1, 2, ... run while the level does not exceed the
   size of the current domain. On exit the accumulated set holds exactly the
   frequent itemsets, and each is smaller than the final level.
   */
  method MineFrequent(db: seq<Transaction>, minSupport: nat)
    returns (total: set<Itemset>, freqSize: nat)
    ensures forall I :: I in total <==> IsFrequent(I, db, minSupport)
    ensures forall I :: I in total ==> 1 <= |I| < freqSize
    ensures 1 <= freqSize <= |Vocabulary(db)| + 1
  {
    var domain := Domain.FindInitialDomain(db);
    ghost var initial := domain;
    freqSize := 1;
    total := {};
    while freqSize <= |domain|
      invariant 1 <= freqSize <= |initial| + 1
      invariant domain <= initial
      invariant forall I :: I in total <==> IsFrequent(I, db, minSupport) && |I| < freqSize
      invariant freqSize == 1 ==> domain == initial
      invariant freqSize > 1 ==> forall x :: x in domain <==> exists J :: J in total && |J| == freqSize - 1 && x in J
      decreases |initial| + 1 - freqSize
    {
      SubsetCardinality(domain, initial);
      LevelComplete(domain, initial, freqSize, total, db, minSupport);
      var freqItems, newDomain := MineLevel(domain, freqSize, db, minSupport);
      ghost var before := total;
      for j := 0 to |freqItems|
        invariant total == before + set i | 0 <= i < j :: freqItems[i]
      {
        total := total + {freqItems[j]};
      }
      assert forall I :: I in total <==> I in before || I in freqItems;
      domain := newDomain;
      freqSize := freqSize + 1;
    }
    forall I | IsFrequent(I, db, minSupport) ensures |I| < freqSize {
      if |I| >= freqSize {
        if freqSize == 1 {
          SupportedWithinVocabulary(I, db);
          SubsetCardinality(I, domain);
        } else {
          FrequentWithinDomain(I, freqSize, domain, db, minSupport);
          SubsetCardinality(I, domain);
        }
      }
    }
  }

  /** At level `k` every frequent `k`-itemset is a `k`-item subset of the current domain. */
  lemma LevelComplete(domain: set<Item>, initial: set<Item>, k: nat, total: set<Itemset>,
                      db: seq<Transaction>, minSupport: nat)
    requires k >= 1
    requires initial == Vocabulary(db)
    requires forall I :: I in total <==> IsFrequent(I, db, minSupport) && |I| < k
    requires k == 1 ==> domain == initial
    requires k > 1 ==> forall x :: x in domain <==> exists J :: J in total && |J| == k - 1 && x in J
    ensures forall I :: IsFrequent(I, db, minSupport) && |I| == k ==> I <= domain
  {
    forall I | IsFrequent(I, db, minSupport) && |I| == k ensures I <= domain {
      if k == 1 {
        SupportedWithinVocabulary(I, db);
      } else {
        forall J | IsFrequent(J, db, minSupport) && |J| == k - 1 ensures J <= domain {
          assert J in total;
        }
        FrequentWithinDomain(I, k, domain, db, minSupport);
      }
    }
  }
}
