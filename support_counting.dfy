/**
 Support counting and threshold filtering: the candidates of one level are
 counted against every transaction and kept when their count is strictly
 greater than the minimum support.
 */
module SupportCounting {
  import opened Itemsets

  /** Counts the transactions of `db` that hold every item of `I`. */
  method CountSupport(I: Itemset, db: seq<Transaction>) returns (count: nat)
    ensures count == Support(I, db)
  {
    count := 0;
    for j := 0 to |db|
      invariant count == Support(I, db[..j])
    {
      SupportSnoc(I, db[..j], db[j]);
      assert db[..j + 1] == db[..j] + [db[j]];
      if Contains(db[j], I) {
        count := count + 1;
      }
    }
    assert db[..|db|] == db;
  }

  /** The candidates, in their input order, whose support is strictly above the threshold. */
  function FreqFilter(cands: seq<Itemset>, db: seq<Transaction>, minSupport: nat): seq<Itemset>
    decreases |cands|
  {
    if cands == [] then []
    else
      var last := cands[|cands| - 1];
      FreqFilter(cands[..|cands| - 1], db, minSupport)
        + (if Support(last, db) > minSupport then [last] else [])
  }

  /** The filter keeps exactly the candidates counted strictly above the threshold. */
  lemma {:induction false} FreqFilterMembers(cands: seq<Itemset>, db: seq<Transaction>, minSupport: nat)
    ensures forall I :: I in FreqFilter(cands, db, minSupport) <==> I in cands && Support(I, db) > minSupport
    decreases |cands|
  {
    if cands != [] {
      var n := |cands| - 1;
      FreqFilterMembers(cands[..n], db, minSupport);
      assert cands == cands[..n] + [cands[n]];
    }
  }

  /** The filter distributes over concatenation: kept candidates stay in input order. */
  lemma {:induction false} FreqFilterAppend(c1: seq<Itemset>, c2: seq<Itemset>, db: seq<Transaction>, minSupport: nat)
    ensures FreqFilter(c1 + c2, db, minSupport) == FreqFilter(c1, db, minSupport) + FreqFilter(c2, db, minSupport)
    decreases |c2|
  {
    if c2 == [] {
      assert c1 + c2 == c1;
    } else {
      var n := |c2| - 1;
      FreqFilterAppend(c1, c2[..n], db, minSupport);
      assert (c1 + c2)[..|c1 + c2| - 1] == c1 + c2[..n];
    }
  }

  /** A single candidate is kept alone exactly when its count is strictly above the threshold. */
  lemma FreqFilterSingle(I: Itemset, db: seq<Transaction>, minSupport: nat)
    ensures FreqFilter([I], db, minSupport) == if Support(I, db) > minSupport then [I] else []
  {
  }

  /**
   Counts every candidate against the database and keeps, in input order,
   those whose count is strictly greater than `minSupport`.
   */
  method FindFreqItems(cands: seq<Itemset>, db: seq<Transaction>, minSupport: nat)
    returns (filtered: seq<Itemset>)
    ensures filtered == FreqFilter(cands, db, minSupport)
    ensures forall I :: I in filtered <==> I in cands && Support(I, db) > minSupport
  {
    filtered := [];
    for j := 0 to |cands|
      invariant filtered == FreqFilter(cands[..j], db, minSupport)
    {
      var count := CountSupport(cands[j], db);
      assert cands[..j + 1][..j] == cands[..j];
      if count > minSupport {
        filtered := filtered + [cands[j]];
      }
    }
    assert cands[..|cands|] == cands;
    FreqFilterMembers(cands, db, minSupport);
  }
}
