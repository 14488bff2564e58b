/**
 Closure analysis of the accumulated frequent itemsets: a backward pass from
 the largest size down to 1 derives the maximal and the closed itemsets.
 */
module Closure {
  import opened Itemsets

  /** `I` belongs to `F` and no member of `F` strictly contains it. */
  predicate IsMaximalIn(I: Itemset, F: set<Itemset>)
  {
    I in F && !exists J :: J in F && I < J
  }

  /** `I` belongs to `F` and no member of `F` strictly contains it with the same support count. */
  predicate IsClosedIn(I: Itemset, F: set<Itemset>, db: seq<Transaction>)
  {
    I in F && !exists J :: J in F && I < J && Support(J, db) == Support(I, db)
  }

  /** Some itemset of `S` holds every item of `I`. */
  predicate Covered(I: Itemset, S: set<Itemset>)
  {
    exists M :: M in S && I <= M
  }

  /** Some itemset of `S` holds every item of `I` and has the same support count. */
  predicate CoveredEqually(I: Itemset, S: set<Itemset>, db: seq<Transaction>)
  {
    exists M :: M in S && I <= M && Support(M, db) == Support(I, db)
  }

  /** In a backward pass at `size`, with `rest` still to visit, `I` has been visited. */
  predicate Visited(I: Itemset, size: int, rest: set<Itemset>)
  {
    |I| > size || (|I| == size && I !in rest)
  }

  /** Maximal pass, first half: the maximal itemsets among those visited are exactly the ones kept. */
  ghost predicate MaxKept(maxSets: set<Itemset>, total: set<Itemset>, size: int, rest: set<Itemset>)
  {
    forall I :: I in maxSets <==> IsMaximalIn(I, total) && Visited(I, size, rest)
  }

  /** Maximal pass, second half: every visited itemset lies within a kept one. */
  ghost predicate MaxCovers(maxSets: set<Itemset>, total: set<Itemset>, size: int, rest: set<Itemset>)
  {
    forall I :: I in total && Visited(I, size, rest) ==> Covered(I, maxSets)
  }

  /** Closed pass, first half: the closed itemsets among those visited are exactly the ones kept. */
  ghost predicate ClosedKept(closed: set<Itemset>, total: set<Itemset>, db: seq<Transaction>, size: int, rest: set<Itemset>)
  {
    forall I :: I in closed <==> IsClosedIn(I, total, db) && Visited(I, size, rest)
  }

  /** Closed pass, second half: every visited itemset lies within a kept one of equal support. */
  ghost predicate ClosedCovers(closed: set<Itemset>, total: set<Itemset>, db: seq<Transaction>, size: int, rest: set<Itemset>)
  {
    forall I :: I in total && Visited(I, size, rest) ==> CoveredEqually(I, closed, db)
  }

  /** Tells whether some itemset of `maxSets` holds every item of `tup`. */
  method SupersetInMaxFreqItemSet(maxSets: set<Itemset>, tup: Itemset) returns (hasSuperset: bool)
    ensures hasSuperset <==> Covered(tup, maxSets)
  {
    hasSuperset := false;
    var rest := maxSets;
    while rest != {}
      invariant rest <= maxSets
      invariant hasSuperset <==> Covered(tup, maxSets - rest)
      decreases rest
    {
      var m :| m in rest;
      if forall x :: x in tup ==> x in m {
        hasSuperset := true;
      }
      assert maxSets - (rest - {m}) == (maxSets - rest) + {m};
      rest := rest - {m};
    }
  }

  /** An unvisited itemset that no kept itemset contains is maximal. */
  lemma MaxPassAdds(maxSets: set<Itemset>, total: set<Itemset>, size: int, rest: set<Itemset>, tup: Itemset)
    requires MaxCovers(maxSets, total, size, rest)
    requires tup in rest && |tup| == size && !Covered(tup, maxSets)
    ensures tup in total ==> IsMaximalIn(tup, total)
  {
    forall J | J in total && tup < J ensures false {
      ProperSubsetCardinality(tup, J);
      assert Visited(J, size, rest);
    }
  }

  /** An unvisited itemset that a kept itemset contains is not maximal. */
  lemma MaxPassSkips(maxSets: set<Itemset>, total: set<Itemset>, size: int, rest: set<Itemset>, tup: Itemset)
    requires MaxKept(maxSets, total, size, rest)
    requires tup in rest && |tup| == size && Covered(tup, maxSets)
    ensures !IsMaximalIn(tup, total)
  {
    assert !Visited(tup, size, rest);
    assert tup !in maxSets;
    var M :| M in maxSets && tup <= M;
    assert M != tup;
  }

  /** Visiting `tup` in the maximal pass keeps both halves of the pass invariant. */
  lemma MaxPassStep(maxSets: set<Itemset>, total: set<Itemset>, size: int, rest: set<Itemset>, tup: Itemset)
    requires MaxKept(maxSets, total, size, rest) && MaxCovers(maxSets, total, size, rest)
    requires rest <= total && tup in rest
    ensures var next := if |tup| == size && !Covered(tup, maxSets) then maxSets + {tup} else maxSets;
      MaxKept(next, total, size, rest - {tup}) && MaxCovers(next, total, size, rest - {tup})
  {
    var added := |tup| == size && !Covered(tup, maxSets);
    var next := if added then maxSets + {tup} else maxSets;
    if added {
      MaxPassAdds(maxSets, total, size, rest, tup);
    } else if |tup| == size {
      MaxPassSkips(maxSets, total, size, rest, tup);
    }
    forall I ensures I in next <==> IsMaximalIn(I, total) && Visited(I, size, rest - {tup}) {
      if I != tup || |tup| != size {
        assert Visited(I, size, rest - {tup}) <==> Visited(I, size, rest);
      }
    }
    forall I | I in total && Visited(I, size, rest - {tup}) ensures Covered(I, next) {
      if I == tup && added {
        assert tup in next;
      } else {
        if I != tup || |tup| != size {
          assert Visited(I, size, rest);
        }
        var M :| M in maxSets && I <= M;
        assert M in next;
      }
    }
  }

  /** An unvisited itemset that no kept itemset contains with equal support is closed. */
  lemma ClosedPassAdds(closed: set<Itemset>, total: set<Itemset>, db: seq<Transaction>, size: int,
                       rest: set<Itemset>, k: Itemset)
    requires ClosedCovers(closed, total, db, size, rest)
    requires k in rest && |k| == size && !CoveredEqually(k, closed, db)
    ensures k in total ==> IsClosedIn(k, total, db)
  {
    forall J | J in total && k < J && Support(J, db) == Support(k, db) ensures false {
      ProperSubsetCardinality(k, J);
      assert Visited(J, size, rest);
    }
  }

  /** An unvisited itemset that a kept itemset contains with equal support is not closed. */
  lemma ClosedPassSkips(closed: set<Itemset>, total: set<Itemset>, db: seq<Transaction>, size: int,
                        rest: set<Itemset>, k: Itemset)
    requires ClosedKept(closed, total, db, size, rest)
    requires k in rest && |k| == size && CoveredEqually(k, closed, db)
    ensures !IsClosedIn(k, total, db)
  {
    assert !Visited(k, size, rest);
    assert k !in closed;
    var M :| M in closed && k <= M && Support(M, db) == Support(k, db);
    assert M != k;
  }

  /** Visiting `k` in the closed pass keeps both halves of the pass invariant. */
  lemma ClosedPassStep(closed: set<Itemset>, total: set<Itemset>, db: seq<Transaction>, size: int,
                       rest: set<Itemset>, k: Itemset)
    requires ClosedKept(closed, total, db, size, rest) && ClosedCovers(closed, total, db, size, rest)
    requires rest <= total && k in rest
    ensures var next := if |k| == size && !CoveredEqually(k, closed, db) then closed + {k} else closed;
      ClosedKept(next, total, db, size, rest - {k}) && ClosedCovers(next, total, db, size, rest - {k})
  {
    var added := |k| == size && !CoveredEqually(k, closed, db);
    var next := if added then closed + {k} else closed;
    if added {
      ClosedPassAdds(closed, total, db, size, rest, k);
    } else if |k| == size {
      ClosedPassSkips(closed, total, db, size, rest, k);
    }
    forall I ensures I in next <==> IsClosedIn(I, total, db) && Visited(I, size, rest - {k}) {
      if I != k || |k| != size {
        assert Visited(I, size, rest - {k}) <==> Visited(I, size, rest);
      }
    }
    forall I | I in total && Visited(I, size, rest - {k}) ensures CoveredEqually(I, next, db) {
      if I == k && added {
        assert k in next;
      } else {
        if I != k || |k| != size {
          assert Visited(I, size, rest);
        }
        var M :| M in closed && I <= M && Support(M, db) == Support(I, db);
        assert M in next;
      }
    }
  }

  /**
   The maximal frequent itemsets. Sizes run from `freqSize - 1` down to 1;
   an itemset of the current size is added unless an itemset added earlier
   contains it.
   */
  method FindMaxFreqItemSets(freqSize: nat, total: set<Itemset>) returns (maxSets: set<Itemset>)
    requires forall I :: I in total ==> 1 <= |I| < freqSize
    ensures forall I :: I in maxSets <==> IsMaximalIn(I, total)
    ensures forall I, J :: I in maxSets && J in maxSets && I <= J ==> I == J
    ensures forall I :: I in total ==> Covered(I, maxSets)
  {
    var size: int := freqSize - 1;
    maxSets := {};
    while size > 0
      invariant MaxKept(maxSets, total, size, total) && MaxCovers(maxSets, total, size, total)
      decreases size
    {
      var rest := total;
      while rest != {}
        invariant rest <= total
        invariant MaxKept(maxSets, total, size, rest) && MaxCovers(maxSets, total, size, rest)
        decreases rest
      {
        var tup :| tup in rest;
        MaxPassStep(maxSets, total, size, rest, tup);
        if |tup| == size {
          var hasSuperset := SupersetInMaxFreqItemSet(maxSets, tup);
          if !hasSuperset {
            maxSets := maxSets + {tup};
          }
        }
        rest := rest - {tup};
      }
      assert forall I :: I in total ==> (Visited(I, size, {}) <==> Visited(I, size - 1, total));
      size := size - 1;
    }
    assert forall I :: I in total ==> Visited(I, size, total);
  }

  /**
   The support count of every accumulated itemset: every count starts at zero
   and is incremented in place once per transaction that holds the itemset.
   */
  method CountAll(total: set<Itemset>, db: seq<Transaction>) returns (counts: map<Itemset, nat>)
    ensures counts.Keys == total
    ensures forall I :: I in total ==> counts[I] == Support(I, db)
  {
    counts := map I | I in total :: 0;
    var rest := total;
    while rest != {}
      invariant rest <= total
      invariant counts.Keys == total
      invariant forall I :: I in total - rest ==> counts[I] == Support(I, db)
      invariant forall I :: I in rest ==> counts[I] == 0
      decreases rest
    {
      var k :| k in rest;
      ghost var before := counts;
      for j := 0 to |db|
        invariant counts.Keys == total
        invariant counts[k] == Support(k, db[..j])
        invariant forall I :: I in total && I != k ==> counts[I] == before[I]
      {
        SupportSnoc(k, db[..j], db[j]);
        assert db[..j + 1] == db[..j] + [db[j]];
        if Contains(db[j], k) {
          counts := counts[k := counts[k] + 1];
        }
      }
      assert db[..|db|] == db;
      rest := rest - {k};
    }
  }

  /** Tells whether some itemset of `closed` holds every item of `k` with the same count. */
  method SupersetWithSameCount(closed: set<Itemset>, k: Itemset, counts: map<Itemset, nat>)
    returns (hasSuperset: bool)
    requires k in counts && closed <= counts.Keys
    ensures hasSuperset <==> exists m :: m in closed && k <= m && counts[m] == counts[k]
  {
    hasSuperset := false;
    var others := closed;
    while others != {}
      invariant others <= closed
      invariant hasSuperset <==> exists m :: m in closed - others && k <= m && counts[m] == counts[k]
      decreases others
    {
      var m :| m in others;
      if (forall x :: x in k ==> x in m) && counts[k] == counts[m] {
        hasSuperset := true;
      }
      assert closed - (others - {m}) == (closed - others) + {m};
      others := others - {m};
    }
  }

  /**
   The closed frequent itemsets. Sizes run from `freqSize - 1` down to 1; an
   itemset of the current size is added unless an itemset added earlier
   contains it and has the same support count.
   */
  method FindClosedFreqItemSets(freqSize: nat, total: set<Itemset>, db: seq<Transaction>)
    returns (closed: set<Itemset>)
    requires forall I :: I in total ==> 1 <= |I| < freqSize
    ensures forall I :: I in closed <==> IsClosedIn(I, total, db)
    ensures forall I :: I in total && |I| == freqSize - 1 ==> I in closed
    ensures forall I :: I in total ==> CoveredEqually(I, closed, db)
  {
    var counts := CountAll(total, db);
    var size: int := freqSize - 1;
    closed := {};
    while size > 0
      invariant closed <= total
      invariant ClosedKept(closed, total, db, size, total) && ClosedCovers(closed, total, db, size, total)
      decreases size
    {
      var rest := total;
      while rest != {}
        invariant rest <= total && closed <= total
        invariant ClosedKept(closed, total, db, size, rest) && ClosedCovers(closed, total, db, size, rest)
        decreases rest
      {
        var k :| k in rest;
        ClosedPassStep(closed, total, db, size, rest, k);
        if |k| == size {
          var hasSuperset := SupersetWithSameCount(closed, k, counts);
          assert hasSuperset <==> CoveredEqually(k, closed, db);
          if !hasSuperset {
            closed := closed + {k};
          }
        }
        rest := rest - {k};
      }
      assert forall I :: I in total ==> (Visited(I, size, {}) <==> Visited(I, size - 1, total));
      size := size - 1;
    }
    assert forall I :: I in total ==> Visited(I, size, total);
    forall I | I in total && |I| == freqSize - 1 ensures I in closed {
      forall J | J in total && I < J ensures false {
        ProperSubsetCardinality(I, J);
      }
    }
  }
}
