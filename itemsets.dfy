/**
 The vocabulary shared by every part of the miner: items, itemsets,
 transactions, and the support of an itemset in a transaction database.
 */
module Itemsets {

  /** An item is one whitespace-free token of a transaction line. */
  type Item = string

  /** An itemset is compared by membership, never by the order of its items. */
  type Itemset = set<Item>

  /** A transaction is the token list of one line of the dataset. */
  type Transaction = seq<Item>

  /** The transaction holds every item of `I` (the per-transaction subset test). */
  predicate Contains(t: Transaction, I: Itemset)
  {
    forall x :: x in I ==> x in t
  }

  /**
   The support count of `I`: the number of transactions of `db` that contain
   all of its items. Defined over prefixes so that a left-to-right counting
   loop can be proved against it.
   */
  function Support(I: Itemset, db: seq<Transaction>): (n: nat)
    ensures n <= |db|
    decreases |db|
  {
    if db == [] then 0
    else Support(I, db[..|db| - 1]) + (if Contains(db[|db| - 1], I) then 1 else 0)
  }

  /** A subset is never larger than its superset. */
  lemma SubsetCardinality(A: Itemset, B: Itemset)
    requires A <= B
    ensures |A| <= |B|
  {
    assert B == A + (B - A);
  }

  /** A proper subset has fewer items. */
  lemma ProperSubsetCardinality(A: Itemset, B: Itemset)
    requires A < B
    ensures |A| < |B|
  {
    assert B == A + (B - A);
    assert B - A != {};
  }

  /** The indices of the transactions that contain `I`. */
  function Holders(I: Itemset, db: seq<Transaction>): set<nat>
  {
    set i: nat | i < |db| && Contains(db[i], I)
  }

  /** Support is the size of the set of transactions holding the itemset. */
  lemma {:induction false} SupportIsHolderCount(I: Itemset, db: seq<Transaction>)
    ensures Support(I, db) == |Holders(I, db)|
    decreases |db|
  {
    if db != [] {
      var n := |db| - 1;
      var prefix := db[..n];
      SupportIsHolderCount(I, prefix);
      if Contains(db[n], I) {
        assert Holders(I, db) == Holders(I, prefix) + {n};
        assert n !in Holders(I, prefix);
      } else {
        assert Holders(I, db) == Holders(I, prefix);
      }
    }
  }

  /** Appending one transaction adds one to the count exactly when it holds `I`. */
  lemma SupportSnoc(I: Itemset, db: seq<Transaction>, t: Transaction)
    ensures Support(I, db + [t]) == Support(I, db) + (if Contains(t, I) then 1 else 0)
  {
  }

  /** Monotonicity: a larger itemset is held by no more transactions. */
  lemma {:induction false} SupportAntitone(A: Itemset, B: Itemset, db: seq<Transaction>)
    requires A <= B
    ensures Support(B, db) <= Support(A, db)
    decreases |db|
  {
    if db != [] {
      SupportAntitone(A, B, db[..|db| - 1]);
    }
  }

  /** Every token that occurs in some transaction of `db`. */
  function Vocabulary(db: seq<Transaction>): set<Item>
  {
    set i, x | 0 <= i < |db| && x in db[i] :: x
  }

  /** An itemset that some transaction holds is made of tokens of the database. */
  lemma {:induction false} SupportedWithinVocabulary(I: Itemset, db: seq<Transaction>)
    requires Support(I, db) > 0
    ensures I <= Vocabulary(db)
    decreases |db|
  {
    var n := |db| - 1;
    if Contains(db[n], I) {
      forall x | x in I ensures x in Vocabulary(db) {
        assert x in db[n];
      }
    } else {
      SupportedWithinVocabulary(I, db[..n]);
      forall x | x in I ensures x in Vocabulary(db) {
        assert x in Vocabulary(db[..n]);
        var i :| 0 <= i < n && x in db[..n][i];
        assert x in db[i];
      }
    }
  }

  /** A frequent itemset: non-empty and held by strictly more than `minSupport` transactions. */
  predicate IsFrequent(I: Itemset, db: seq<Transaction>, minSupport: nat)
  {
    I != {} && Support(I, db) > minSupport
  }

  /** Downward closure: every non-empty subset of a frequent itemset is frequent. */
  lemma DownwardClosure(I: Itemset, J: Itemset, db: seq<Transaction>, minSupport: nat)
    requires IsFrequent(I, db, minSupport) && J <= I && J != {}
    ensures IsFrequent(J, db, minSupport)
  {
    SupportAntitone(J, I, db);
  }
}
