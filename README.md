# Apriori frequent-itemset miner, modelled in Dafny

This project models the frequent-itemset engine of `Apriori.py`. The engine
works on a transaction database, where each transaction is the token list of
one line of the dataset. It runs in four steps:

- It extracts the item domain, which is every distinct token.
- It mines level by level. At level `k` it lists every `k`-item combination of
  the current domain. It counts how many transactions hold all items of each
  combination. It keeps the combinations whose count is strictly greater than
  `min_support`. It then shrinks the domain to the items of the kept
  combinations.
- A backward pass over sizes, from largest to smallest, derives the maximal
  itemsets.
- A second backward pass, on recomputed counts, derives the closed itemsets.

Modules, one file each:

- `Itemsets` (`itemsets.dfy`): items, itemsets (`set<string>`), transactions
  (`seq<string>`), and the specification function `Support`. Support is
  defined by recursion over the database. It is shown equal to the size of the
  set of transactions that hold the itemset. It is shown antitone in the
  itemset. `IsFrequent` is the strict threshold test.
- `SupportCounting` (`support_counting.dfy`): the counting loop and
  `find_freq_items`. These are specified by the order-preserving filter
  `FreqFilter`.
- `Domain` (`domain.dfy`): `combine_lines` and `find_initial_domain`.
- `Mining` (`mining.dfy`): the candidate generator, one level of the loop in
  `main`, and the whole loop. The main theorem: on exit, the accumulated set is
  exactly the set of non-empty itemsets whose support is strictly greater than
  `min_support`. The loop is sound (nothing infrequent is added) and complete
  (the shrinking domain loses no frequent itemset). Completeness holds because
  every item of a frequent `k`-itemset lies in one of its frequent
  `(k-1)`-subsets.
- `Closure` (`closure.dfy`): `superset_in_max_freq_item_set`,
  `find_max_freq_item_sets`, the count dictionary, and
  `find_closed_freq_item_sets`. Each backward pass is proved to compute exactly
  the maximal or closed members of its input set. A per-itemset step lemma
  carries the pass invariant.
- `Apriori` (`apriori.dfy`): lines 28-55 of `main` as one method. Its results
  meet the textbook definitions over all itemsets:
  - maximal: frequent, and no frequent proper superset exists;
  - closed: frequent, and no proper superset has the same support.

The threshold test is strict (`count > min_support`), as at Apriori.py:131.
An inclusive `>=` test is a different rule, and it is not modelled.

Python iterates over sets and dictionaries in an unspecified order. The model
turns each such loop into a loop that removes an arbitrary element (`:|`) on
each step. Every result is therefore proved for every iteration order.

## Model

| member | source | states |
|---|---|---|
| `Itemsets.Support` | Apriori.py:127-130 | The count of containing transactions never exceeds the number of transactions. |
| `Itemsets.SupportIsHolderCount` | Apriori.py:127-130 | The recursive count equals the number of transactions that hold every item of the itemset. |
| `Itemsets.SupportAntitone` | Apriori.py:127-130 | Monotonicity: if A's items are a subset of B's, A's count is never smaller than B's. |
| `Itemsets.SupportedWithinVocabulary` | Apriori.py:150-158 | An itemset held by at least one transaction consists only of tokens of the database. |
| `Itemsets.DownwardClosure` | Apriori.py:127-132 | Every non-empty subset of an itemset that passes the strict threshold also passes it. |
| `SupportCounting.CountSupport` | Apriori.py:127-130 | The counting loop returns exactly the support of the candidate. |
| `SupportCounting.FindFreqItems` | Apriori.py:116-134 | The result equals the in-order filter of the candidates. It holds a candidate iff the candidate's count is strictly greater than `min_support`. |
| `SupportCounting.FreqFilterMembers` | Apriori.py:125-134 | The filter keeps exactly the candidates counted strictly above the threshold, and adds nothing else. |
| `SupportCounting.FreqFilterAppend` | Apriori.py:125-134 | The filter distributes over concatenation, so kept candidates stay in input order. |
| `SupportCounting.FreqFilterSingle` | Apriori.py:131-132 | A single candidate is kept iff its count is strictly greater than `min_support`. |
| `Domain.FlattenMembers` | Apriori.py:137-147 | A token is in the combined list iff it occurs in some line. |
| `Domain.CombineLines` | Apriori.py:137-147 | The loop's result is the concatenation of all lines' tokens, line after line. `Domain.FlattenMembers` gives its members. |
| `Domain.FindInitialDomain` | Apriori.py:150-158 | The domain is exactly the set of tokens occurring in any line. |
| `Mining.Combinations` | Apriori.py:33 | Lists each `k`-item subset of the domain exactly once, and nothing else. |
| `Mining.FrequentWithinDomain` | Apriori.py:42-46 | If every frequent `(k-1)`-itemset lies within the rebuilt domain, then so does every frequent itemset of at least `k-1` items. |
| `Mining.LevelComplete` | Apriori.py:33-36 | At level `k`, every frequent `k`-itemset is among the candidates built from the current domain. |
| `Mining.MineLevel` | Apriori.py:33-46 | A level accepts exactly the `k`-subsets of the domain with count above the threshold. The rebuilt domain is exactly the union of their items, and is a subset of the previous domain. |
| `Mining.MineFrequent` | Apriori.py:28-49 | The loop terminates. `total_freq_items` is exactly the set of non-empty itemsets with count above the threshold. Each has size between 1 and the final `freq_size - 1`. The final `freq_size` is at most the original domain size plus one. |
| `Closure.SupersetInMaxFreqItemSet` | Apriori.py:77-83 | Returns true iff some member of the maximal set holds every item of `tup`. |
| `Closure.MaxPassAdds` | Apriori.py:67-70 | An itemset of the current size that no accepted maximal itemset contains is maximal in the frequent set. |
| `Closure.MaxPassSkips` | Apriori.py:67-70 | An itemset of the current size that an accepted maximal itemset contains is not maximal. |
| `Closure.MaxPassStep` | Apriori.py:63-71 | Visiting one itemset keeps the pass invariant: the visited maximal itemsets are exactly the accepted ones, and every visited itemset lies within an accepted one. |
| `Closure.FindMaxFreqItemSets` | Apriori.py:58-71 | The result is exactly the members of the frequent set with no proper superset in it. No member is contained in a different member. Every frequent itemset left out is contained in some member. |
| `Closure.CountAll` | Apriori.py:87-91 | The in-place count dictionary has exactly the frequent itemsets as keys, each mapped to its support. |
| `Closure.SupersetWithSameCount` | Apriori.py:101-106 | The flag is set iff some already-closed itemset contains `k` and has the same count. |
| `Closure.ClosedPassAdds` | Apriori.py:100-109 | An itemset of the current size with no already-closed superset of equal count is closed in the frequent set. |
| `Closure.ClosedPassSkips` | Apriori.py:100-109 | An itemset of the current size with an already-closed superset of equal count is not closed. |
| `Closure.ClosedPassStep` | Apriori.py:96-110 | Visiting one itemset keeps the pass invariant: the visited closed itemsets are exactly the accepted ones, and each visited itemset lies within an accepted one of equal support. |
| `Closure.FindClosedFreqItemSets` | Apriori.py:86-110 | The result is exactly the members with no proper superset of equal support in the set. Every itemset of the largest size is added. Every itemset lies within a closed one of equal support. |
| `Apriori.MaximalAgrees` | Apriori.py:53 | Over the set of all frequent itemsets, being maximal within the set means having no frequent proper superset at all. |
| `Apriori.ClosedAgrees` | Apriori.py:55 | Over the set of all frequent itemsets, being closed within the set means having no proper superset of equal support at all. |
| `Apriori.MaximalIsClosed` | Apriori.py:53-55 | Every maximal frequent itemset is closed. |
| `Apriori.Mine` | Apriori.py:28-55 | The mined, maximal and closed sets meet their definitions over all itemsets, and maximal ⊆ closed ⊆ frequent. |

## Left out

- Reading `./Dataset1.dat` and splitting lines on whitespace (Apriori.py:7-14, and the `split` in `combine_lines`, Apriori.py:145): this is file I/O and string tokenising. The database is taken already tokenised, as `seq<seq<string>>`. `combine_lines` and `find_initial_domain` take the same token lists.
- `min_support = int(total_num*float(sys.argv[1]))` (Apriori.py:20): command-line parsing and float arithmetic. `minSupport` is a `nat` parameter.
- All printing (Apriori.py:25-26, 47, 51, 72-74, 111-112, 160-168): output only.
- The enumeration order of `itertools.combinations` (Apriori.py:33): `Mining.Combinations` lists the `k`-subsets in an unspecified order. Itemsets are sets rather than tuples. This loses nothing: every itemset of one size comes from a single `combinations` call, so no two accumulated tuples differ only in item order.
- Association rules and their metrics (confidence, lift, all-confidence, cosine): `Apriori.py` does not compute them, so nothing of the kind is modelled.
- An error for an empty database: the code raises none. The model does not either. With no transactions the domain is empty and all three results are empty, as the ensures of `Apriori.Mine` imply.
