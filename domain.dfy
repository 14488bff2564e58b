/**
 Domain extraction: the set of distinct tokens over all transaction lines,
 the item domain of the first mining level.
 */
module Domain {
  import opened Itemsets

  /** All tokens of all lines, line after line. */
  function Flatten(lines: seq<Transaction>): seq<Item>
    decreases |lines|
  {
    if lines == [] then [] else Flatten(lines[..|lines| - 1]) + lines[|lines| - 1]
  }

  /** A token occurs in the flattened list exactly when it occurs in some line. */
  lemma {:induction false} FlattenMembers(lines: seq<Transaction>)
    ensures forall x :: x in Flatten(lines) <==> exists i :: 0 <= i < |lines| && x in lines[i]
    decreases |lines|
  {
    if lines != [] {
      var n := |lines| - 1;
      FlattenMembers(lines[..n]);
      forall x ensures x in Flatten(lines) <==> exists i :: 0 <= i < |lines| && x in lines[i] {
        if x in Flatten(lines[..n]) {
          var i :| 0 <= i < n && x in lines[..n][i];
          assert x in lines[i];
        }
        if x !in lines[n] && exists i :: 0 <= i < |lines| && x in lines[i] {
          var i :| 0 <= i < |lines| && x in lines[i];
          assert x in lines[..n][i];
        }
      }
    }
  }

  /** Concatenates the token lists of all lines into one list. */
  method CombineLines(lines: seq<Transaction>) returns (tokens: seq<Item>)
    ensures tokens == Flatten(lines)
  {
    tokens := [];
    for j := 0 to |lines|
      invariant tokens == Flatten(lines[..j])
    {
      assert lines[..j + 1][..j] == lines[..j];
      tokens := tokens + lines[j];
    }
    assert lines[..|lines|] == lines;
  }

  /** The set of distinct tokens occurring in any line. */
  method FindInitialDomain(lines: seq<Transaction>) returns (domain: set<Item>)
    ensures domain == Vocabulary(lines)
    ensures forall x :: x in domain <==> exists i :: 0 <= i < |lines| && x in lines[i]
  {
    var tokens := CombineLines(lines);
    domain := set x | x in tokens;
    FlattenMembers(lines);
  }
}
