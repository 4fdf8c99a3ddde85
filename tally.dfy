/**
 * tally_winner of src/tally/tally.c: build a selection tree over the first n
 * counts, report the winner through an optional out-parameter, free the tree.
 * The tree's own methods are proved (SelectionTree.SelectionTree.Winner) to
 * report FirstMaxIndex of the leaves, so the composition is that function.
 */
module Tally {
  import opened Common
  import opened SelectionTree

  /** The return code and, when the caller passed an out-pointer, what was written there. */
  datatype TallyResult = TallyResult(rc: int, outIndex: Option<nat>)

  /**
   * `hasOut` says whether `out_index` is non-NULL. The caller's array holds at
   * least n counts. The build's allocation failure (-1) is not modelled.
   */
  function TallyWinner(counts: seq<uint64>, n: nat, hasOut: bool): (r: TallyResult)
    requires n <= |counts|
    ensures r.rc == 0
    ensures r.outIndex.Some? <==> hasOut
    ensures r.outIndex.Some? && n == 0 ==> r.outIndex.value == 0
    ensures r.outIndex.Some? && n > 0 ==> IsFirstMax(counts[..n], r.outIndex.value)
  {
    TallyResult(0, if hasOut then Some(FirstMaxIndex(counts[..n])) else None)
  }

  /**
   * The body of tally_winner as the source runs it: selection_tree_build over
   * the first n counts, then selection_tree_winner. Its result is the one
   * TallyWinner gives.
   */
  method TallyWinnerViaTree(counts: seq<uint64>, n: nat, hasOut: bool) returns (r: TallyResult)
    requires n <= |counts|
    ensures r == TallyWinner(counts, n, hasOut)
  {
    var tree := new SelectionTree.Build(counts, n);
    var w := tree.Winner();
    r := TallyResult(0, if hasOut then Some(w) else None);
  }

  /** The example of the tally: counts [3, 5, 5, 2] elect candidate 1, the first of the tied pair. */
  lemma TieGoesToLowerIndex()
    ensures TallyWinner([3, 5, 5, 2], 4, true) == TallyResult(0, Some(1))
  {
    var s: seq<uint64> := [3, 5, 5, 2];
    assert s[..4] == s;
    assert IsFirstMax(s, 1);
    FirstMaxUnique(s, 1);
  }

  /** When all counts are equal (all zero included) candidate 0 wins. */
  lemma AllEqualElectsFirst(counts: seq<uint64>, n: nat)
    requires 0 < n <= |counts|
    requires forall i :: 0 <= i < n ==> counts[i] == counts[0]
    ensures TallyWinner(counts, n, true).outIndex == Some(0)
  {
    assert IsFirstMax(counts[..n], 0);
    FirstMaxUnique(counts[..n], 0);
  }
}
