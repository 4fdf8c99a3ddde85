/**
 * The tournament (selection) tree of src/core/selection_tree.c: an implicit
 * binary tree in an array of 2 * base cells, where base is the least power of
 * two at or above the number of leaves. Leaf i sits at cell base + i, the
 * children of cell j are cells 2j and 2j + 1, and every internal cell holds the
 * larger of its two children, so cell 1 holds the largest leaf. Cell 0 is unused.
 */
module SelectionTree {
  import opened Common

  function Max(a: uint64, b: uint64): uint64
  {
    if a >= b then a else b
  }

  /** Every internal cell 1 <= j < base holds the larger of its two children. */
  ghost predicate HeapOrdered(t: seq<uint64>, base: nat)
    requires |t| == 2 * base
  {
    forall j :: 1 <= j < base ==> t[j] == Max(t[2 * j], t[2 * j + 1])
  }

  /** i is the first index of a largest element of s. */
  ghost predicate IsFirstMax(s: seq<uint64>, i: nat)
  {
    && i < |s|
    && (forall j :: 0 <= j < |s| ==> s[j] <= s[i])
    && (forall j :: 0 <= j < i ==> s[j] < s[i])
  }

  /**
   * The index the tree reports as winner: the first largest leaf, and 0 when
   * there are no leaves.
   */
  function FirstMaxIndex(s: seq<uint64>): (i: nat)
    ensures |s| == 0 ==> i == 0
    ensures |s| > 0 ==> IsFirstMax(s, i)
  {
    if |s| <= 1 then 0
    else
      var w := FirstMaxIndex(s[..|s| - 1]);
      if s[|s| - 1] > s[w] then |s| - 1 else w
  }

  /** There is only one first maximum. */
  lemma FirstMaxUnique(s: seq<uint64>, i: nat)
    requires IsFirstMax(s, i)
    ensures i == FirstMaxIndex(s)
  {
    assert IsFirstMax(s, FirstMaxIndex(s));
  }

  /** No cell of a heap-ordered tree exceeds the root. */
  lemma {:induction false} RootDominates(t: seq<uint64>, base: nat, j: nat)
    requires |t| == 2 * base && HeapOrdered(t, base)
    requires 1 <= j < 2 * base
    ensures t[j] <= t[1]
  {
    if j > 1 {
      var p := j / 2;
      assert 1 <= p < base;
      assert t[p] == Max(t[2 * p], t[2 * p + 1]);
      RootDominates(t, base, p);
    }
  }

  /**
   * The leaf whose value cell j carries, found by descending into the larger
   * child: every cell holds the value of some leaf below it (j itself when j
   * is a leaf).
   */
  ghost function LeafOf(t: seq<uint64>, base: nat, j: nat): (l: nat)
    requires |t| == 2 * base && HeapOrdered(t, base)
    requires 1 <= j < 2 * base
    ensures base <= l < 2 * base && t[l] == t[j]
    ensures l == j || IsAncestor(j, l)
    decreases 2 * base - j
  {
    if j >= base then j
    else
      var c := if t[2 * j] >= t[2 * j + 1] then 2 * j else 2 * j + 1;
      var l := LeafOf(t, base, c);
      AncestorOfParent(j, c, l);
      l
  }


  /**
   * next_pow2: the least power of two at or above n (1 for n = 0). The source
   * repeats the doubling loop of clamp_capacity here, so the model does too.
   */
  method NextPow2(n: nat) returns (p: nat)
    ensures IsLeastPow2AtLeast(p, n)
  {
    p := 1;
    while p < n
      invariant IsPow2(p) && (p == 1 || p / 2 < n)
      decreases n - p
    {
      DoublePow2(p);
      p := p * 2;
    }
    LeastPow2Step(p, n);
  }

  class SelectionTree {
    var leafCount: nat
    var treeSize: nat
    var tree: array<uint64>

    /** The leaves as the caller sees them: cells base .. base + leafCount. */
    ghost function Leaves(): seq<uint64>
      reads this, tree
      requires Valid()
    {
      tree[treeSize / 2 .. treeSize / 2 + leafCount]
    }

    /**
     * The shape build leaves behind and update keeps: base = treeSize / 2 is
     * the least power of two at or above leafCount, the padding leaves past
     * leafCount are 0, and the internal cells are heap ordered.
     */
    ghost predicate Valid()
      reads this, tree
    {
      && tree.Length == treeSize
      && treeSize == 2 * (treeSize / 2)
      && IsLeastPow2AtLeast(treeSize / 2, leafCount)
      && (forall i :: treeSize / 2 + leafCount <= i < treeSize ==> tree[i] == 0)
      && HeapOrdered(tree[..], treeSize / 2)
    }

    /**
     * The allocation and first loop of selection_tree_build: a zeroed array
     * of 2 * base cells with leaf i copied into cell base + i.
     */
    static method PlaceLeaves(leaves: seq<uint64>, n: nat, base: nat) returns (a: array<uint64>)
      requires n <= |leaves| && n <= base
      ensures fresh(a) && a.Length == 2 * base
      ensures forall k :: base <= k < 2 * base ==> a[k] == if k < base + n then leaves[k - base] else 0
    {
      a := new uint64[base * 2](_ => 0);
      for i := 0 to n
        invariant forall k :: 0 <= k < i ==> a[base + k] == leaves[k]
        invariant forall k :: base + i <= k < 2 * base ==> a[k] == 0
      {
        a[base + i] := leaves[i];
      }
    }

    /**
     * The second loop of selection_tree_build: fill internal cells base - 1
     * down to 1 with the larger child, leaving the leaf cells alone.
     */
    static method FillInternal(a: array<uint64>, base: nat)
      requires a.Length == 2 * base && base > 0
      modifies a
      ensures forall k :: base <= k < 2 * base ==> a[k] == old(a[k])
      ensures HeapOrdered(a[..], base)
    {
      var i := base - 1;
      while i > 0
        invariant 0 <= i < base
        invariant forall k :: base <= k < 2 * base ==> a[k] == old(a[k])
        invariant forall j :: i < j < base ==> a[j] == Max(a[2 * j], a[2 * j + 1])
        decreases i
      {
        var left := a[2 * i];
        var right := a[2 * i + 1];
        a[i] := if left >= right then left else right;
        i := i - 1;
      }
    }

    /**
     * selection_tree_build: copy the n leaves behind the internal cells, pad
     * the rest with 0, and fill the internal cells bottom-up with the larger
     * child. The allocation failure path is not modelled.
     */
    constructor Build(leaves: seq<uint64>, n: nat)
      requires n <= |leaves|
      ensures Valid() && fresh(tree)
      ensures leafCount == n && IsLeastPow2AtLeast(treeSize / 2, n)
      ensures Leaves() == leaves[..n]
    {
      var base := NextPow2(n);
      var a := PlaceLeaves(leaves, n, base);
      FillInternal(a, base);
      leafCount := n;
      treeSize := base * 2;
      tree := a;
    }

    /** The root holds the largest leaf, or 0 when there are no leaves. */
    lemma RootIsMax()
      requires Valid()
      ensures forall i :: 0 <= i < leafCount ==> Leaves()[i] <= tree[1]
      ensures leafCount > 0 ==> exists i :: 0 <= i < leafCount && Leaves()[i] == tree[1]
      ensures leafCount == 0 ==> tree[1] == 0
    {
      var base := treeSize / 2;
      var t := tree[..];
      forall i | 0 <= i < leafCount
        ensures Leaves()[i] <= tree[1]
      {
        RootDominates(t, base, base + i);
      }
      var l := LeafOf(t, base, 1);
      if l >= base + leafCount {
        // The root equals a padding leaf, so it is 0 and every leaf is 0 too.
        if leafCount > 0 {
          RootDominates(t, base, base);
          assert Leaves()[0] == tree[1];
        }
      } else {
        assert t[l] == tree[l];
        assert Leaves()[l - base] == tree[l];
      }
    }

    /**
     * selection_tree_update: an index past the leaves gives -1 and changes
     * nothing; otherwise the leaf is set and the path to the root repaired.
     */
    method Update(index: nat, value: uint64) returns (rc: int)
      requires Valid()
      modifies tree
      ensures Valid()
      ensures rc == 0 || rc == -1
      ensures rc == -1 <==> index >= leafCount
      ensures rc == -1 ==> tree[..] == old(tree[..])
      ensures rc == 0 ==> Leaves() == old(Leaves())[index := value]
    {
      if index >= leafCount {
        return -1;
      }
      var base := treeSize / 2;
      var pos := base + index;
      ghost var t0 := tree[..];
      tree[pos] := value;
      LeafWriteBreaksOnlyAncestors(t0, base, pos, value);
      assert tree[..] == t0[pos := value];
      RepairPath(tree, base, pos);
      RepairedLeaves(t0, tree[..], base, leafCount, index, value);
      return 0;
    }

    /**
     * The loop of selection_tree_update: walk from the written leaf up to the
     * root, recomputing each parent from its two children.
     */
    static method RepairPath(a: array<uint64>, base: nat, leaf: nat)
      requires a.Length == 2 * base && base <= leaf < 2 * base
      requires HeapOrderedOffPath(a[..], base, leaf)
      modifies a
      ensures a[base..] == old(a[base..])
      ensures HeapOrdered(a[..], base)
    {
      var pos := leaf;
      while pos > 1
        invariant 1 <= pos < 2 * base
        invariant a[base..] == old(a[base..])
        invariant HeapOrderedOffPath(a[..], base, pos)
        decreases pos
      {
        ghost var t := a[..];
        pos := pos / 2;
        var left := a[2 * pos];
        var right := a[2 * pos + 1];
        a[pos] := if left >= right then left else right;
        RepairStep(t, base, pos);
        assert a[..] == t[pos := Max(t[2 * pos], t[2 * pos + 1])];
        assert a[base..] == t[base..];
      }
    }

    /**
     * selection_tree_winner: the first leaf equal to the root, or 0 when none
     * is. In a valid tree that is the first largest leaf.
     */
    method Winner() returns (w: nat)
      requires Valid()
      ensures w == FirstMaxIndex(Leaves())
    {
      var base := treeSize / 2;
      var best := tree[1];
      w := 0;
      RootIsMax();
      for i := 0 to leafCount
        invariant forall k :: base <= k < base + i ==> tree[k] != best
      {
        if tree[base + i] == best {
          assert IsFirstMax(Leaves(), i) by {
            forall k | 0 <= k < i
              ensures Leaves()[k] < Leaves()[i]
            {
              assert tree[base + k] != best;
            }
          }
          FirstMaxUnique(Leaves(), i);
          return i;
        }
      }
      if leafCount > 0 {
        assert false;
      }
    }
  }

  /** j lies strictly above cell p on the path from p to the root. */
  ghost predicate IsAncestor(j: nat, p: nat)
    decreases p
  {
    p > 1 && (j == p / 2 || IsAncestor(j, p / 2))
  }

  /** The parent j of cell c lies above every cell at or below c. */
  lemma {:induction false} AncestorOfParent(j: nat, c: nat, l: nat)
    requires c > 1 && c / 2 == j
    requires l == c || IsAncestor(c, l)
    ensures IsAncestor(j, l)
    decreases l
  {
    if l != c && c != l / 2 {
      AncestorOfParent(j, c, l / 2);
    }
  }

  /** Every internal cell off the path from leaf pos to the root is in order. */
  ghost predicate HeapOrderedOffPath(t: seq<uint64>, base: nat, pos: nat)
    requires |t| == 2 * base
  {
    forall j :: 1 <= j < base && !IsAncestor(j, pos) ==> t[j] == Max(t[2 * j], t[2 * j + 1])
  }

  /** Writing a leaf can only break the order of the cells above it. */
  lemma LeafWriteBreaksOnlyAncestors(t: seq<uint64>, base: nat, pos: nat, v: uint64)
    requires |t| == 2 * base && HeapOrdered(t, base) && base <= pos < 2 * base
    ensures HeapOrderedOffPath(t[pos := v], base, pos)
  {
    forall j | 1 <= j < base && !IsAncestor(j, pos)
      ensures t[pos := v][j] == Max(t[pos := v][2 * j], t[pos := v][2 * j + 1])
    {
      assert 2 * j != pos && 2 * j + 1 != pos;
    }
  }

  /**
   * One step of the repair loop: recomputing the parent p of the cell just
   * fixed leaves only the cells above p out of order.
   */
  lemma RepairStep(t: seq<uint64>, base: nat, p: nat)
    requires |t| == 2 * base && 1 <= p < base
    requires HeapOrderedOffPath(t, base, 2 * p) || HeapOrderedOffPath(t, base, 2 * p + 1)
    ensures HeapOrderedOffPath(t[p := Max(t[2 * p], t[2 * p + 1])], base, p)
  {
    var u := t[p := Max(t[2 * p], t[2 * p + 1])];
    var c := if HeapOrderedOffPath(t, base, 2 * p) then 2 * p else 2 * p + 1;
    assert c / 2 == p;
    forall j | 1 <= j < base && !IsAncestor(j, p)
      ensures u[j] == Max(u[2 * j], u[2 * j + 1])
    {
      if j != p {
        assert !IsAncestor(j, c);
        assert 2 * j != p && 2 * j + 1 != p;
      }
    }
  }

  /**
   * After the repair loop: the leaf cells are the old ones with one leaf
   * replaced, so the leaves and the zero padding are as update promises.
   */
  lemma RepairedLeaves(t0: seq<uint64>, t: seq<uint64>, base: nat, count: nat, index: nat, v: uint64)
    requires |t0| == |t| == 2 * base && count <= base && index < count
    requires t[base..] == t0[base + index := v][base..]
    ensures t[base .. base + count] == t0[base .. base + count][index := v]
    ensures forall k :: base + count <= k < 2 * base ==> t[k] == t0[k]
  {
    forall k | base <= k < 2 * base
      ensures t[k] == t0[base + index := v][k]
    {
      assert t[k] == t[base..][k - base];
    }
  }
}
