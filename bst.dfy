/**
 * The unbalanced binary search tree of src/core/bst.c. A tree is the
 * pointer to its root node, NULL for the empty tree. Each node owns its
 * subtree: `Repr` is the set of its nodes and `Tree` the value the subtree
 * denotes, so each pointer operation is proved against a function on `Tree`
 * and the search-tree facts are proved about those functions.
 */
module Bst {
  import opened Common

  /** The value of a subtree. */
  datatype Tree = Empty | Node(left: Tree, key: uint64, value: uint64, right: Tree)

  /** What `visit` is called with during bst_inorder, per node. */
  datatype Entry = Entry(key: uint64, value: uint64)

  /** The key/value map a subtree stores. */
  ghost function Contents(t: Tree): map<uint64, uint64>
  {
    match t
    case Empty => map[]
    case Node(l, k, v, r) => Contents(l) + Contents(r) + map[k := v]
  }

  /** The search-tree ordering: left keys are smaller and right keys larger, at every node. */
  ghost predicate Ordered(t: Tree)
  {
    match t
    case Empty => true
    case Node(l, k, _, r) =>
      && Ordered(l) && Ordered(r)
      && AllBelow(Contents(l), k) && AllAbove(Contents(r), k)
  }

  /** Every key of m is below k. */
  ghost predicate AllBelow(m: map<uint64, uint64>, k: uint64)
  {
    forall x :: x in m ==> x < k
  }

  /** Every key of m is above k. */
  ghost predicate AllAbove(m: map<uint64, uint64>, k: uint64)
  {
    forall x :: x in m ==> k < x
  }

  /** Storing a key below k keeps a map below k. */
  lemma BelowAfterStore(m: map<uint64, uint64>, k: uint64, key: uint64, value: uint64)
    requires AllBelow(m, k) && key < k
    ensures AllBelow(m[key := value], k)
  {
  }

  /** Storing a key above k keeps a map above k. */
  lemma AboveAfterStore(m: map<uint64, uint64>, k: uint64, key: uint64, value: uint64)
    requires AllAbove(m, k) && k < key
    ensures AllAbove(m[key := value], k)
  {
  }

  /** The number of nodes. */
  function Size(t: Tree): nat
  {
    match t
    case Empty => 0
    case Node(l, _, _, r) => Size(l) + 1 + Size(r)
  }

  /** The tree that bst_insert leaves behind, as a value. */
  function TreeInsert(t: Tree, key: uint64, value: uint64): Tree
  {
    match t
    case Empty => Node(Empty, key, value, Empty)
    case Node(l, k, v, r) =>
      if key < k then Node(TreeInsert(l, key, value), k, v, r)
      else if key > k then Node(l, k, v, TreeInsert(r, key, value))
      else Node(l, k, value, r)
  }

  /** The value the walk of bst_search finds for `key`, or None. */
  function Find(t: Tree, key: uint64): Option<uint64>
  {
    match t
    case Empty => None
    case Node(l, k, v, r) =>
      if key < k then Find(l, key)
      else if key > k then Find(r, key)
      else Some(v)
  }

  /** The in-order listing that bst_inorder visits, as a value. */
  function Flatten(t: Tree): seq<Entry>
  {
    match t
    case Empty => []
    case Node(l, k, v, r) => Flatten(l) + [Entry(k, v)] + Flatten(r)
  }

  /** In an ordered tree the search walk finds exactly the stored value. */
  lemma {:induction false} FindIsLookup(t: Tree, key: uint64)
    requires Ordered(t)
    ensures Find(t, key) == if key in Contents(t) then Some(Contents(t)[key]) else None
  {
    match t
    case Empty =>
    case Node(l, k, v, r) =>
      FindIsLookup(l, key);
      FindIsLookup(r, key);
      if key < k {
        assert key !in Contents(r);
      } else if key > k {
        assert key !in Contents(l);
      }
  }

  /**
   * bst_insert keeps the ordering and stores `value` under `key`, leaving
   * every other key as it was.
   */
  lemma {:induction false} InsertKeepsOrder(t: Tree, key: uint64, value: uint64)
    requires Ordered(t)
    ensures Ordered(TreeInsert(t, key, value))
    ensures Contents(TreeInsert(t, key, value)) == Contents(t)[key := value]
  {
    match t
    case Empty =>
    case Node(l, k, v, r) =>
      if key < k {
        var l' := TreeInsert(l, key, value);
        InsertKeepsOrder(l, key, value);
        BelowAfterStore(Contents(l), k, key, value);
        InsertBelowLeft(Contents(l), Contents(r), k, v, key, value);
        assert TreeInsert(t, key, value) == Node(l', k, v, r);
        assert Contents(Node(l', k, v, r)) == Contents(l') + Contents(r) + map[k := v];
      } else if key > k {
        var r' := TreeInsert(r, key, value);
        InsertKeepsOrder(r, key, value);
        AboveAfterStore(Contents(r), k, key, value);
        InsertBelowRight(Contents(l), Contents(r), k, v, key, value);
        assert TreeInsert(t, key, value) == Node(l, k, v, r');
        assert Contents(Node(l, k, v, r')) == Contents(l) + Contents(r') + map[k := v];
      } else {
        OverwriteAtNode(Contents(l), Contents(r), k, v, value);
        assert TreeInsert(t, key, value) == Node(l, k, value, r);
      }
  }

  /** Inserting a key that is already stored adds no node; a new key adds one. */
  lemma {:induction false} InsertSize(t: Tree, key: uint64, value: uint64)
    ensures Size(TreeInsert(t, key, value)) == Size(t) + if Find(t, key).Some? then 0 else 1
  {
    match t
    case Empty =>
    case Node(l, k, v, r) =>
      if key < k {
        InsertSize(l, key, value);
      } else if key > k {
        InsertSize(r, key, value);
      }
  }

  /** After an insert the search finds the new value, and every other key's result is unchanged. */
  lemma InsertThenFind(t: Tree, key: uint64, value: uint64, other: uint64)
    requires Ordered(t)
    ensures Find(TreeInsert(t, key, value), key) == Some(value)
    ensures other != key ==> Find(TreeInsert(t, key, value), other) == Find(t, other)
  {
    InsertKeepsOrder(t, key, value);
    FindIsLookup(TreeInsert(t, key, value), key);
    FindIsLookup(TreeInsert(t, key, value), other);
    FindIsLookup(t, other);
  }

  /**
   * The map facts of an insert below the left child of a node with key k:
   * the node's map is the old one updated at `key`.
   */
  lemma InsertBelowLeft(ml: map<uint64, uint64>, mr: map<uint64, uint64>, k: uint64, v: uint64,
                        key: uint64, value: uint64)
    requires key < k && AllAbove(mr, k)
    ensures ml[key := value] + mr + map[k := v] == (ml + mr + map[k := v])[key := value]
  {
    assert key !in mr;
  }

  /** The map facts of overwriting the value of the node itself. */
  lemma OverwriteAtNode(ml: map<uint64, uint64>, mr: map<uint64, uint64>, k: uint64, v: uint64, value: uint64)
    ensures ml + mr + map[k := value] == (ml + mr + map[k := v])[k := value]
  {
  }

  /** The same for an insert below the right child. */
  lemma InsertBelowRight(ml: map<uint64, uint64>, mr: map<uint64, uint64>, k: uint64, v: uint64,
                         key: uint64, value: uint64)
    requires k < key
    ensures ml + mr[key := value] + map[k := v] == (ml + mr + map[k := v])[key := value]
  {
  }

  /** Strictly ascending keys. */
  ghost predicate Ascending(s: seq<Entry>)
  {
    forall i, j :: 0 <= i < j < |s| ==> s[i].key < s[j].key
  }

  /** The keys of a visit sequence. */
  ghost function KeySet(s: seq<Entry>): set<uint64>
  {
    set i | 0 <= i < |s| :: s[i].key
  }

  /** The visit sequence s lists exactly the entries of the map m. */
  ghost predicate Lists(s: seq<Entry>, m: map<uint64, uint64>)
  {
    && (forall i :: 0 <= i < |s| ==> s[i].key in m && m[s[i].key] == s[i].value)
    && KeySet(s) == m.Keys
  }

  /**
   * In an ordered tree the in-order listing visits every stored entry once,
   * in strictly ascending key order.
   */
  lemma {:induction false} FlattenSorted(t: Tree)
    ensures Ordered(t) ==> Ascending(Flatten(t)) && Lists(Flatten(t), Contents(t))
  {
    match t
    case Empty =>
    case Node(l, k, v, r) =>
      if Ordered(t) {
        FlattenSorted(l);
        FlattenSorted(r);
        InOrderJoin(Flatten(l), Contents(l), Entry(k, v), Flatten(r), Contents(r));
      }
  }

  /**
   * Listing the left map, then a separating entry, then the right map lists
   * their union in ascending order.
   */
  lemma InOrderJoin(l: seq<Entry>, ml: map<uint64, uint64>, e: Entry, r: seq<Entry>, mr: map<uint64, uint64>)
    requires Ascending(l) && Lists(l, ml) && Ascending(r) && Lists(r, mr)
    requires forall k :: k in ml ==> k < e.key
    requires forall k :: k in mr ==> e.key < k
    ensures Ascending(l + [e] + r) && Lists(l + [e] + r, ml + mr + map[e.key := e.value])
  {
    JoinAscending(l, e, r);
    JoinEntries(l, ml, e, r, mr);
    JoinKeys(l, e, r);
  }

  lemma JoinAscending(l: seq<Entry>, e: Entry, r: seq<Entry>)
    requires Ascending(l) && Ascending(r)
    requires forall i :: 0 <= i < |l| ==> l[i].key < e.key
    requires forall i :: 0 <= i < |r| ==> e.key < r[i].key
    ensures Ascending(l + [e] + r)
  {
    var s := l + [e] + r;
    forall i, j | 0 <= i < j < |s|
      ensures s[i].key < s[j].key
    {
      if j < |l| {
        assert s[i] == l[i] && s[j] == l[j];
      } else if i > |l| {
        assert s[i] == r[i - |l| - 1] && s[j] == r[j - |l| - 1];
      } else if i < |l| {
        assert s[i] == l[i];
        if j > |l| {
          assert s[j] == r[j - |l| - 1];
        }
      } else {
        assert s[j] == r[j - |l| - 1];
      }
    }
  }

  lemma JoinEntries(l: seq<Entry>, ml: map<uint64, uint64>, e: Entry, r: seq<Entry>, mr: map<uint64, uint64>)
    requires forall i :: 0 <= i < |l| ==> l[i].key in ml && ml[l[i].key] == l[i].value
    requires forall i :: 0 <= i < |r| ==> r[i].key in mr && mr[r[i].key] == r[i].value
    requires forall k :: k in ml ==> k < e.key
    requires forall k :: k in mr ==> e.key < k
    ensures forall i :: 0 <= i < |l + [e] + r| ==>
      (l + [e] + r)[i].key in ml + mr + map[e.key := e.value] &&
      (ml + mr + map[e.key := e.value])[(l + [e] + r)[i].key] == (l + [e] + r)[i].value
  {
    var s := l + [e] + r;
    var m := ml + mr + map[e.key := e.value];
    forall i | 0 <= i < |s|
      ensures s[i].key in m && m[s[i].key] == s[i].value
    {
      if i < |l| {
        assert s[i] == l[i] && l[i].key in ml;
        assert l[i].key !in mr;
      } else if i > |l| {
        assert s[i] == r[i - |l| - 1] && r[i - |l| - 1].key in mr;
      }
    }
  }

  lemma JoinKeys(l: seq<Entry>, e: Entry, r: seq<Entry>)
    ensures KeySet(l + [e] + r) == KeySet(l) + {e.key} + KeySet(r)
  {
    var s := l + [e] + r;
    forall k | k in KeySet(s)
      ensures k in KeySet(l) + {e.key} + KeySet(r)
    {
      var i :| 0 <= i < |s| && s[i].key == k;
      if i < |l| {
        assert l[i] == s[i];
      } else if i > |l| {
        assert r[i - |l| - 1] == s[i];
      }
    }
    forall k | k in KeySet(l) + {e.key} + KeySet(r)
      ensures k in KeySet(s)
    {
      if k in KeySet(l) {
        var i :| 0 <= i < |l| && l[i].key == k;
        assert s[i] == l[i];
      } else if k in KeySet(r) {
        var i :| 0 <= i < |r| && r[i].key == k;
        assert s[|l| + 1 + i] == r[i];
      } else {
        assert s[|l|] == e;
      }
    }
  }

  class BstNode {
    var key: uint64
    var value: uint64
    var left: BstNode?
    var right: BstNode?
    ghost var Repr: set<BstNode>
    ghost var Tree: Tree

    /**
     * The node owns its two subtrees, which are disjoint, and `Tree` is the
     * node with the values of its subtrees.
     */
    ghost predicate Valid()
      reads this, Repr
      decreases Repr
    {
      && this in Repr
      && (left != null ==>
            left in Repr && left.Repr <= Repr && this !in left.Repr && left.Valid())
      && (right != null ==>
            right in Repr && right.Repr <= Repr && this !in right.Repr && right.Valid())
      && (left != null && right != null ==> left.Repr !! right.Repr)
      && Tree == Node(TreeOf(left), key, value, TreeOf(right))
    }

    /** The node bst_insert allocates for a key not yet in the tree. */
    constructor Leaf(key: uint64, value: uint64)
      ensures Valid() && Repr == {this} && Tree == Node(Empty, key, value, Empty)
      ensures this.key == key && this.value == value && left == null && right == null
    {
      this.key := key;
      this.value := value;
      left := null;
      right := null;
      Repr := {this};
      Tree := Node(Empty, key, value, Empty);
    }
  }

  /** The value of the subtree at `n`; NULL is the empty tree. */
  ghost function TreeOf(n: BstNode?): Tree
    reads n
  {
    if n == null then Empty else n.Tree
  }

  ghost function SubtreeRepr(n: BstNode?): set<BstNode>
    reads n
  {
    if n == null then {} else n.Repr
  }

  ghost predicate ValidTree(n: BstNode?)
    reads n, SubtreeRepr(n)
  {
    n == null || n.Valid()
  }

  /**
   * bst_insert: a NULL root becomes a new leaf; otherwise descend left or
   * right by key and relink the child to the result, or overwrite the value
   * of the node that holds the key. The root of a non-empty tree stays the
   * root, and a key that is already stored allocates nothing. Allocation
   * never fails in the model.
   */
  method Insert(root: BstNode?, key: uint64, value: uint64) returns (r: BstNode)
    requires ValidTree(root)
    modifies SubtreeRepr(root)
    ensures r.Valid() && r.Tree == TreeInsert(old(TreeOf(root)), key, value)
    ensures root != null ==> r == root
    ensures root == null ==> r.key == key && r.value == value && r.left == null && r.right == null
    ensures fresh(r.Repr - old(SubtreeRepr(root)))
    ensures Find(old(TreeOf(root)), key).Some? ==> r.Repr == old(SubtreeRepr(root))
    decreases SubtreeRepr(root), 1
  {
    if root == null {
      r := new BstNode.Leaf(key, value);
      return;
    }
    if key < root.key {
      InsertLeft(root, key, value);
    } else if key > root.key {
      InsertRight(root, key, value);
    } else {
      root.value := value;
      root.Tree := Node(TreeOf(root.left), key, value, TreeOf(root.right));
    }
    r := root;
  }

  /** The `key < root->key` branch of bst_insert. */
  method InsertLeft(root: BstNode, key: uint64, value: uint64)
    requires root.Valid() && key < root.key
    modifies root.Repr
    ensures root.Valid() && root.Tree == TreeInsert(old(root.Tree), key, value)
    ensures fresh(root.Repr - old(root.Repr))
    ensures Find(old(root.Tree), key).Some? ==> root.Repr == old(root.Repr)
    decreases root.Repr, 0
  {
    ghost var R := SubtreeRepr(root.right);
    var child := Insert(root.left, key, value);
    assert root !in child.Repr && child.Repr !! R;
    root.left := child;
    root.Repr := root.Repr + child.Repr;
    root.Tree := Node(child.Tree, root.key, root.value, TreeOf(root.right));
  }

  /** The `key > root->key` branch of bst_insert. */
  method InsertRight(root: BstNode, key: uint64, value: uint64)
    requires root.Valid() && root.key < key
    modifies root.Repr
    ensures root.Valid() && root.Tree == TreeInsert(old(root.Tree), key, value)
    ensures fresh(root.Repr - old(root.Repr))
    ensures Find(old(root.Tree), key).Some? ==> root.Repr == old(root.Repr)
    decreases root.Repr, 0
  {
    ghost var L := SubtreeRepr(root.left);
    var child := Insert(root.right, key, value);
    assert root !in child.Repr && child.Repr !! L;
    root.right := child;
    root.Repr := root.Repr + child.Repr;
    root.Tree := Node(TreeOf(root.left), root.key, root.value, child.Tree);
  }

  /**
   * bst_search: a cursor walk from the root. Found: 0 and the value (the
   * source writes `*out_value` only then); absent: -1 and `outValue` as it
   * was. In an ordered tree, found means stored under `key`.
   */
  method Search(root: BstNode?, key: uint64, outValue: uint64) returns (rc: int, outValue': uint64)
    requires ValidTree(root)
    ensures rc == 0 || rc == -1
    ensures rc == 0 <==> Find(TreeOf(root), key).Some?
    ensures rc == 0 ==> Find(TreeOf(root), key) == Some(outValue')
    ensures rc == -1 ==> outValue' == outValue
    ensures Ordered(TreeOf(root)) ==>
      (rc == 0 <==> key in Contents(TreeOf(root))) &&
      (rc == 0 ==> outValue' == Contents(TreeOf(root))[key])
  {
    if Ordered(TreeOf(root)) {
      FindIsLookup(TreeOf(root), key);
    }
    var cur := root;
    while cur != null
      invariant ValidTree(cur)
      invariant Find(TreeOf(root), key) == Find(TreeOf(cur), key)
      decreases SubtreeRepr(cur)
    {
      if key < cur.key {
        cur := cur.left;
      } else if key > cur.key {
        cur := cur.right;
      } else {
        return 0, cur.value;
      }
    }
    return -1, outValue;
  }

  /**
   * bst_inorder: the left subtree, the node, the right subtree. The result
   * is the sequence of `visit` calls.
   */
  function InOrder(n: BstNode?): (s: seq<Entry>)
    reads n, SubtreeRepr(n)
    requires ValidTree(n)
    ensures s == Flatten(TreeOf(n))
    ensures Ordered(TreeOf(n)) ==> Ascending(s) && Lists(s, Contents(TreeOf(n)))
    decreases SubtreeRepr(n)
  {
    if n == null then []
    else
      FlattenSorted(TreeOf(n));
      InOrder(n.left) + [Entry(n.key, n.value)] + InOrder(n.right)
  }
}
