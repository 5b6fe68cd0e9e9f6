/**
 * The in-memory B+ tree of src/utils/bplustree.rs: sorted keys per node,
 * values in the leaves, children in the inner nodes, overflow splits and
 * root promotion. Keys are integers (the code is generic over `K: Ord`;
 * its test uses `u32`). Nodes are immutable values: every operation that
 * mutates `&mut self` in the source returns the new node instead.
 */
module BPlusTree {
  import opened Wrappers

  /** `BPlusTreeNode<K, V>`; `values` is only used in leaves, `children` only in inner nodes. */
  datatype Node<V> = Node(keys: seq<int>, children: seq<Node<V>>, isLeaf: bool, values: seq<V>)

  /** `BPlusTree<K, V>`; the two orders are computed from type sizes in the source. */
  datatype Tree<V> = Tree(root: Node<V>, innerOrder: nat, leafOrder: nat)

  /** What `insert` does with a key that is already in its leaf. */
  datatype DuplicatePolicy =
    | ShiftValues   // the code as written: `values.insert(i, v)`
    | ReplaceValue  // the evident intent: `values[i] = v`

  /** `BPlusTreeNode::new` */
  function NewNode<V>(isLeaf: bool): Node<V> {
    Node([], [], isLeaf, [])
  }

  /** `is_overflow` */
  predicate IsOverflow<V>(n: Node<V>, order: nat) {
    |n.keys| > order
  }

  /** `get_median_index`: `order >> 1` */
  function MedianIndex(order: nat): (r: nat)
    ensures 2 * r <= order < 2 * r + 2
  {
    order / 2
  }

  /** `Vec::insert(i, x)` */
  function InsertAt<T>(s: seq<T>, i: nat, x: T): (r: seq<T>)
    requires i <= |s|
    ensures |r| == |s| + 1 && r[i] == x
    ensures forall j :: 0 <= j < i ==> r[j] == s[j]
    ensures forall j :: i < j < |r| ==> r[j] == s[j - 1]
  {
    s[..i] + [x] + s[i..]
  }

  // ---------------------------------------------------------------------
  // Searching a key list
  // ---------------------------------------------------------------------

  /** Non-decreasing keys: what both binary searches rely on. */
  ghost predicate Sorted(keys: seq<int>) {
    forall i, j :: 0 <= i < j < |keys| ==> keys[i] <= keys[j]
  }

  /** Strictly increasing keys: what a node of the tree holds. */
  ghost predicate StrictlySorted(keys: seq<int>) {
    forall i, j :: 0 <= i < j < |keys| ==> keys[i] < keys[j]
  }

  /**
   * Reference definition of the upper bound: the length of the longest
   * prefix of keys that are all <= key.
   */
  function UpperBound(keys: seq<int>, key: int): (r: nat)
    ensures r <= |keys|
    ensures forall i :: 0 <= i < r ==> keys[i] <= key
    ensures r < |keys| ==> key < keys[r]
  {
    if |keys| == 0 || key < keys[0] then 0 else 1 + UpperBound(keys[1..], key)
  }

  /** Reference definition of the exact match: the first index holding key. */
  function IndexOf(keys: seq<int>, key: int): (r: Option<nat>)
    ensures r.Some? ==> r.value < |keys| && keys[r.value] == key
    ensures r.Some? ==> forall i :: 0 <= i < r.value ==> keys[i] != key
    ensures r.None? <==> key !in keys
  {
    if |keys| == 0 then None
    else if keys[0] == key then Some(0)
    else match IndexOf(keys[1..], key)
      case Some(i) => Some(i + 1)
      case None => None
  }

  /**
   * `get_entry_index_upper_bound` (the same loop appears again in
   * `BPlusTreeQuery`). On any key list the result separates a key <= key
   * from a key > key; on a sorted list it is the upper bound.
   */
  method GetEntryIndexUpperBound(keys: seq<int>, key: int) returns (r: nat)
    ensures r <= |keys|
    ensures r > 0 ==> keys[r - 1] <= key
    ensures r < |keys| ==> key < keys[r]
    ensures Sorted(keys) ==> r == UpperBound(keys, key)
    ensures Sorted(keys) ==> forall i :: r <= i < |keys| ==> key < keys[i]
  {
    var left := 0;
    var right := |keys|;
    while left < right
      invariant 0 <= left <= right <= |keys|
      invariant left > 0 ==> keys[left - 1] <= key
      invariant right < |keys| ==> key < keys[right]
      invariant Sorted(keys) ==> forall i :: 0 <= i < left ==> keys[i] <= key
      invariant Sorted(keys) ==> forall i :: right <= i < |keys| ==> key < keys[i]
      decreases right - left
    {
      var mid := left + (right - left) / 2;
      if keys[mid] <= key {
        left := mid + 1;
      } else {
        right := mid;
      }
    }
    r := left;
    if Sorted(keys) {
      UpperBoundIs(keys, key, r);
    }
  }

  /** The upper bound is the only index with its two separating properties. */
  lemma UpperBoundIs(keys: seq<int>, key: int, r: nat)
    requires r <= |keys|
    requires forall i :: 0 <= i < r ==> keys[i] <= key
    requires r < |keys| ==> key < keys[r]
    ensures UpperBound(keys, key) == r
  {
  }

  /**
   * `get_equal_entry_index`. A found index always holds key; on a sorted
   * list nothing is found exactly when key is absent (the empty list
   * included), and on a strictly sorted list the index is key's only one.
   */
  method GetEqualEntryIndex(keys: seq<int>, key: int) returns (r: Option<nat>)
    ensures r.Some? ==> r.value < |keys| && keys[r.value] == key
    ensures Sorted(keys) ==> (r.None? <==> key !in keys)
    ensures StrictlySorted(keys) ==> r == IndexOf(keys, key)
  {
    if |keys| == 0 {
      return None;
    }
    var left := 0;
    var right := |keys| - 1;
    while left <= right
      invariant 0 <= left <= |keys|
      invariant -1 <= right < |keys|
      invariant Sorted(keys) ==> forall i :: 0 <= i < left ==> keys[i] < key
      invariant Sorted(keys) ==> forall i :: right < i < |keys| ==> key < keys[i]
      decreases right - left
    {
      var mid := left + (right - left) / 2;
      if keys[mid] == key {
        r := Some(mid);
        if StrictlySorted(keys) {
          IndexOfUnique(keys, key, mid);
        }
        return;
      } else if keys[mid] > key {
        if mid == 0 {
          // `mid.checked_sub(1)?`: nothing lies left of index 0
          return None;
        }
        right := mid - 1;
      } else {
        left := mid + 1;
      }
    }
    r := None;
  }

  /** In a strictly sorted list a key's index is unique. */
  lemma IndexOfUnique(keys: seq<int>, key: int, i: nat)
    requires StrictlySorted(keys)
    requires i < |keys| && keys[i] == key
    ensures IndexOf(keys, key) == Some(i)
  {
  }

  // ---------------------------------------------------------------------
  // Shape of a node
  // ---------------------------------------------------------------------

  /** The leftmost leaf exists and has a first key (`find_leaf_entry` unwraps both). */
  predicate HasLeftmost<V>(n: Node<V>) {
    if n.isLeaf then |n.keys| > 0 else |n.children| > 0 && HasLeftmost(n.children[0])
  }

  /** `find_leaf_entry`: the first key of the leftmost leaf. */
  function FindLeafEntry<V>(n: Node<V>): int
    requires HasLeftmost(n)
  {
    if n.isLeaf then n.keys[0] else FindLeafEntry(n.children[0])
  }

  /** Every inner node on every path has a child for each upper bound (`children.get(..).unwrap()`). */
  predicate Routable<V>(n: Node<V>) {
    n.isLeaf ||
    (|n.children| > |n.keys| && forall i :: 0 <= i < |n.children| ==> Routable(n.children[i]))
  }

  /**
   * What `insert` relies on: leaves hold at least one value per key, inner
   * nodes one more child than keys, and every child has a leftmost key.
   */
  predicate WellShaped<V>(n: Node<V>) {
    if n.isLeaf then |n.keys| <= |n.values|
    else
      && |n.children| == |n.keys| + 1
      && forall i :: 0 <= i < |n.children| ==> WellShaped(n.children[i]) && HasLeftmost(n.children[i])
  }

  lemma {:induction false} WellShapedRoutable<V>(n: Node<V>)
    requires WellShaped(n)
    ensures Routable(n)
    decreases n
  {
    if !n.isLeaf {
      forall i | 0 <= i < |n.children|
        ensures Routable(n.children[i])
      {
        WellShapedRoutable(n.children[i]);
      }
    }
  }

  // ---------------------------------------------------------------------
  // Query, split, insert
  // ---------------------------------------------------------------------

  /** `BPlusTreeNode::query`: route by upper bound, then exact match in the leaf. */
  function Query<V>(n: Node<V>, key: int): (r: Option<V>)
    requires Routable(n)
    ensures n.isLeaf ==> (r.Some? ==> key in n.keys)
    ensures n.isLeaf && |n.values| == |n.keys| ==> (r.Some? <==> key in n.keys)
  {
    if n.isLeaf then
      match IndexOf(n.keys, key)
      case Some(i) => if i < |n.values| then Some(n.values[i]) else None
      case None => None
    else
      Query(n.children[UpperBound(n.keys, key)], key)
  }

  /**
   * `split(order)` of an overflowing node: the node keeps its lower part
   * and the returned sibling takes the rest. A leaf keeps `order/2`
   * keys; an inner node keeps `order/2 + 1` keys and, besides its own
   * children, a copy of the sibling's first child (`push(... clone())`).
   */
  function Split<V>(n: Node<V>, order: nat): (r: (Node<V>, Node<V>))
    requires IsOverflow(n, order)
    requires n.isLeaf ==> |n.keys| <= |n.values|
    requires !n.isLeaf ==> |n.children| == |n.keys| + 1
    ensures var (left, right) := r;
      var m := MedianIndex(order);
      && left.isLeaf == right.isLeaf == n.isLeaf
      && (n.isLeaf ==>
            && left.keys == n.keys[..m] && left.values == n.values[..m]
            && left.keys + right.keys == n.keys
            && left.values + right.values == n.values)
      && (!n.isLeaf ==>
            && left.keys == n.keys[..m + 1]
            && right.keys == n.keys[m + 1..]
            && |left.children| == |left.keys| + 1
            && |right.children| == |right.keys| + 1
            && left.children == n.children[..m + 1] + [right.children[0]]
            && right.children == n.children[m + 1..])
  {
    var m := MedianIndex(order);
    if n.isLeaf then
      (Node(n.keys[..m], n.children, true, n.values[..m]), Node(n.keys[m..], [], true, n.values[m..]))
    else
      var right := Node(n.keys[m + 1..], n.children[m + 1..], false, []);
      (Node(n.keys[..m + 1], n.children[..m + 1] + [right.children[0]], false, n.values), right)
  }

  /** The leaf half of `BPlusTreeNode::insert`. */
  function LeafInsert<V>(n: Node<V>, key: int, v: V, leafOrder: nat, policy: DuplicatePolicy)
    : (r: (Node<V>, Option<Node<V>>))
    requires n.isLeaf && |n.keys| <= |n.values|
    requires leafOrder >= 2
    ensures r.0.isLeaf && |r.0.keys| > 0 && |r.0.keys| <= |r.0.values|
    ensures r.1.Some? ==> r.1.value.isLeaf && |r.1.value.keys| > 0 && |r.1.value.keys| <= |r.1.value.values|
    ensures IndexOf(n.keys, key).Some? ==>
      && r.0.keys == n.keys && r.1.None?
      && (policy == ShiftValues ==> |r.0.values| == |n.values| + 1)
      && (policy == ReplaceValue ==> |r.0.values| == |n.values|)
  {
    match IndexOf(n.keys, key)
    case Some(i) =>
      var values := match policy
        case ShiftValues => InsertAt(n.values, i, v)
        case ReplaceValue => n.values[i := v];
      (n.(values := values), None)
    case None =>
      var pos := UpperBound(n.keys, key);
      var grown := n.(keys := InsertAt(n.keys, pos, key), values := InsertAt(n.values, pos, v));
      if IsOverflow(grown, leafOrder) then
        var (left, right) := Split(grown, leafOrder);
        (left, Some(right))
      else
        (grown, None)
  }

  /**
   * The inner half of `BPlusTreeNode::insert` once the child has split:
   * file the sibling under its leftmost leaf key and split on overflow.
   */
  function AbsorbSibling<V>(n: Node<V>, s: Node<V>, innerOrder: nat): (r: (Node<V>, Option<Node<V>>))
    requires !n.isLeaf && WellShaped(n) && WellShaped(s) && HasLeftmost(s)
    requires innerOrder >= 2
    ensures WellShaped(r.0) && HasLeftmost(r.0) && !r.0.isLeaf
    ensures r.1.Some? ==> WellShaped(r.1.value) && HasLeftmost(r.1.value) && !r.1.value.isLeaf
  {
    var leafKey := FindLeafEntry(s);
    var idx := UpperBound(n.keys, leafKey);
    var grown := n.(keys := InsertAt(n.keys, idx, leafKey), children := InsertAt(n.children, idx + 1, s));
    InsertChildShaped(n, idx, leafKey, s);
    if IsOverflow(grown, innerOrder) then
      SplitInnerShaped(grown, innerOrder);
      (Split(grown, innerOrder).0, Some(Split(grown, innerOrder).1))
    else
      (grown, None)
  }

  /** Filing a well-shaped sibling with its separator keeps an inner node well shaped. */
  lemma InsertChildShaped<V>(n: Node<V>, idx: nat, key: int, s: Node<V>)
    requires !n.isLeaf && WellShaped(n) && WellShaped(s) && HasLeftmost(s) && idx <= |n.keys|
    ensures var g := n.(keys := InsertAt(n.keys, idx, key), children := InsertAt(n.children, idx + 1, s));
      WellShaped(g) && HasLeftmost(g)
  {
    var g := n.(keys := InsertAt(n.keys, idx, key), children := InsertAt(n.children, idx + 1, s));
    forall i | 0 <= i < |g.children|
      ensures WellShaped(g.children[i]) && HasLeftmost(g.children[i])
    {
      if i <= idx {
        assert g.children[i] == n.children[i];
      } else if i > idx + 1 {
        assert g.children[i] == n.children[i - 1];
      }
    }
    assert g.children[0] == n.children[0];
  }

  /** Both halves of a well-shaped inner node's split are well shaped. */
  lemma SplitInnerShaped<V>(g: Node<V>, order: nat)
    requires !g.isLeaf && WellShaped(g) && IsOverflow(g, order) && order >= 2
    ensures WellShaped(Split(g, order).0) && HasLeftmost(Split(g, order).0) && !Split(g, order).0.isLeaf
    ensures WellShaped(Split(g, order).1) && HasLeftmost(Split(g, order).1) && !Split(g, order).1.isLeaf
  {
    var left, right := Split(g, order).0, Split(g, order).1;
    assert forall i :: 0 <= i < |left.children| ==> left.children[i] in g.children;
    assert forall i :: 0 <= i < |right.children| ==> right.children[i] in g.children;
  }

  /**
   * `BPlusTreeNode::insert`: the updated node, and the new right sibling
   * when the node overflowed and split.
   */
  function NodeInsert<V>(n: Node<V>, key: int, v: V, innerOrder: nat, leafOrder: nat, policy: DuplicatePolicy)
    : (r: (Node<V>, Option<Node<V>>))
    requires WellShaped(n)
    requires innerOrder >= 2 && leafOrder >= 2
    ensures WellShaped(r.0) && HasLeftmost(r.0) && r.0.isLeaf == n.isLeaf
    ensures r.1.Some? ==> WellShaped(r.1.value) && HasLeftmost(r.1.value) && r.1.value.isLeaf == n.isLeaf
    decreases n
  {
    if n.isLeaf then
      LeafInsert(n, key, v, leafOrder, policy)
    else
      var pos := UpperBound(n.keys, key);
      var (child, sibling) := NodeInsert(n.children[pos], key, v, innerOrder, leafOrder, policy);
      var updated := n.(children := n.children[pos := child]);
      match sibling
      case None => (updated, None)
      case Some(s) => AbsorbSibling(updated, s, innerOrder)
  }

  // ---------------------------------------------------------------------
  // The tree
  // ---------------------------------------------------------------------

  /** What `BPlusTree::insert` relies on between calls. */
  predicate TreeShaped<V>(t: Tree<V>) {
    && t.innerOrder >= 2 && t.leafOrder >= 2
    && WellShaped(t.root)
    && (|t.root.keys| == 0 ==> t.root.isLeaf)
  }

  /** `BPlusTree::query` */
  function TreeQuery<V>(t: Tree<V>, key: int): (r: Option<V>)
    requires TreeShaped(t)
    ensures t.root.isLeaf ==> (r.Some? <==> key in t.root.keys)
  {
    WellShapedRoutable(t.root);
    Query(t.root, key)
  }
  /** `BPlusTree::new`: an empty leaf as root. */
  function NewTree<V>(innerOrder: nat, leafOrder: nat): (t: Tree<V>)
    requires innerOrder >= 2 && leafOrder >= 2
    ensures TreeShaped(t)
    ensures forall key :: TreeQuery(t, key) == None
  {
    Tree(NewNode(true), innerOrder, leafOrder)
  }

  /**
   * `BPlusTree::insert`. The first key goes straight into the empty root;
   * a root split promotes a new inner root with one key (the sibling's
   * leftmost leaf key) and the old root and the sibling as children.
   */
  function InsertWith<V>(t: Tree<V>, key: int, v: V, policy: DuplicatePolicy): (r: Tree<V>)
    requires TreeShaped(t)
    ensures TreeShaped(r)
    ensures r.innerOrder == t.innerOrder && r.leafOrder == t.leafOrder
  {
    if |t.root.keys| == 0 then
      t.(root := t.root.(keys := t.root.keys + [key], values := t.root.values + [v]))
    else
      var (root, sibling) := NodeInsert(t.root, key, v, t.innerOrder, t.leafOrder, policy);
      match sibling
      case None => t.(root := root)
      case Some(s) =>
        var childKey := if s.isLeaf then s.keys[0] else FindLeafEntry(s);
        t.(root := Node([childKey], [root, s], false, []))
  }

  /** `BPlusTree::insert` as written: a repeated key shifts the leaf's values. */
  function Insert<V>(t: Tree<V>, key: int, v: V): (r: Tree<V>)
    requires TreeShaped(t)
    ensures TreeShaped(r)
  {
    InsertWith(t, key, v, ShiftValues)
  }

  /** `BPlusTree::insert` as evidently intended: a repeated key replaces its value. */
  function Upsert<V>(t: Tree<V>, key: int, v: V): (r: Tree<V>)
    requires TreeShaped(t)
    ensures TreeShaped(r)
  {
    InsertWith(t, key, v, ReplaceValue)
  }

  /** Inserts a sequence of entries from left to right, as the source's test loop does. */
  function InsertAllWith<V>(t: Tree<V>, entries: seq<(int, V)>, policy: DuplicatePolicy): (r: Tree<V>)
    requires TreeShaped(t)
    ensures TreeShaped(r)
    ensures r.innerOrder == t.innerOrder && r.leafOrder == t.leafOrder
    decreases |entries|
  {
    if |entries| == 0 then t
    else InsertAllWith(InsertWith(t, entries[0].0, entries[0].1, policy), entries[1..], policy)
  }

  // ---------------------------------------------------------------------
  // Orders from type sizes
  // ---------------------------------------------------------------------

  const BlockSize: nat := 4096
  const BincodeOverhead: nat := 4
  /** `size_of::<Option<u64>>()` */
  const PointerSize: nat := 16

  /**
   * The orders `BPlusTree::new` derives from `size_of::<K>()` and
   * `size_of::<V>()`: how many keys, or keys with values, fit a block.
   * Both are at least 2, which insert relies on, exactly when the two
   * sizes together stay within 2023 bytes.
   */
  function OrdersFor(keySize: nat, valueSize: nat): (r: (nat, nat))
    ensures r.0 * (keySize + PointerSize + 1 + BincodeOverhead) <= BlockSize
    ensures r.1 * (keySize + PointerSize + 1 + BincodeOverhead + valueSize + BincodeOverhead) <= BlockSize
    ensures BlockSize < (r.0 + 1) * (keySize + PointerSize + 1 + BincodeOverhead)
    ensures BlockSize < (r.1 + 1) * (keySize + PointerSize + 1 + BincodeOverhead + valueSize + BincodeOverhead)
    ensures r.0 >= 2 && r.1 >= 2 <==> keySize + valueSize <= 2023
  {
    var keyBytes := keySize + PointerSize + 1 + BincodeOverhead;
    var entryBytes := keyBytes + valueSize + BincodeOverhead;
    (FitCount(BlockSize, keyBytes), FitCount(BlockSize, entryBytes))
  }

  /** How many items of d bytes fit n bytes: `n / d`. */
  function FitCount(n: nat, d: nat): (q: nat)
    requires d > 0
    ensures q * d <= n < (q + 1) * d
    ensures q >= 2 <==> 2 * d <= n
  {
    DivBounds(n, d);
    n / d
  }

  /**
   * Integer division rounds down: the quotient is the largest multiple of d
   * that fits n, and reaches 2 exactly when 2d fits.
   */
  lemma DivBounds(n: nat, d: nat)
    requires d > 0
    ensures (n / d) * d <= n
    ensures n < (n / d + 1) * d
    ensures n / d >= 2 <==> 2 * d <= n
  {
    var q, rem := n / d, n % d;
    assert n == q * d + rem && 0 <= rem < d;
    if q >= 2 {
      assert q * d == 2 * d + (q - 2) * d;
    } else {
      assert q * d <= d;
    }
  }
}
