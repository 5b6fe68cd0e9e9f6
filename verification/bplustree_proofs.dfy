/**
 * Correctness of the B+ tree's insert and query: a query after an insert
 * returns the inserted value for its key and what it returned before for
 * every other key.
 *
 * The invariant is stated through routing ranges. Each child of an inner
 * node is responsible for the keys between its two separators. An inner
 * split copies the sibling's first child into the node that stays (see
 * `Split`); the copy ends up responsible for an empty range [k, k), is
 * never reached again by a query or an insert, and so only has to be
 * structurally sound.
 */
module BPlusTreeProofs {
  import opened Wrappers
  import opened BPlusTree
  import opened RustInt

  // ---------------------------------------------------------------------
  // Routing ranges: lo is inclusive, hi exclusive, None is unbounded
  // ---------------------------------------------------------------------

  ghost predicate AtLeast(k: int, lo: Option<int>) { lo.None? || lo.value <= k }
  ghost predicate Above(k: int, lo: Option<int>) { lo.None? || lo.value < k }
  ghost predicate Below(k: int, hi: Option<int>) { hi.None? || k < hi.value }
  ghost predicate AtMost(k: int, hi: Option<int>) { hi.None? || k <= hi.value }
  ghost predicate InRange(k: int, lo: Option<int>, hi: Option<int>) { AtLeast(k, lo) && Below(k, hi) }
  ghost predicate NonEmpty(lo: Option<int>, hi: Option<int>) { lo.None? || hi.None? || lo.value < hi.value }

  /** The lower end of child i's range. */
  ghost function ChildLo<V>(n: Node<V>, lo: Option<int>, i: nat): Option<int>
    requires i <= |n.keys|
  {
    if i == 0 then lo else Some(n.keys[i - 1])
  }

  /** The upper end of child i's range. */
  ghost function ChildHi<V>(n: Node<V>, hi: Option<int>, i: nat): Option<int>
    requires i <= |n.keys|
  {
    if i == |n.keys| then hi else Some(n.keys[i])
  }

  ghost function Min(a: int, b: int): int { if a <= b then a else b }

  // ---------------------------------------------------------------------
  // The invariant
  // ---------------------------------------------------------------------

  /**
   * What holds of every node, reachable or not: strictly sorted keys,
   * one value per key in a leaf, one more child than keys in an inner
   * node, and each separator equal to the leftmost key below its right
   * child.
   */
  ghost predicate Structural<V>(n: Node<V>)
    decreases n
  {
    if n.isLeaf then
      |n.keys| > 0 && |n.values| == |n.keys| && StrictlySorted(n.keys)
    else
      && |n.keys| > 0 && |n.children| == |n.keys| + 1 && StrictlySorted(n.keys)
      && (forall i :: 0 <= i < |n.children| ==> Structural(n.children[i]) && HasLeftmost(n.children[i]))
      && (forall i :: 1 <= i < |n.children| ==> FindLeafEntry(n.children[i]) == n.keys[i - 1])
  }

  /**
   * What holds of a node responsible for [lo, hi) when that range is not
   * empty: leaf keys lie in it, inner keys in (lo, hi], and every child
   * is routed for its own range.
   */
  ghost predicate Routed<V>(n: Node<V>, lo: Option<int>, hi: Option<int>)
    decreases n
  {
    NonEmpty(lo, hi) ==>
      if n.isLeaf then
        forall i :: 0 <= i < |n.keys| ==> InRange(n.keys[i], lo, hi)
      else
        && |n.children| == |n.keys| + 1
        && (forall i :: 0 <= i < |n.keys| ==> Above(n.keys[i], lo) && AtMost(n.keys[i], hi))
        && (forall i :: 0 <= i < |n.children| ==> Routed(n.children[i], ChildLo(n, lo, i), ChildHi(n, hi, i)))
  }

  ghost predicate Valid<V>(n: Node<V>, lo: Option<int>, hi: Option<int>) {
    Structural(n) && WellShaped(n) && Routable(n) && HasLeftmost(n) && Routed(n, lo, hi)
  }

  lemma {:induction false} StructuralShaped<V>(n: Node<V>)
    requires Structural(n)
    ensures WellShaped(n) && Routable(n) && HasLeftmost(n)
    decreases n
  {
    if !n.isLeaf {
      forall i | 0 <= i < |n.children|
        ensures WellShaped(n.children[i]) && Routable(n.children[i])
      {
        StructuralShaped(n.children[i]);
      }
    }
  }

  /** The leftmost key of a node lies in its range, below its first separator. */
  lemma {:induction false} LeftmostInRange<V>(n: Node<V>, lo: Option<int>, hi: Option<int>)
    requires Valid(n, lo, hi) && NonEmpty(lo, hi)
    ensures InRange(FindLeafEntry(n), lo, hi)
    ensures !n.isLeaf ==> FindLeafEntry(n) < n.keys[0]
    decreases n
  {
    if !n.isLeaf {
      var c := n.children[0];
      StructuralShaped(c);
      assert Above(n.keys[0], lo);
      LeftmostInRange(c, lo, Some(n.keys[0]));
    }
  }

  // ---------------------------------------------------------------------
  // Key lists
  // ---------------------------------------------------------------------

  /** Inserting between its neighbours keeps a key list strictly sorted. */
  lemma InsertAtSorted(keys: seq<int>, pos: nat, x: int)
    requires StrictlySorted(keys) && pos <= |keys|
    requires pos > 0 ==> keys[pos - 1] < x
    requires pos < |keys| ==> x < keys[pos]
    ensures StrictlySorted(InsertAt(keys, pos, x))
  {
    var r := InsertAt(keys, pos, x);
    forall i, j | 0 <= i < j < |r|
      ensures r[i] < r[j]
    {
      if j < pos {
      } else if j == pos {
        if i < pos - 1 { assert keys[i] < keys[pos - 1]; }
      } else if i == pos {
        if j > pos + 1 { assert keys[pos] < keys[j - 1]; }
      } else if i < pos {
        assert keys[i] < keys[j - 1];
      }
    }
  }

  /** A leaf with one value per key answers each of its keys with that key's value. */
  lemma LeafQueryAt<V>(n: Node<V>, j: nat)
    requires n.isLeaf && StrictlySorted(n.keys) && j < |n.keys| && j < |n.values|
    ensures Query(n, n.keys[j]) == Some(n.values[j])
  {
    IndexOfUnique(n.keys, n.keys[j], j);
  }

  // ---------------------------------------------------------------------
  // Splits
  // ---------------------------------------------------------------------

  /**
   * What a split must deliver: both halves valid on either side of the
   * separator (the sibling's leftmost key), and every query in the node's
   * range answered as before by the half it is routed to.
   */
  ghost predicate SplitsInto<V>(n: Node<V>, lo: Option<int>, hi: Option<int>, left: Node<V>, right: Node<V>)
  {
    && Routable(n) && HasLeftmost(n) && HasLeftmost(right)
    && var sep := FindLeafEntry(right);
    && Above(sep, lo) && Below(sep, hi)
    && Valid(left, lo, Some(sep)) && Valid(right, Some(sep), hi)
    && left.isLeaf == right.isLeaf == n.isLeaf
    && FindLeafEntry(left) == FindLeafEntry(n)
    && forall q :: InRange(q, lo, hi) ==> Query(if q < sep then left else right, q) == Query(n, q)
  }

  lemma SplitLeafCorrect<V>(n: Node<V>, lo: Option<int>, hi: Option<int>, order: nat)
    requires Valid(n, lo, hi) && NonEmpty(lo, hi) && n.isLeaf
    requires IsOverflow(n, order) && order >= 2
    ensures SplitsInto(n, lo, hi, Split(n, order).0, Split(n, order).1)
  {
    SplitLeafHalves(n, lo, hi, order);
    SplitLeafQueries(n, order);
  }

  /** The two halves of a leaf hold the keys below and from the separator on. */
  lemma SplitLeafHalves<V>(n: Node<V>, lo: Option<int>, hi: Option<int>, order: nat)
    requires Valid(n, lo, hi) && NonEmpty(lo, hi) && n.isLeaf
    requires IsOverflow(n, order) && order >= 2
    ensures var m := MedianIndex(order);
      && m < |n.keys| && Above(n.keys[m], lo) && Below(n.keys[m], hi)
      && Valid(Split(n, order).0, lo, Some(n.keys[m]))
      && Valid(Split(n, order).1, Some(n.keys[m]), hi)
  {
    var (left, right) := Split(n, order);
    var m := MedianIndex(order);
    assert left.keys == n.keys[..m] && right.keys == n.keys[m..];
    assert left.values == n.values[..m] && right.values == n.values[m..];
    assert n.keys[0] < n.keys[m];
  }

  /** A leaf holding a slice of another leaf's entries answers as it does for keys bracketed by the slice. */
  lemma LeafSliceQuery<V>(n: Node<V>, h: Node<V>, a: nat, b: nat, q: int)
    requires n.isLeaf && StrictlySorted(n.keys) && |n.values| == |n.keys|
    requires a <= b <= |n.keys|
    requires h.isLeaf && h.keys == n.keys[a..b] && h.values == n.values[a..b]
    requires a > 0 ==> n.keys[a - 1] < q
    requires b < |n.keys| ==> q < n.keys[b]
    ensures Query(h, q) == Query(n, q)
  {
    if q in n.keys {
      var j := IndexOf(n.keys, q).value;
      if a > 0 {
        SortedOrder(n.keys, a - 1, j);
      }
      if b < |n.keys| {
        SortedOrder(n.keys, j, b);
      }
      LeafSliceHit(n, h, a, b, j);
    } else {
      LeafSliceMiss(n, h, a, b, q);
    }
  }

  lemma LeafSliceHit<V>(n: Node<V>, h: Node<V>, a: nat, b: nat, j: nat)
    requires n.isLeaf && StrictlySorted(n.keys) && |n.values| == |n.keys|
    requires a <= j < b <= |n.keys|
    requires h.isLeaf && h.keys == n.keys[a..b] && h.values == n.values[a..b]
    ensures Query(h, n.keys[j]) == Query(n, n.keys[j])
  {
    LeafQueryAt(n, j);
    SliceSorted(n.keys, a, b);
    assert h.keys[j - a] == n.keys[j] && h.values[j - a] == n.values[j];
    LeafQueryAt(h, j - a);
  }

  lemma LeafSliceMiss<V>(n: Node<V>, h: Node<V>, a: nat, b: nat, q: int)
    requires n.isLeaf && |n.values| == |n.keys| && q !in n.keys
    requires a <= b <= |n.keys|
    requires h.isLeaf && h.keys == n.keys[a..b] && h.values == n.values[a..b]
    ensures Query(h, q) == None && Query(n, q) == None
  {
    forall i | 0 <= i < |h.keys|
      ensures h.keys[i] != q
    {
      assert h.keys[i] == n.keys[a + i];
    }
  }

  /** In strictly sorted keys, a smaller key sits at a smaller index. */
  lemma SortedOrder(keys: seq<int>, i: nat, j: nat)
    requires StrictlySorted(keys) && i < |keys| && j < |keys| && keys[i] < keys[j]
    ensures i < j
  {
  }

  lemma SliceSorted(keys: seq<int>, a: nat, b: nat)
    requires StrictlySorted(keys) && a <= b <= |keys|
    ensures StrictlySorted(keys[a..b])
  {
    forall i, j | 0 <= i < j < b - a
      ensures keys[a..b][i] < keys[a..b][j]
    {
      assert keys[a..b][i] == keys[a + i] && keys[a..b][j] == keys[a + j];
    }
  }

  /** A query on either half of a split leaf agrees with the whole leaf on that half's side. */
  lemma SplitLeafQueries<V>(n: Node<V>, order: nat)
    requires n.isLeaf && StrictlySorted(n.keys) && |n.values| == |n.keys|
    requires IsOverflow(n, order) && order >= 2
    ensures var m := MedianIndex(order);
      && m < |n.keys|
      && forall q :: Query(if q < n.keys[m] then Split(n, order).0 else Split(n, order).1, q) == Query(n, q)
  {
    var (left, right) := Split(n, order);
    var m := MedianIndex(order);
    assert left.keys == n.keys[..m] == n.keys[0..m] && right.keys == n.keys[m..] == n.keys[m..|n.keys|];
    assert left.values == n.values[0..m] && right.values == n.values[m..|n.values|];
    forall q
      ensures Query(if q < n.keys[m] then left else right, q) == Query(n, q)
    {
      if q < n.keys[m] {
        LeafSliceQuery(n, left, 0, m, q);
      } else {
        LeafSliceQuery(n, right, m, |n.keys|, q);
      }
    }
  }

  lemma SplitInnerCorrect<V>(n: Node<V>, lo: Option<int>, hi: Option<int>, order: nat)
    requires Valid(n, lo, hi) && NonEmpty(lo, hi) && !n.isLeaf
    requires IsOverflow(n, order) && order >= 2
    ensures SplitsInto(n, lo, hi, Split(n, order).0, Split(n, order).1)
  {
    var (left, right) := Split(n, order);
    var m := MedianIndex(order);
    assert FindLeafEntry(right) == FindLeafEntry(n.children[m + 1]) == n.keys[m];
    SplitInnerLeft(n, lo, hi, order);
    SplitInnerRight(n, lo, hi, order);
    SplitInnerQueries(n, lo, hi, order);
  }

  /** The node that stays keeps the separators up to the median and routes the copy into [k, k). */
  lemma SplitInnerLeft<V>(n: Node<V>, lo: Option<int>, hi: Option<int>, order: nat)
    requires Valid(n, lo, hi) && NonEmpty(lo, hi) && !n.isLeaf
    requires IsOverflow(n, order) && order >= 2
    ensures var m := MedianIndex(order);
      && m + 1 < |n.keys| && Above(n.keys[m], lo) && Below(n.keys[m], hi)
      && Valid(Split(n, order).0, lo, Some(n.keys[m]))
  {
    var left := Split(n, order).0;
    var m := MedianIndex(order);
    assert Below(n.keys[m], hi) by { assert n.keys[m] < n.keys[m + 1]; }
    SplitLeftStructural(n, left, m);
    StructuralShaped(left);
    SplitLeftRouted(n, lo, hi, left, m);
  }

  /** The first m + 1 separators with their children and a copy of child m + 1 are structurally sound. */
  lemma SplitLeftStructural<V>(n: Node<V>, left: Node<V>, m: nat)
    requires Structural(n) && !n.isLeaf && m + 1 < |n.keys|
    requires !left.isLeaf && left.keys == n.keys[..m + 1] && left.children == n.children[..m + 1] + [n.children[m + 1]]
    ensures Structural(left)
  {
    assert forall i :: 0 <= i <= m + 1 ==> left.children[i] == n.children[i];
    SliceSorted(n.keys, 0, m + 1);
    assert n.keys[..m + 1] == n.keys[0..m + 1];
  }

  /** The same prefix is routed for [lo, keys[m]): the copied last child's range is empty. */
  lemma SplitLeftRouted<V>(n: Node<V>, lo: Option<int>, hi: Option<int>, left: Node<V>, m: nat)
    requires Routed(n, lo, hi) && NonEmpty(lo, hi) && !n.isLeaf && StrictlySorted(n.keys) && m + 1 < |n.keys|
    requires !left.isLeaf && left.keys == n.keys[..m + 1] && left.children == n.children[..m + 1] + [n.children[m + 1]]
    ensures Routed(left, lo, Some(n.keys[m]))
  {
    var sep := n.keys[m];
    forall i | 0 <= i < |left.keys|
      ensures Above(left.keys[i], lo) && AtMost(left.keys[i], Some(sep))
    {
      assert left.keys[i] == n.keys[i];
    }
    forall i | 0 <= i < |left.children|
      ensures Routed(left.children[i], ChildLo(left, lo, i), ChildHi(left, Some(sep), i))
    {
      if i <= m {
        assert left.children[i] == n.children[i];
        assert ChildLo(left, lo, i) == ChildLo(n, lo, i);
        assert ChildHi(left, Some(sep), i) == ChildHi(n, hi, i);
      } else {
        assert !NonEmpty(ChildLo(left, lo, i), ChildHi(left, Some(sep), i));
      }
    }
  }

  /** The sibling takes the separators after the median with their children and ranges. */
  lemma SplitInnerRight<V>(n: Node<V>, lo: Option<int>, hi: Option<int>, order: nat)
    requires Valid(n, lo, hi) && NonEmpty(lo, hi) && !n.isLeaf
    requires IsOverflow(n, order) && order >= 2
    ensures var m := MedianIndex(order);
      && m + 1 < |n.keys| && Below(n.keys[m], hi)
      && Valid(Split(n, order).1, Some(n.keys[m]), hi)
  {
    var right := Split(n, order).1;
    var m := MedianIndex(order);
    assert Below(n.keys[m], hi) by { assert n.keys[m] < n.keys[m + 1]; }
    SplitRightStructural(n, right, m);
    StructuralShaped(right);
    SplitRightRouted(n, lo, hi, right, m);
  }

  /** The separators after the median with their children are structurally sound. */
  lemma SplitRightStructural<V>(n: Node<V>, right: Node<V>, m: nat)
    requires Structural(n) && !n.isLeaf && m + 1 < |n.keys|
    requires !right.isLeaf && right.keys == n.keys[m + 1..] && right.children == n.children[m + 1..]
    ensures Structural(right)
  {
    assert forall i :: 0 <= i < |right.children| ==> right.children[i] == n.children[m + 1 + i];
    assert forall i :: 0 <= i < |right.keys| ==> right.keys[i] == n.keys[m + 1 + i];
    SliceSorted(n.keys, m + 1, |n.keys|);
    assert n.keys[m + 1..] == n.keys[m + 1..|n.keys|];
    forall i | 1 <= i < |right.children|
      ensures FindLeafEntry(right.children[i]) == right.keys[i - 1]
    {
      assert FindLeafEntry(n.children[m + 1 + i]) == n.keys[m + i];
    }
  }

  /** The same suffix is routed for [keys[m], hi): each child keeps its range. */
  lemma SplitRightRouted<V>(n: Node<V>, lo: Option<int>, hi: Option<int>, right: Node<V>, m: nat)
    requires Routed(n, lo, hi) && NonEmpty(lo, hi) && !n.isLeaf && StrictlySorted(n.keys) && m + 1 < |n.keys|
    requires !right.isLeaf && right.keys == n.keys[m + 1..] && right.children == n.children[m + 1..]
    ensures Routed(right, Some(n.keys[m]), hi)
  {
    var sep := n.keys[m];
    forall i | 0 <= i < |right.keys|
      ensures Above(right.keys[i], Some(sep)) && AtMost(right.keys[i], hi)
    {
      assert right.keys[i] == n.keys[m + 1 + i];
    }
    forall i | 0 <= i < |right.children|
      ensures Routed(right.children[i], ChildLo(right, Some(sep), i), ChildHi(right, hi, i))
    {
      assert right.children[i] == n.children[m + 1 + i];
      assert ChildLo(right, Some(sep), i) == ChildLo(n, lo, m + 1 + i);
      assert ChildHi(right, hi, i) == ChildHi(n, hi, m + 1 + i);
    }
  }

  /** Below the median separator a query goes left, from it on right, to the same child as before. */
  lemma SplitInnerQueries<V>(n: Node<V>, lo: Option<int>, hi: Option<int>, order: nat)
    requires Valid(n, lo, hi) && !n.isLeaf
    requires IsOverflow(n, order) && order >= 2
    ensures var m := MedianIndex(order);
      && m + 1 < |n.keys| && Routable(Split(n, order).0) && Routable(Split(n, order).1)
      && forall q :: Query(if q < n.keys[m] then Split(n, order).0 else Split(n, order).1, q) == Query(n, q)
  {
    SplitInnerRoutable(n, order);
    var left, right := Split(n, order).0, Split(n, order).1;
    var m := MedianIndex(order);
    assert left.children[..m + 1] == n.children[..m + 1];
    forall q
      ensures Query(if q < n.keys[m] then left else right, q) == Query(n, q)
    {
      SplitInnerQuery(n, left, right, m, q);
    }
  }

  /** An inner node answers a query with the child its upper bound selects. */
  lemma QueryInner<V>(n: Node<V>, q: int)
    requires !n.isLeaf && Routable(n)
    ensures UpperBound(n.keys, q) < |n.children| && Query(n, q) == Query(n.children[UpperBound(n.keys, q)], q)
  {
  }

  /** Both halves of an inner split can be descended: their children are the node's. */
  lemma SplitInnerRoutable<V>(n: Node<V>, order: nat)
    requires !n.isLeaf && Routable(n) && |n.children| == |n.keys| + 1
    requires IsOverflow(n, order) && order >= 2
    ensures MedianIndex(order) + 1 < |n.keys|
    ensures Routable(Split(n, order).0) && Routable(Split(n, order).1)
  {
    var (left, right) := Split(n, order);
    assert forall i :: 0 <= i < |left.children| ==> left.children[i] in n.children;
    assert forall i :: 0 <= i < |right.children| ==> right.children[i] in n.children;
  }

  /** One query after an inner split at m reaches the child it reached before. */
  lemma SplitInnerQuery<V>(n: Node<V>, left: Node<V>, right: Node<V>, m: nat, q: int)
    requires !n.isLeaf && Routable(n) && StrictlySorted(n.keys) && m + 1 < |n.keys|
    requires !left.isLeaf && Routable(left) && left.keys == n.keys[..m + 1]
    requires |left.children| > m && left.children[..m + 1] == n.children[..m + 1]
    requires !right.isLeaf && Routable(right) && right.keys == n.keys[m + 1..] && right.children == n.children[m + 1..]
    ensures Query(if q < n.keys[m] then left else right, q) == Query(n, q)
  {
    if q < n.keys[m] {
      SplitInnerQueryLeft(n, left, m, q);
    } else {
      SplitInnerQueryRight(n, right, m, q);
    }
  }

  lemma SplitInnerQueryLeft<V>(n: Node<V>, left: Node<V>, m: nat, q: int)
    requires !n.isLeaf && Routable(n) && m + 1 < |n.keys| && q < n.keys[m]
    requires !left.isLeaf && Routable(left) && left.keys == n.keys[..m + 1]
    requires |left.children| > m && left.children[..m + 1] == n.children[..m + 1]
    ensures Query(left, q) == Query(n, q)
  {
    var j := UpperBound(n.keys, q);
    QueryInner(n, q);
    assert j <= m;
    UpperBoundSlice(n.keys, q, 0, m + 1);
    assert UpperBound(left.keys, q) == j by {
      assert left.keys == n.keys[0..m + 1];
    }
    assert left.children[j] == n.children[j] by {
      assert left.children[j] == left.children[..m + 1][j];
    }
    QueryInner(left, q);
  }

  lemma SplitInnerQueryRight<V>(n: Node<V>, right: Node<V>, m: nat, q: int)
    requires !n.isLeaf && Routable(n) && StrictlySorted(n.keys) && m + 1 < |n.keys| && n.keys[m] <= q
    requires !right.isLeaf && Routable(right) && right.keys == n.keys[m + 1..] && right.children == n.children[m + 1..]
    ensures Query(right, q) == Query(n, q)
  {
    var j := UpperBound(n.keys, q);
    QueryInner(n, q);
    assert j > m;
    UpperBoundSlice(n.keys, q, m + 1, |n.keys|);
    assert UpperBound(right.keys, q) == j - m - 1 by {
      assert right.keys == n.keys[m + 1..|n.keys|];
    }
    QueryInner(right, q);
  }

  /** A slice that contains the upper bound's position has it at the shifted position. */
  lemma UpperBoundSlice(keys: seq<int>, q: int, a: nat, b: nat)
    requires a <= UpperBound(keys, q) <= b <= |keys|
    ensures UpperBound(keys[a..b], q) == UpperBound(keys, q) - a
  {
    var j := UpperBound(keys, q);
    UpperBoundIs(keys[a..b], q, j - a);
  }

  // ---------------------------------------------------------------------
  // Inserts
  // ---------------------------------------------------------------------

  /** What a query should answer once k maps to v. */
  ghost function Updated<V>(n: Node<V>, k: int, v: V, q: int): Option<V>
    requires Routable(n)
  {
    if q == k then Some(v) else Query(n, q)
  }

  /**
   * What an insert into a node responsible for [lo, hi) must deliver: the
   * leftmost key becomes the smaller of the old one and k, and either the
   * node stays valid for its whole range or it and its new sibling split
   * that range at the sibling's leftmost key; either way every query in
   * range sees k mapped to v and nothing else changed.
   */
  ghost predicate InsertOutcome<V>(n: Node<V>, lo: Option<int>, hi: Option<int>, k: int, v: V, r: (Node<V>, Option<Node<V>>))
  {
    && Routable(n) && HasLeftmost(n) && HasLeftmost(r.0)
    && r.0.isLeaf == n.isLeaf
    && FindLeafEntry(r.0) == Min(FindLeafEntry(n), k)
    && match r.1
       case None =>
         && Valid(r.0, lo, hi)
         && forall q :: InRange(q, lo, hi) ==> Query(r.0, q) == Updated(n, k, v, q)
       case Some(s) =>
         && HasLeftmost(s) && s.isLeaf == n.isLeaf
         && Above(FindLeafEntry(s), lo) && Below(FindLeafEntry(s), hi)
         && Valid(r.0, lo, Some(FindLeafEntry(s))) && Valid(s, Some(FindLeafEntry(s)), hi)
         && forall q :: InRange(q, lo, hi) ==> Query(if q < FindLeafEntry(s) then r.0 else s, q) == Updated(n, k, v, q)
  }

  /** Overwriting the value at index i of a leaf maps that index's key to the new value. */
  lemma LeafReplaceQueries<V>(n: Node<V>, i: nat, v: V)
    requires n.isLeaf && StrictlySorted(n.keys) && |n.values| == |n.keys| && i < |n.keys|
    ensures forall q :: Query(n.(values := n.values[i := v]), q) == Updated(n, n.keys[i], v, q)
  {
    var g := n.(values := n.values[i := v]);
    forall q
      ensures Query(g, q) == Updated(n, n.keys[i], v, q)
    {
      if q in n.keys {
        var j :| 0 <= j < |n.keys| && n.keys[j] == q;
        LeafQueryAt(n, j);
        LeafQueryAt(g, j);
      }
    }
  }

  /** Inserting a fresh key at its upper bound keeps a leaf sorted and maps the key to its value. */
  lemma LeafInsertFreshQueries<V>(n: Node<V>, k: int, v: V)
    requires n.isLeaf && StrictlySorted(n.keys) && |n.values| == |n.keys| && k !in n.keys
    ensures var pos := UpperBound(n.keys, k);
      var g := n.(keys := InsertAt(n.keys, pos, k), values := InsertAt(n.values, pos, v));
      && StrictlySorted(g.keys)
      && forall q :: Query(g, q) == Updated(n, k, v, q)
  {
    var pos := UpperBound(n.keys, k);
    assert pos > 0 ==> n.keys[pos - 1] != k;
    InsertAtSorted(n.keys, pos, k);
    forall q
      ensures Query(n.(keys := InsertAt(n.keys, pos, k), values := InsertAt(n.values, pos, v)), q) == Updated(n, k, v, q)
    {
      LeafInsertFreshQuery(n, k, v, q);
    }
  }

  lemma LeafInsertFreshQuery<V>(n: Node<V>, k: int, v: V, q: int)
    requires n.isLeaf && StrictlySorted(n.keys) && |n.values| == |n.keys| && k !in n.keys
    requires var pos := UpperBound(n.keys, k); StrictlySorted(InsertAt(n.keys, pos, k))
    ensures var pos := UpperBound(n.keys, k);
      Query(n.(keys := InsertAt(n.keys, pos, k), values := InsertAt(n.values, pos, v)), q) == Updated(n, k, v, q)
  {
    var pos := UpperBound(n.keys, k);
    var g := n.(keys := InsertAt(n.keys, pos, k), values := InsertAt(n.values, pos, v));
    if q == k {
      LeafQueryAt(g, pos);
    } else if q in n.keys {
      LeafInsertFreshOther(n, g, pos, IndexOf(n.keys, q).value);
    } else {
      LeafInsertFreshMiss(n, g, pos, k, q);
    }
  }

  /** A key the leaf held keeps its value after a fresh key is inserted before or after it. */
  lemma LeafInsertFreshOther<V>(n: Node<V>, g: Node<V>, pos: nat, j: nat)
    requires n.isLeaf && StrictlySorted(n.keys) && |n.values| == |n.keys| && pos <= |n.keys| && j < |n.keys|
    requires g.isLeaf && StrictlySorted(g.keys) && |g.keys| == |n.keys| + 1 && |g.values| == |g.keys|
    requires forall i :: 0 <= i < pos ==> g.keys[i] == n.keys[i] && g.values[i] == n.values[i]
    requires forall i :: pos < i < |g.keys| ==> g.keys[i] == n.keys[i - 1] && g.values[i] == n.values[i - 1]
    ensures Query(g, n.keys[j]) == Query(n, n.keys[j])
  {
    LeafQueryAt(n, j);
    if j < pos {
      LeafQueryAt(g, j);
    } else {
      LeafQueryAt(g, j + 1);
    }
  }

  /** A key neither held nor inserted is still not found. */
  lemma LeafInsertFreshMiss<V>(n: Node<V>, g: Node<V>, pos: nat, k: int, q: int)
    requires n.isLeaf && |n.values| == |n.keys| && pos <= |n.keys| && q !in n.keys && q != k
    requires g.isLeaf && g.keys == InsertAt(n.keys, pos, k)
    ensures Query(g, q) == None && Query(n, q) == None
  {
    forall i | 0 <= i < |g.keys|
      ensures g.keys[i] != q
    {
      if i < pos {
        assert g.keys[i] == n.keys[i];
      } else if i > pos {
        assert g.keys[i] == n.keys[i - 1];
      }
    }
  }

  /**
   * The leaf case of insert. A key the leaf already holds must go in under
   * `ReplaceValue`: shifting the values is exactly what goes wrong.
   */
  lemma LeafInsertCorrect<V>(n: Node<V>, lo: Option<int>, hi: Option<int>, k: int, v: V, leafOrder: nat, policy: DuplicatePolicy)
    requires Valid(n, lo, hi) && NonEmpty(lo, hi) && n.isLeaf && InRange(k, lo, hi)
    requires leafOrder >= 2
    requires policy == ReplaceValue || Query(n, k).None?
    ensures InsertOutcome(n, lo, hi, k, v, LeafInsert(n, k, v, leafOrder, policy))
  {
    match IndexOf(n.keys, k)
    case Some(i) =>
      LeafReplaceCorrect(n, lo, hi, i, v);
    case None =>
      LeafFreshCorrect(n, lo, hi, k, v, leafOrder);
  }

  /** Replacing the value of a held key leaves a valid leaf answering with the new value. */
  lemma LeafReplaceCorrect<V>(n: Node<V>, lo: Option<int>, hi: Option<int>, i: nat, v: V)
    requires Valid(n, lo, hi) && NonEmpty(lo, hi) && n.isLeaf && i < |n.keys|
    ensures InsertOutcome(n, lo, hi, n.keys[i], v, (n.(values := n.values[i := v]), None))
  {
    LeafReplaceQueries(n, i, v);
    assert n.keys[0] <= n.keys[i];
  }

  /** Inserting a fresh key into a leaf, with a split on overflow. */
  lemma LeafFreshCorrect<V>(n: Node<V>, lo: Option<int>, hi: Option<int>, k: int, v: V, leafOrder: nat)
    requires Valid(n, lo, hi) && NonEmpty(lo, hi) && n.isLeaf && InRange(k, lo, hi) && k !in n.keys
    requires leafOrder >= 2
    ensures var pos := UpperBound(n.keys, k);
      var g := n.(keys := InsertAt(n.keys, pos, k), values := InsertAt(n.values, pos, v));
      InsertOutcome(n, lo, hi, k, v, if IsOverflow(g, leafOrder) then (Split(g, leafOrder).0, Some(Split(g, leafOrder).1)) else (g, None))
  {
    var pos := UpperBound(n.keys, k);
    var g := n.(keys := InsertAt(n.keys, pos, k), values := InsertAt(n.values, pos, v));
    LeafInsertFreshQueries(n, k, v);
    LeafFreshValid(n, lo, hi, k, v);
    if IsOverflow(g, leafOrder) {
      SplitOutcome(n, lo, hi, k, v, g, leafOrder);
    }
  }

  /** A node that took the insert and overflows: its split halves are an insert outcome. */
  lemma SplitOutcome<V>(n: Node<V>, lo: Option<int>, hi: Option<int>, k: int, v: V, g: Node<V>, order: nat)
    requires Routable(n) && HasLeftmost(n) && NonEmpty(lo, hi)
    requires Valid(g, lo, hi) && g.isLeaf == n.isLeaf && IsOverflow(g, order) && order >= 2
    requires FindLeafEntry(g) == Min(FindLeafEntry(n), k)
    requires forall q :: InRange(q, lo, hi) ==> Query(g, q) == Updated(n, k, v, q)
    ensures InsertOutcome(n, lo, hi, k, v, (Split(g, order).0, Some(Split(g, order).1)))
  {
    if g.isLeaf {
      SplitLeafCorrect(g, lo, hi, order);
    } else {
      SplitInnerCorrect(g, lo, hi, order);
    }
  }

  /** The leaf with a fresh key inserted is valid for the same range and has the smaller leftmost key. */
  lemma LeafFreshValid<V>(n: Node<V>, lo: Option<int>, hi: Option<int>, k: int, v: V)
    requires Valid(n, lo, hi) && NonEmpty(lo, hi) && n.isLeaf && InRange(k, lo, hi) && k !in n.keys
    requires StrictlySorted(InsertAt(n.keys, UpperBound(n.keys, k), k))
    ensures var pos := UpperBound(n.keys, k);
      var g := n.(keys := InsertAt(n.keys, pos, k), values := InsertAt(n.values, pos, v));
      Valid(g, lo, hi) && FindLeafEntry(g) == Min(FindLeafEntry(n), k)
  {
    var pos := UpperBound(n.keys, k);
    var g := n.(keys := InsertAt(n.keys, pos, k), values := InsertAt(n.values, pos, v));
    assert pos > 0 ==> n.keys[0] <= n.keys[pos - 1];
    forall i | 0 <= i < |g.keys|
      ensures InRange(g.keys[i], lo, hi)
    {
      if i < pos {
        assert g.keys[i] == n.keys[i];
      } else if i > pos {
        assert g.keys[i] == n.keys[i - 1];
      }
    }
  }

  /** A child of a valid node is valid for its own range. */
  lemma ChildValid<V>(n: Node<V>, lo: Option<int>, hi: Option<int>, i: nat)
    requires Valid(n, lo, hi) && NonEmpty(lo, hi) && !n.isLeaf && i < |n.children|
    ensures Valid(n.children[i], ChildLo(n, lo, i), ChildHi(n, hi, i))
  {
    StructuralShaped(n.children[i]);
  }

  /** An inner node whose routed child took the insert without splitting. */
  lemma InnerReplaceChild<V>(n: Node<V>, lo: Option<int>, hi: Option<int>, k: int, v: V, c2: Node<V>)
    requires Valid(n, lo, hi) && NonEmpty(lo, hi) && !n.isLeaf && InRange(k, lo, hi)
    requires var pos := UpperBound(n.keys, k);
      InsertOutcome(n.children[pos], ChildLo(n, lo, pos), ChildHi(n, hi, pos), k, v, (c2, None))
    ensures InsertOutcome(n, lo, hi, k, v, (n.(children := n.children[UpperBound(n.keys, k) := c2]), None))
  {
    ReplaceOutcomeValid(n, lo, hi, k, v, c2);
    ReplaceChildQueries(n, lo, hi, k, v, c2);
  }

  lemma ReplaceOutcomeValid<V>(n: Node<V>, lo: Option<int>, hi: Option<int>, k: int, v: V, c2: Node<V>)
    requires Valid(n, lo, hi) && NonEmpty(lo, hi) && !n.isLeaf && InRange(k, lo, hi)
    requires var pos := UpperBound(n.keys, k);
      InsertOutcome(n.children[pos], ChildLo(n, lo, pos), ChildHi(n, hi, pos), k, v, (c2, None))
    ensures var u := n.(children := n.children[UpperBound(n.keys, k) := c2]);
      Valid(u, lo, hi) && FindLeafEntry(u) == Min(FindLeafEntry(n), k)
  {
    var pos := UpperBound(n.keys, k);
    var c := n.children[pos];
    assert c in n.children;
    if pos > 0 {
      assert FindLeafEntry(c) == n.keys[pos - 1] <= k;
      LeftmostInRange(n, lo, hi);
    }
    ReplaceChildValid(n, lo, hi, pos, c2);
  }

  /** Replacing a child by one valid for the same range, with the same leftmost key, keeps the node valid. */
  lemma ReplaceChildValid<V>(n: Node<V>, lo: Option<int>, hi: Option<int>, pos: nat, c2: Node<V>)
    requires Valid(n, lo, hi) && NonEmpty(lo, hi) && !n.isLeaf && pos < |n.children|
    requires Valid(c2, ChildLo(n, lo, pos), ChildHi(n, hi, pos))
    requires pos > 0 ==> FindLeafEntry(c2) == n.keys[pos - 1]
    ensures Valid(n.(children := n.children[pos := c2]), lo, hi)
  {
    ReplaceChildStructural(n, pos, c2);
    StructuralShaped(n.(children := n.children[pos := c2]));
    ReplaceChildRouted(n, lo, hi, pos, c2);
  }

  /** The queries of a node whose child on k's route was replaced by that child after the insert. */
  lemma ReplaceChildQueries<V>(n: Node<V>, lo: Option<int>, hi: Option<int>, k: int, v: V, c2: Node<V>)
    requires !n.isLeaf && Routable(n) && Routable(c2)
    requires var pos := UpperBound(n.keys, k);
      forall q :: InRange(q, ChildLo(n, lo, pos), ChildHi(n, hi, pos)) ==> Query(c2, q) == Updated(n.children[pos], k, v, q)
    ensures forall q :: InRange(q, lo, hi) ==> Query(n.(children := n.children[UpperBound(n.keys, k) := c2]), q) == Updated(n, k, v, q)
  {
    var pos := UpperBound(n.keys, k);
    forall q | InRange(q, lo, hi)
      ensures Query(n.(children := n.children[pos := c2]), q) == Updated(n, k, v, q)
    {
      ReplaceChildQuery(n, pos, c2, q);
      if UpperBound(n.keys, q) == pos {
        QueryInner(n, q);
        assert InRange(q, ChildLo(n, lo, pos), ChildHi(n, hi, pos));
      }
    }
  }

  /** Replacing a child by a sound node with the same leftmost key keeps the node sound. */
  lemma ReplaceChildStructural<V>(n: Node<V>, pos: nat, c2: Node<V>)
    requires Structural(n) && !n.isLeaf && pos < |n.children|
    requires Structural(c2) && HasLeftmost(c2)
    requires pos > 0 ==> FindLeafEntry(c2) == n.keys[pos - 1]
    ensures Structural(n.(children := n.children[pos := c2]))
  {
    var u := n.(children := n.children[pos := c2]);
    forall i | 0 <= i < |u.children|
      ensures Structural(u.children[i]) && HasLeftmost(u.children[i])
    {
      if i != pos {
        assert u.children[i] == n.children[i];
      }
    }
    forall i | 1 <= i < |u.children|
      ensures FindLeafEntry(u.children[i]) == u.keys[i - 1]
    {
      if i != pos {
        assert u.children[i] == n.children[i];
      }
    }
  }

  /** Replacing a child by one routed for the same range keeps the node routed. */
  lemma ReplaceChildRouted<V>(n: Node<V>, lo: Option<int>, hi: Option<int>, pos: nat, c2: Node<V>)
    requires Routed(n, lo, hi) && NonEmpty(lo, hi) && !n.isLeaf
    requires |n.children| == |n.keys| + 1 && pos < |n.children|
    requires Routed(c2, ChildLo(n, lo, pos), ChildHi(n, hi, pos))
    ensures Routed(n.(children := n.children[pos := c2]), lo, hi)
  {
    var u := n.(children := n.children[pos := c2]);
    forall i | 0 <= i < |u.children|
      ensures Routed(u.children[i], ChildLo(u, lo, i), ChildHi(u, hi, i))
    {
      assert ChildLo(u, lo, i) == ChildLo(n, lo, i) && ChildHi(u, hi, i) == ChildHi(n, hi, i);
    }
  }

  /** After replacing child pos, the queries routed there go to the new child and all others as before. */
  lemma ReplaceChildQuery<V>(n: Node<V>, pos: nat, c2: Node<V>, q: int)
    requires !n.isLeaf && Routable(n) && Routable(c2) && pos < |n.children|
    ensures Routable(n.(children := n.children[pos := c2]))
    ensures Query(n.(children := n.children[pos := c2]), q) ==
      if UpperBound(n.keys, q) == pos then Query(c2, q) else Query(n, q)
  {
    var u := n.(children := n.children[pos := c2]);
    assert forall i :: 0 <= i < |u.children| ==> Routable(u.children[i]) by {
      forall i | 0 <= i < |u.children|
        ensures Routable(u.children[i])
      {
        if i != pos {
          assert u.children[i] == n.children[i];
        }
      }
    }
    QueryInner(u, q);
    QueryInner(n, q);
  }

  /** The separator of a split child lies strictly inside that child's range. */
  ghost predicate SepFits<V>(n: Node<V>, lo: Option<int>, hi: Option<int>, pos: nat, sep: int) {
    pos <= |n.keys| && Above(sep, ChildLo(n, lo, pos)) && Below(sep, ChildHi(n, hi, pos))
  }

  /** The node after child pos became c2 and its new sibling s was filed right after it. */
  ghost function Grown<V>(n: Node<V>, pos: nat, c2: Node<V>, s: Node<V>): Node<V>
    requires |n.children| == |n.keys| + 1 && pos <= |n.keys| && HasLeftmost(s)
  {
    n.(keys := InsertAt(n.keys, pos, FindLeafEntry(s)), children := InsertAt(n.children[pos := c2], pos + 1, s))
  }

  lemma GrownStructural<V>(n: Node<V>, lo: Option<int>, hi: Option<int>, pos: nat, c2: Node<V>, s: Node<V>)
    requires Structural(n) && !n.isLeaf && HasLeftmost(s) && SepFits(n, lo, hi, pos, FindLeafEntry(s))
    requires Structural(c2) && HasLeftmost(c2) && Structural(s)
    requires pos > 0 ==> FindLeafEntry(c2) == n.keys[pos - 1]
    ensures Structural(Grown(n, pos, c2, s))
    ensures FindLeafEntry(Grown(n, pos, c2, s)) == if pos == 0 then FindLeafEntry(c2) else FindLeafEntry(n)
  {
    var sep := FindLeafEntry(s);
    var g := Grown(n, pos, c2, s);
    InsertAtSorted(n.keys, pos, sep);
    forall i | 0 <= i < |g.children|
      ensures Structural(g.children[i]) && HasLeftmost(g.children[i])
    {
      if i < pos {
        assert g.children[i] == n.children[i];
      } else if i == pos {
        assert g.children[i] == c2;
      } else if i == pos + 1 {
        assert g.children[i] == s;
      } else {
        assert g.children[i] == n.children[i - 1];
      }
    }
    forall i | 1 <= i < |g.children|
      ensures FindLeafEntry(g.children[i]) == g.keys[i - 1]
    {
      if i < pos {
        assert g.children[i] == n.children[i];
      } else if i == pos {
        assert g.children[i] == c2;
      } else if i == pos + 1 {
        assert g.children[i] == s;
      } else {
        assert g.children[i] == n.children[i - 1];
      }
    }
    if pos > 0 {
      assert g.children[0] == n.children[0];
    } else {
      assert g.children[0] == c2;
    }
  }

  /** The separators of the grown node stay inside the node's range. */
  lemma GrownKeysRouted<V>(n: Node<V>, lo: Option<int>, hi: Option<int>, pos: nat, c2: Node<V>, s: Node<V>)
    requires Routed(n, lo, hi) && NonEmpty(lo, hi) && !n.isLeaf && |n.children| == |n.keys| + 1
    requires HasLeftmost(s) && SepFits(n, lo, hi, pos, FindLeafEntry(s))
    ensures var g := Grown(n, pos, c2, s);
      forall i :: 0 <= i < |g.keys| ==> Above(g.keys[i], lo) && AtMost(g.keys[i], hi)
  {
    var sep := FindLeafEntry(s);
    var g := Grown(n, pos, c2, s);
    assert Above(sep, lo) && AtMost(sep, hi) by {
      if pos > 0 {
        assert Above(n.keys[pos - 1], lo);
      }
      if pos < |n.keys| {
        assert AtMost(n.keys[pos], hi);
      }
    }
    forall i | 0 <= i < |g.keys|
      ensures Above(g.keys[i], lo) && AtMost(g.keys[i], hi)
    {
      if i < pos {
        assert g.keys[i] == n.keys[i];
      } else if i > pos {
        assert g.keys[i] == n.keys[i - 1];
      }
    }
  }

  /** Each child of the grown node is responsible for the same keys as before, or for one side of the separator. */
  lemma GrownChildRouted<V>(n: Node<V>, lo: Option<int>, hi: Option<int>, pos: nat, c2: Node<V>, s: Node<V>, i: nat)
    requires Routed(n, lo, hi) && NonEmpty(lo, hi) && !n.isLeaf && |n.children| == |n.keys| + 1
    requires HasLeftmost(s) && SepFits(n, lo, hi, pos, FindLeafEntry(s))
    requires Routed(c2, ChildLo(n, lo, pos), Some(FindLeafEntry(s)))
    requires Routed(s, Some(FindLeafEntry(s)), ChildHi(n, hi, pos))
    requires i < |n.children| + 1
    ensures var g := Grown(n, pos, c2, s);
      Routed(g.children[i], ChildLo(g, lo, i), ChildHi(g, hi, i))
  {
    var sep := FindLeafEntry(s);
    var g := Grown(n, pos, c2, s);
    if i < pos {
      assert g.children[i] == n.children[i];
      assert ChildLo(g, lo, i) == ChildLo(n, lo, i) && ChildHi(g, hi, i) == ChildHi(n, hi, i);
    } else if i == pos {
      assert g.children[i] == c2;
      assert ChildLo(g, lo, i) == ChildLo(n, lo, pos) && ChildHi(g, hi, i) == Some(sep);
    } else if i == pos + 1 {
      assert g.children[i] == s;
      assert ChildLo(g, lo, i) == Some(sep) && ChildHi(g, hi, i) == ChildHi(n, hi, pos);
    } else {
      assert g.children[i] == n.children[i - 1];
      assert ChildLo(g, lo, i) == ChildLo(n, lo, i - 1) && ChildHi(g, hi, i) == ChildHi(n, hi, i - 1);
    }
  }

  /** Where a query is routed once a separator is inserted between its neighbours. */
  lemma InsertAtUpperBound(keys: seq<int>, pos: nat, sep: int, q: int)
    requires pos <= |keys|
    requires pos < |keys| ==> sep < keys[pos]
    ensures var jn := UpperBound(keys, q);
      UpperBound(InsertAt(keys, pos, sep), q) ==
        if jn < pos then jn else if jn > pos then jn + 1 else if q < sep then pos else pos + 1
  {
    var jn := UpperBound(keys, q);
    if jn < pos {
      InsertBeforeBound(keys, pos, sep, q);
    } else if jn > pos {
      InsertAfterBound(keys, pos, sep, q);
    } else {
      InsertAtBound(keys, pos, sep, q);
    }
  }

  lemma InsertBeforeBound(keys: seq<int>, pos: nat, sep: int, q: int)
    requires UpperBound(keys, q) < pos <= |keys|
    ensures UpperBound(InsertAt(keys, pos, sep), q) == UpperBound(keys, q)
  {
    var ks, jn := InsertAt(keys, pos, sep), UpperBound(keys, q);
    assert ks[jn] == keys[jn];
    UpperBoundIs(ks, q, jn);
  }

  lemma InsertAfterBound(keys: seq<int>, pos: nat, sep: int, q: int)
    requires pos < UpperBound(keys, q) && sep < keys[pos]
    ensures UpperBound(InsertAt(keys, pos, sep), q) == UpperBound(keys, q) + 1
  {
    var ks, jn := InsertAt(keys, pos, sep), UpperBound(keys, q);
    forall i | 0 <= i < jn + 1
      ensures ks[i] <= q
    {
      if i > pos {
        assert ks[i] == keys[i - 1];
      }
    }
    UpperBoundIs(ks, q, jn + 1);
  }

  lemma InsertAtBound(keys: seq<int>, pos: nat, sep: int, q: int)
    requires UpperBound(keys, q) == pos <= |keys|
    ensures UpperBound(InsertAt(keys, pos, sep), q) == if q < sep then pos else pos + 1
  {
    var ks := InsertAt(keys, pos, sep);
    if q < sep {
      UpperBoundIs(ks, q, pos);
    } else {
      assert pos < |keys| ==> ks[pos + 1] == keys[pos];
      UpperBoundIs(ks, q, pos + 1);
    }
  }

  /** A query on the grown node goes where it went before, or to c2 or s when it went to child pos. */
  lemma GrownQuery<V>(n: Node<V>, lo: Option<int>, hi: Option<int>, pos: nat, c2: Node<V>, s: Node<V>, q: int)
    requires !n.isLeaf && |n.children| == |n.keys| + 1 && StrictlySorted(n.keys)
    requires HasLeftmost(s) && SepFits(n, lo, hi, pos, FindLeafEntry(s))
    requires Routable(n) && Routable(c2) && Routable(s) && Routable(Grown(n, pos, c2, s))
    ensures Query(Grown(n, pos, c2, s), q) ==
      if UpperBound(n.keys, q) != pos then Query(n, q)
      else if q < FindLeafEntry(s) then Query(c2, q)
      else Query(s, q)
  {
    var sep := FindLeafEntry(s);
    var g := Grown(n, pos, c2, s);
    var jn := UpperBound(n.keys, q);
    assert pos < |n.keys| ==> sep < n.keys[pos] by {
      if pos < |n.keys| {
        assert ChildHi(n, hi, pos) == Some(n.keys[pos]);
      }
    }
    InsertAtUpperBound(n.keys, pos, sep, q);
    if jn < pos || jn > pos {
      GrownChildOld(n, pos, c2, s, jn);
      SameChildQuery(n, g, q);
    } else if q < sep {
      GrownRoutesAt(n, pos, c2, s, q, pos);
    } else {
      GrownRoutesAt(n, pos, c2, s, q, pos + 1);
    }
  }

  /** Two inner nodes that route q to the same child answer it alike. */
  lemma SameChildQuery<V>(n: Node<V>, g: Node<V>, q: int)
    requires !n.isLeaf && !g.isLeaf && Routable(n) && Routable(g)
    requires UpperBound(g.keys, q) < |g.children| && UpperBound(n.keys, q) < |n.children|
    requires g.children[UpperBound(g.keys, q)] == n.children[UpperBound(n.keys, q)]
    ensures Query(g, q) == Query(n, q)
  {
    QueryInner(n, q);
    QueryInner(g, q);
  }

  /** Child i of n sits at i or i + 1 in the grown node, unless it is the replaced child pos. */
  lemma GrownChildOld<V>(n: Node<V>, pos: nat, c2: Node<V>, s: Node<V>, i: nat)
    requires |n.children| == |n.keys| + 1 && pos <= |n.keys| && HasLeftmost(s)
    requires i < |n.children| && i != pos
    ensures Grown(n, pos, c2, s).children[if i < pos then i else i + 1] == n.children[i]
  {
  }

  /** A query routed to child pos or pos + 1 of the grown node reaches c2 or s. */
  lemma GrownRoutesAt<V>(n: Node<V>, pos: nat, c2: Node<V>, s: Node<V>, q: int, j: nat)
    requires |n.children| == |n.keys| + 1 && pos <= |n.keys| && HasLeftmost(s)
    requires Routable(c2) && Routable(s) && Routable(Grown(n, pos, c2, s))
    requires !n.isLeaf && UpperBound(Grown(n, pos, c2, s).keys, q) == j && (j == pos || j == pos + 1)
    ensures Query(Grown(n, pos, c2, s), q) == Query(if j == pos then c2 else s, q)
  {
    var g := Grown(n, pos, c2, s);
    QueryInner(g, q);
    assert g.children[pos] == c2 && g.children[pos + 1] == s;
  }

  /** The grown node is valid and answers every query in range with k mapped to v. */
  lemma GrownCorrect<V>(n: Node<V>, lo: Option<int>, hi: Option<int>, k: int, v: V, c2: Node<V>, s: Node<V>)
    requires Valid(n, lo, hi) && NonEmpty(lo, hi) && !n.isLeaf && InRange(k, lo, hi)
    requires var pos := UpperBound(n.keys, k);
      InsertOutcome(n.children[pos], ChildLo(n, lo, pos), ChildHi(n, hi, pos), k, v, (c2, Some(s)))
    ensures var g := Grown(n, UpperBound(n.keys, k), c2, s);
      && Valid(g, lo, hi)
      && FindLeafEntry(g) == Min(FindLeafEntry(n), k)
      && forall q :: InRange(q, lo, hi) ==> Query(g, q) == Updated(n, k, v, q)
  {
    GrownOutcomeValid(n, lo, hi, k, v, c2, s);
    GrownQueries(n, lo, hi, k, v, c2, s);
  }

  lemma GrownOutcomeValid<V>(n: Node<V>, lo: Option<int>, hi: Option<int>, k: int, v: V, c2: Node<V>, s: Node<V>)
    requires Valid(n, lo, hi) && NonEmpty(lo, hi) && !n.isLeaf && InRange(k, lo, hi)
    requires var pos := UpperBound(n.keys, k);
      InsertOutcome(n.children[pos], ChildLo(n, lo, pos), ChildHi(n, hi, pos), k, v, (c2, Some(s)))
    ensures var g := Grown(n, UpperBound(n.keys, k), c2, s);
      Valid(g, lo, hi) && FindLeafEntry(g) == Min(FindLeafEntry(n), k)
  {
    var pos := UpperBound(n.keys, k);
    var c := n.children[pos];
    assert c in n.children;
    assert pos > 0 ==> FindLeafEntry(c) == n.keys[pos - 1] <= k;
    GrownValid(n, lo, hi, pos, c2, s);
    if pos > 0 {
      LeftmostInRange(n, lo, hi);
    }
  }

  /** Filing a split child's halves keeps the node valid; its leftmost key is the first half's when pos is 0. */
  lemma GrownValid<V>(n: Node<V>, lo: Option<int>, hi: Option<int>, pos: nat, c2: Node<V>, s: Node<V>)
    requires Valid(n, lo, hi) && NonEmpty(lo, hi) && !n.isLeaf
    requires HasLeftmost(s) && SepFits(n, lo, hi, pos, FindLeafEntry(s))
    requires Valid(c2, ChildLo(n, lo, pos), Some(FindLeafEntry(s)))
    requires Valid(s, Some(FindLeafEntry(s)), ChildHi(n, hi, pos))
    requires pos > 0 ==> FindLeafEntry(c2) == n.keys[pos - 1]
    ensures Valid(Grown(n, pos, c2, s), lo, hi)
    ensures FindLeafEntry(Grown(n, pos, c2, s)) == if pos == 0 then FindLeafEntry(c2) else FindLeafEntry(n)
  {
    var g := Grown(n, pos, c2, s);
    GrownStructural(n, lo, hi, pos, c2, s);
    StructuralShaped(g);
    GrownKeysRouted(n, lo, hi, pos, c2, s);
    forall i | 0 <= i < |g.children|
      ensures Routed(g.children[i], ChildLo(g, lo, i), ChildHi(g, hi, i))
    {
      GrownChildRouted(n, lo, hi, pos, c2, s, i);
    }
  }

  /** The queries of the grown node: k mapped to v, every other key as before. */
  lemma GrownQueries<V>(n: Node<V>, lo: Option<int>, hi: Option<int>, k: int, v: V, c2: Node<V>, s: Node<V>)
    requires !n.isLeaf && |n.children| == |n.keys| + 1 && StrictlySorted(n.keys) && Routable(n)
    requires var pos := UpperBound(n.keys, k);
      && HasLeftmost(s) && SepFits(n, lo, hi, pos, FindLeafEntry(s))
      && Routable(c2) && Routable(s) && Routable(Grown(n, pos, c2, s))
      && forall q :: InRange(q, ChildLo(n, lo, pos), ChildHi(n, hi, pos)) ==>
           Query(if q < FindLeafEntry(s) then c2 else s, q) == Updated(n.children[pos], k, v, q)
    ensures forall q :: InRange(q, lo, hi) ==> Query(Grown(n, UpperBound(n.keys, k), c2, s), q) == Updated(n, k, v, q)
  {
    var pos := UpperBound(n.keys, k);
    forall q | InRange(q, lo, hi)
      ensures Query(Grown(n, pos, c2, s), q) == Updated(n, k, v, q)
    {
      GrownQuery(n, lo, hi, pos, c2, s, q);
      if UpperBound(n.keys, q) == pos {
        QueryInner(n, q);
        assert InRange(q, ChildLo(n, lo, pos), ChildHi(n, hi, pos));
      }
    }
  }

  /** Replacing the routed child by its updated version keeps an inner node well shaped. */
  lemma ReplaceChildShaped<V>(n: Node<V>, pos: nat, c2: Node<V>)
    requires WellShaped(n) && !n.isLeaf && pos < |n.children|
    requires WellShaped(c2) && HasLeftmost(c2)
    ensures WellShaped(n.(children := n.children[pos := c2]))
  {
    var u := n.(children := n.children[pos := c2]);
    forall i | 0 <= i < |u.children|
      ensures WellShaped(u.children[i]) && HasLeftmost(u.children[i])
    {
      if i == pos {
      }
    }
  }

  /** An inner node whose routed child split: the sibling is filed, then the node may split in turn. */
  lemma InnerAbsorbCorrect<V>(n: Node<V>, lo: Option<int>, hi: Option<int>, k: int, v: V, c2: Node<V>, s: Node<V>, innerOrder: nat)
    requires Valid(n, lo, hi) && NonEmpty(lo, hi) && !n.isLeaf && InRange(k, lo, hi)
    requires var pos := UpperBound(n.keys, k);
      InsertOutcome(n.children[pos], ChildLo(n, lo, pos), ChildHi(n, hi, pos), k, v, (c2, Some(s)))
    requires innerOrder >= 2
    ensures var u := n.(children := n.children[UpperBound(n.keys, k) := c2]);
      && WellShaped(u) && WellShaped(s) && HasLeftmost(s)
      && InsertOutcome(n, lo, hi, k, v, AbsorbSibling(u, s, innerOrder))
  {
    var pos := UpperBound(n.keys, k);
    var sep := FindLeafEntry(s);
    var u := n.(children := n.children[pos := c2]);
    ReplaceChildShaped(n, pos, c2);
    SeparatorBound(n, lo, hi, pos, sep);
    GrownCorrect(n, lo, hi, k, v, c2, s);
    AbsorbIsGrown(n, pos, c2, s, innerOrder);
    MaybeSplitOutcome(n, lo, hi, k, v, Grown(n, pos, c2, s), innerOrder);
  }

  /** A node that answers like the update is the outcome, split when it overflows. */
  lemma MaybeSplitOutcome<V>(n: Node<V>, lo: Option<int>, hi: Option<int>, k: int, v: V, g: Node<V>, order: nat)
    requires Routable(n) && HasLeftmost(n) && NonEmpty(lo, hi)
    requires Valid(g, lo, hi) && g.isLeaf == n.isLeaf && order >= 2
    requires FindLeafEntry(g) == Min(FindLeafEntry(n), k)
    requires forall q :: InRange(q, lo, hi) ==> Query(g, q) == Updated(n, k, v, q)
    ensures InsertOutcome(n, lo, hi, k, v, if IsOverflow(g, order) then (Split(g, order).0, Some(Split(g, order).1)) else (g, None))
  {
    if IsOverflow(g, order) {
      SplitOutcome(n, lo, hi, k, v, g, order);
    }
  }

  /** A separator inside child pos's range is routed to child pos. */
  lemma SeparatorBound<V>(n: Node<V>, lo: Option<int>, hi: Option<int>, pos: nat, sep: int)
    requires StrictlySorted(n.keys) && SepFits(n, lo, hi, pos, sep)
    ensures UpperBound(n.keys, sep) == pos
  {
    assert pos > 0 ==> ChildLo(n, lo, pos) == Some(n.keys[pos - 1]);
    assert pos < |n.keys| ==> ChildHi(n, hi, pos) == Some(n.keys[pos]);
    UpperBoundIs(n.keys, sep, pos);
  }

  /** Filing the sibling of child pos builds the grown node, split when it overflows. */
  lemma AbsorbIsGrown<V>(n: Node<V>, pos: nat, c2: Node<V>, s: Node<V>, innerOrder: nat)
    requires !n.isLeaf && |n.children| == |n.keys| + 1 && pos <= |n.keys| && HasLeftmost(s)
    requires WellShaped(n.(children := n.children[pos := c2])) && WellShaped(s) && innerOrder >= 2
    requires UpperBound(n.keys, FindLeafEntry(s)) == pos
    ensures var g := Grown(n, pos, c2, s);
      AbsorbSibling(n.(children := n.children[pos := c2]), s, innerOrder) ==
        if IsOverflow(g, innerOrder) then (Split(g, innerOrder).0, Some(Split(g, innerOrder).1)) else (g, None)
  {
  }

  /** Insert into a valid node, by induction on the node. */
  lemma {:induction false} NodeInsertCorrect<V>(n: Node<V>, lo: Option<int>, hi: Option<int>, k: int, v: V,
                                               innerOrder: nat, leafOrder: nat, policy: DuplicatePolicy)
    requires Valid(n, lo, hi) && NonEmpty(lo, hi) && InRange(k, lo, hi)
    requires innerOrder >= 2 && leafOrder >= 2
    requires policy == ReplaceValue || Query(n, k).None?
    ensures InsertOutcome(n, lo, hi, k, v, NodeInsert(n, k, v, innerOrder, leafOrder, policy))
    decreases n
  {
    if n.isLeaf {
      LeafInsertCorrect(n, lo, hi, k, v, leafOrder, policy);
    } else {
      var pos := UpperBound(n.keys, k);
      var c := n.children[pos];
      ChildValid(n, lo, hi, pos);
      assert InRange(k, ChildLo(n, lo, pos), ChildHi(n, hi, pos));
      QueryInner(n, k);
      NodeInsertCorrect(c, ChildLo(n, lo, pos), ChildHi(n, hi, pos), k, v, innerOrder, leafOrder, policy);
      InnerInsertCorrect(n, lo, hi, k, v, innerOrder, leafOrder, policy);
    }
  }

  /** An inner node's insert is correct once the insert into its routed child is. */
  lemma InnerInsertCorrect<V>(n: Node<V>, lo: Option<int>, hi: Option<int>, k: int, v: V,
                              innerOrder: nat, leafOrder: nat, policy: DuplicatePolicy)
    requires Valid(n, lo, hi) && NonEmpty(lo, hi) && InRange(k, lo, hi) && !n.isLeaf
    requires innerOrder >= 2 && leafOrder >= 2
    requires var pos := UpperBound(n.keys, k);
      InsertOutcome(n.children[pos], ChildLo(n, lo, pos), ChildHi(n, hi, pos), k, v,
                    NodeInsert(n.children[pos], k, v, innerOrder, leafOrder, policy))
    ensures InsertOutcome(n, lo, hi, k, v, NodeInsert(n, k, v, innerOrder, leafOrder, policy))
  {
    var pos := UpperBound(n.keys, k);
    var (c2, sibling) := NodeInsert(n.children[pos], k, v, innerOrder, leafOrder, policy);
    match sibling
    case None =>
      InnerReplaceChild(n, lo, hi, k, v, c2);
    case Some(s) =>
      InnerAbsorbCorrect(n, lo, hi, k, v, c2, s, innerOrder);
  }

  // ---------------------------------------------------------------------
  // The tree
  // ---------------------------------------------------------------------

  /** The invariant of a whole tree: an empty leaf root, or a root valid for every key. */
  ghost predicate TreeValid<V>(t: Tree<V>) {
    && TreeShaped(t)
    && if |t.root.keys| == 0 then t.root.isLeaf && |t.root.values| == 0 else Valid(t.root, None, None)
  }

  lemma NewTreeValid<V>(innerOrder: nat, leafOrder: nat)
    requires innerOrder >= 2 && leafOrder >= 2
    ensures TreeValid(NewTree<V>(innerOrder, leafOrder))
  {
  }

  /** A promoted root: one separator, the old root on its left and the new sibling on its right. */
  lemma PromotedRootCorrect<V>(t: Tree<V>, k: int, v: V, root: Node<V>, s: Node<V>)
    requires Valid(t.root, None, None) && Routable(t.root)
    requires InsertOutcome(t.root, None, None, k, v, (root, Some(s)))
    ensures var r := Node([FindLeafEntry(s)], [root, s], false, []);
      && Valid(r, None, None)
      && forall q :: Query(r, q) == Updated(t.root, k, v, q)
  {
    PromotedRootValid(t.root, k, v, root, s);
    var sep := FindLeafEntry(s);
    var r := Node([sep], [root, s], false, []);
    forall q
      ensures Query(r, q) == Updated(t.root, k, v, q)
    {
      assert InRange(q, None, None);
      if q < sep {
        UpperBoundIs(r.keys, q, 0);
      } else {
        UpperBoundIs(r.keys, q, 1);
      }
    }
  }

  lemma PromotedRootValid<V>(n: Node<V>, k: int, v: V, root: Node<V>, s: Node<V>)
    requires InsertOutcome(n, None, None, k, v, (root, Some(s)))
    ensures Valid(Node([FindLeafEntry(s)], [root, s], false, []), None, None)
  {
    var sep := FindLeafEntry(s);
    var r := Node([sep], [root, s], false, []);
    assert Structural(r);
    StructuralShaped(r);
    assert Routed(r, None, None) by {
      assert ChildLo(r, None, 0) == None && ChildHi(r, None, 0) == Some(sep);
      assert ChildLo(r, None, 1) == Some(sep) && ChildHi(r, None, 1) == None;
    }
  }

  /**
   * `BPlusTree::insert` keeps the tree valid, and afterwards a query for
   * k finds v while every other query answers as before. Under
   * `ShiftValues` (the code as written) this needs k to be fresh.
   */
  lemma TreeInsertCorrect<V>(t: Tree<V>, k: int, v: V, policy: DuplicatePolicy)
    requires TreeValid(t)
    requires policy == ReplaceValue || TreeQuery(t, k).None?
    ensures TreeValid(InsertWith(t, k, v, policy))
    ensures forall q :: TreeQuery(InsertWith(t, k, v, policy), q) == if q == k then Some(v) else TreeQuery(t, q)
  {
    if |t.root.keys| == 0 {
      TreeInsertEmpty(t, k, v, policy);
    } else {
      TreeInsertNonEmpty(t, k, v, policy);
    }
  }

  /** The first insert into an empty tree fills the root leaf with one entry. */
  lemma TreeInsertEmpty<V>(t: Tree<V>, k: int, v: V, policy: DuplicatePolicy)
    requires TreeValid(t) && |t.root.keys| == 0
    ensures TreeValid(InsertWith(t, k, v, policy))
    ensures forall q :: TreeQuery(InsertWith(t, k, v, policy), q) == if q == k then Some(v) else TreeQuery(t, q)
  {
    var r := InsertWith(t, k, v, policy);
    WellShapedRoutable(t.root);
    WellShapedRoutable(r.root);
    assert r.root.keys == [k] && r.root.values == [v];
    forall q
      ensures Query(r.root, q) == if q == k then Some(v) else Query(t.root, q)
    {
      if q == k {
        LeafQueryAt(r.root, 0);
      }
    }
  }

  /** An insert into a non-empty tree, promoting a new root when the old one splits. */
  lemma TreeInsertNonEmpty<V>(t: Tree<V>, k: int, v: V, policy: DuplicatePolicy)
    requires TreeValid(t) && |t.root.keys| > 0
    requires policy == ReplaceValue || TreeQuery(t, k).None?
    ensures TreeValid(InsertWith(t, k, v, policy))
    ensures forall q :: TreeQuery(InsertWith(t, k, v, policy), q) == if q == k then Some(v) else TreeQuery(t, q)
  {
    WellShapedRoutable(t.root);
    NodeInsertCorrect(t.root, None, None, k, v, t.innerOrder, t.leafOrder, policy);
    var (root, sibling) := NodeInsert(t.root, k, v, t.innerOrder, t.leafOrder, policy);
    match sibling
    case None => TreeInsertKeepsRoot(t, k, v, policy, root);
    case Some(s) => TreeInsertPromotes(t, k, v, policy, root, s);
  }

  lemma TreeInsertKeepsRoot<V>(t: Tree<V>, k: int, v: V, policy: DuplicatePolicy, root: Node<V>)
    requires TreeValid(t) && |t.root.keys| > 0 && Routable(t.root)
    requires NodeInsert(t.root, k, v, t.innerOrder, t.leafOrder, policy) == (root, None)
    requires InsertOutcome(t.root, None, None, k, v, (root, None))
    ensures TreeValid(InsertWith(t, k, v, policy))
    ensures forall q :: TreeQuery(InsertWith(t, k, v, policy), q) == if q == k then Some(v) else TreeQuery(t, q)
  {
    var r := t.(root := root);
    assert InsertWith(t, k, v, policy) == r;
    assert |root.keys| > 0;
    forall q
      ensures TreeQuery(r, q) == if q == k then Some(v) else TreeQuery(t, q)
    {
      assert InRange(q, None, None);
    }
  }

  lemma TreeInsertPromotes<V>(t: Tree<V>, k: int, v: V, policy: DuplicatePolicy, root: Node<V>, s: Node<V>)
    requires TreeValid(t) && |t.root.keys| > 0 && Routable(t.root)
    requires NodeInsert(t.root, k, v, t.innerOrder, t.leafOrder, policy) == (root, Some(s))
    requires InsertOutcome(t.root, None, None, k, v, (root, Some(s)))
    ensures TreeValid(InsertWith(t, k, v, policy))
    ensures forall q :: TreeQuery(InsertWith(t, k, v, policy), q) == if q == k then Some(v) else TreeQuery(t, q)
  {
    assert (if s.isLeaf then s.keys[0] else FindLeafEntry(s)) == FindLeafEntry(s);
    assert InsertWith(t, k, v, policy) == t.(root := Node([FindLeafEntry(s)], [root, s], false, []));
    PromotedRootCorrect(t, k, v, root, s);
  }

  /** The corrected insert is a map update for every key, present or not. */
  lemma UpsertCorrect<V>(t: Tree<V>, k: int, v: V)
    requires TreeValid(t)
    ensures TreeValid(Upsert(t, k, v))
    ensures forall q :: TreeQuery(Upsert(t, k, v), q) == if q == k then Some(v) else TreeQuery(t, q)
  {
    TreeInsertCorrect(t, k, v, ReplaceValue);
  }

  /** The insert as written is a map update for a key the tree does not hold yet. */
  lemma InsertFreshCorrect<V>(t: Tree<V>, k: int, v: V)
    requires TreeValid(t) && TreeQuery(t, k).None?
    ensures TreeValid(Insert(t, k, v))
    ensures TreeQuery(Insert(t, k, v), k) == Some(v)
    ensures forall q :: q != k ==> TreeQuery(Insert(t, k, v), q) == TreeQuery(t, q)
  {
    TreeInsertCorrect(t, k, v, ShiftValues);
  }

  // ---------------------------------------------------------------------
  // Many inserts
  // ---------------------------------------------------------------------

  /** What a sequence of inserts should leave for q: the value of q's last entry. */
  ghost function Lookup<V>(entries: seq<(int, V)>, q: int): Option<V>
    decreases |entries|
  {
    if |entries| == 0 then None
    else match Lookup(entries[1..], q)
      case Some(x) => Some(x)
      case None => if entries[0].0 == q then Some(entries[0].1) else None
  }

  ghost predicate DistinctKeys<V>(entries: seq<(int, V)>) {
    forall i, j :: 0 <= i < j < |entries| ==> entries[i].0 != entries[j].0
  }

  /**
   * After inserting the entries a query for q finds q's last entry, or
   * what the tree held before when no entry has key q. Under
   * `ShiftValues` the keys must be distinct and new to the tree.
   */
  lemma {:induction false} InsertAllCorrect<V>(t: Tree<V>, entries: seq<(int, V)>, policy: DuplicatePolicy)
    requires TreeValid(t)
    requires policy == ShiftValues ==>
      DistinctKeys(entries) && forall i :: 0 <= i < |entries| ==> TreeQuery(t, entries[i].0).None?
    ensures TreeValid(InsertAllWith(t, entries, policy))
    ensures forall q :: TreeQuery(InsertAllWith(t, entries, policy), q) == Lookup(entries, q).OrElse(TreeQuery(t, q))
    decreases |entries|
  {
    if |entries| > 0 {
      var (k, v) := entries[0];
      var rest := entries[1..];
      var t1 := InsertWith(t, k, v, policy);
      InsertFirstReady(t, entries, policy);
      InsertAllCorrect(t1, rest, policy);
      InsertFirstThenRest(t, entries, policy);
    }
  }

  /** After the first entry goes in, the tree and the remaining entries meet the requirements again. */
  lemma InsertFirstReady<V>(t: Tree<V>, entries: seq<(int, V)>, policy: DuplicatePolicy)
    requires TreeValid(t) && |entries| > 0
    requires policy == ShiftValues ==>
      DistinctKeys(entries) && forall i :: 0 <= i < |entries| ==> TreeQuery(t, entries[i].0).None?
    ensures var t1 := InsertWith(t, entries[0].0, entries[0].1, policy);
      && TreeValid(t1)
      && (policy == ShiftValues ==>
            DistinctKeys(entries[1..]) && forall i :: 0 <= i < |entries[1..]| ==> TreeQuery(t1, entries[1..][i].0).None?)
  {
    var (k, v) := entries[0];
    if policy == ShiftValues {
      assert TreeQuery(t, k).None?;
    }
    TreeInsertCorrect(t, k, v, policy);
    if policy == ShiftValues {
      FreshAfterFirst(t, InsertWith(t, k, v, policy), entries);
    }
  }

  /** The queries after all entries, from those after the first and those after the rest. */
  lemma InsertFirstThenRest<V>(t: Tree<V>, entries: seq<(int, V)>, policy: DuplicatePolicy)
    requires TreeValid(t) && |entries| > 0
    requires policy == ShiftValues ==> TreeQuery(t, entries[0].0).None?
    requires var t1 := InsertWith(t, entries[0].0, entries[0].1, policy);
      && TreeValid(InsertAllWith(t1, entries[1..], policy))
      && forall q :: TreeQuery(InsertAllWith(t1, entries[1..], policy), q) == Lookup(entries[1..], q).OrElse(TreeQuery(t1, q))
    ensures TreeValid(InsertAllWith(t, entries, policy))
    ensures forall q :: TreeQuery(InsertAllWith(t, entries, policy), q) == Lookup(entries, q).OrElse(TreeQuery(t, q))
  {
    var (k, v) := entries[0];
    TreeInsertCorrect(t, k, v, policy);
    assert InsertAllWith(t, entries, policy) == InsertAllWith(InsertWith(t, k, v, policy), entries[1..], policy);
  }

  /** Once the first of distinct fresh entries is in, the others are distinct and fresh. */
  lemma FreshAfterFirst<V>(t: Tree<V>, t1: Tree<V>, entries: seq<(int, V)>)
    requires TreeShaped(t) && TreeShaped(t1) && |entries| > 0
    requires DistinctKeys(entries) && forall i :: 0 <= i < |entries| ==> TreeQuery(t, entries[i].0).None?
    requires forall q :: q != entries[0].0 ==> TreeQuery(t1, q) == TreeQuery(t, q)
    ensures DistinctKeys(entries[1..]) && forall i :: 0 <= i < |entries[1..]| ==> TreeQuery(t1, entries[1..][i].0).None?
  {
    var rest := entries[1..];
    forall i | 0 <= i < |rest|
      ensures TreeQuery(t1, rest[i].0).None?
    {
      assert rest[i] == entries[i + 1];
    }
    forall i, j | 0 <= i < j < |rest|
      ensures rest[i].0 != rest[j].0
    {
      assert rest[i] == entries[i + 1] && rest[j] == entries[j + 1];
    }
  }

  /** The entries of the source's test: key i with value "Entry i". */
  function TestEntries(n: nat): (r: seq<(int, string)>)
    ensures |r| == n
    ensures forall i :: 0 <= i < n ==> r[i] == (i, "Entry " + ToDecimal(i))
  {
    seq(n, i => (i, "Entry " + ToDecimal(i)))
  }

  /** With distinct keys, an entry's key looks up that entry's value. */
  lemma {:induction false} LookupFound<V>(entries: seq<(int, V)>, i: nat)
    requires DistinctKeys(entries) && i < |entries|
    ensures Lookup(entries, entries[i].0) == Some(entries[i].1)
    decreases |entries|
  {
    var rest := entries[1..];
    assert forall j :: 0 <= j < |rest| ==> rest[j] == entries[j + 1];
    if i == 0 {
      LookupAbsent(rest, entries[0].0);
    } else {
      LookupFound(rest, i - 1);
    }
  }

  /** A key no entry carries looks up nothing. */
  lemma {:induction false} LookupAbsent<V>(entries: seq<(int, V)>, q: int)
    requires forall i :: 0 <= i < |entries| ==> entries[i].0 != q
    ensures Lookup(entries, q) == None
    decreases |entries|
  {
    if |entries| > 0 {
      var rest := entries[1..];
      assert forall j :: 0 <= j < |rest| ==> rest[j] == entries[j + 1];
      LookupAbsent(rest, q);
    }
  }

  lemma LookupTestEntries(n: nat, q: int)
    ensures Lookup(TestEntries(n), q) == if 0 <= q < n then Some("Entry " + ToDecimal(q)) else None
  {
    var es := TestEntries(n);
    if 0 <= q < n {
      LookupFound(es, q);
    } else {
      LookupAbsent(es, q);
    }
  }

  /** Inserting keys 0 to n - 1 with values "Entry i" into an empty tree, with any valid orders. */
  lemma InsertEntriesCorrect(innerOrder: nat, leafOrder: nat, n: nat)
    requires innerOrder >= 2 && leafOrder >= 2
    ensures var t := InsertAllWith(NewTree<string>(innerOrder, leafOrder), TestEntries(n), ShiftValues);
      && TreeValid(t)
      && forall q :: TreeQuery(t, q) == if 0 <= q < n then Some("Entry " + ToDecimal(q)) else None
  {
    var t0 := NewTree<string>(innerOrder, leafOrder);
    var es := TestEntries(n);
    NewTreeValid<string>(innerOrder, leafOrder);
    assert DistinctKeys(es);
    InsertAllCorrect(t0, es, ShiftValues);
    forall q
      ensures TreeQuery(InsertAllWith(t0, es, ShiftValues), q) == if 0 <= q < n then Some("Entry " + ToDecimal(q)) else None
    {
      LookupTestEntries(n, q);
    }
  }

  /**
   * The source's insert test: keys 0 to 500 with values "Entry i" go into
   * a tree with the orders of `BPlusTree<u32, String>`; afterwards each
   * key finds its value and every other key finds nothing.
   */
  lemma InsertTestCorrect()
    ensures OrdersFor(4, 24) == (163, 77)
    ensures var t := InsertAllWith(NewTree<string>(163, 77), TestEntries(501), ShiftValues);
      && TreeValid(t)
      && (forall i :: 0 <= i <= 500 ==> TreeQuery(t, i) == Some("Entry " + ToDecimal(i)))
      && (forall q :: q < 0 || q > 500 ==> TreeQuery(t, q) == None)
  {
    U32StringOrders();
    InsertEntriesCorrect(163, 77, 501);
  }

  /** The orders `BPlusTree<u32, String>` gets: 4-byte keys and 24-byte values. */
  lemma U32StringOrders()
    ensures OrdersFor(4, 24) == (163, 77)
  {
    assert BlockSize / (4 + PointerSize + 1 + BincodeOverhead) == 163;
    assert BlockSize / (4 + PointerSize + 1 + BincodeOverhead + 24 + BincodeOverhead) == 77;
  }

  // ---------------------------------------------------------------------
  // Re-inserting a key
  // ---------------------------------------------------------------------

  /**
   * As written, re-inserting key 1 into {1: "a", 2: "b"} shifts the leaf's
   * values: key 2 then reads "a" (and "b" has no key any more).
   */
  lemma InsertDuplicateShiftsValues()
    ensures var t := Insert(Insert(Insert(NewTree<string>(163, 77), 1, "a"), 2, "b"), 1, "c");
      TreeQuery(t, 1) == Some("c") && TreeQuery(t, 2) == Some("a")
  {
    var t1 := Insert(NewTree<string>(163, 77), 1, "a");
    assert t1.root == Node([1], [], true, ["a"]);
    var t2 := Insert(t1, 2, "b");
    SecondInsert(t1);
    var t3 := Insert(t2, 1, "c");
    ThirdInsert(t2);
    assert IndexOf(t3.root.keys, 1) == Some(0) && IndexOf(t3.root.keys, 2) == Some(1);
  }

  lemma SecondInsert(t1: Tree<string>)
    requires TreeShaped(t1) && t1.innerOrder == 163 && t1.leafOrder == 77 && t1.root == Node([1], [], true, ["a"])
    ensures Insert(t1, 2, "b").root == Node([1, 2], [], true, ["a", "b"])
  {
    assert IndexOf([1], 2).None? && UpperBound([1], 2) == 1;
    assert InsertAt([1], 1, 2) == [1, 2] && InsertAt(["a"], 1, "b") == ["a", "b"];
  }

  lemma ThirdInsert(t2: Tree<string>)
    requires TreeShaped(t2) && t2.innerOrder == 163 && t2.leafOrder == 77 && t2.root == Node([1, 2], [], true, ["a", "b"])
    ensures Insert(t2, 1, "c").root == Node([1, 2], [], true, ["c", "a", "b"])
  {
    assert IndexOf([1, 2], 1) == Some(0);
    assert InsertAt(["a", "b"], 0, "c") == ["c", "a", "b"];
  }

  /** With the corrected insert the same sequence leaves key 2 at "b". */
  lemma UpsertDuplicateKeepsOthers()
    ensures var t := Upsert(Upsert(Upsert(NewTree<string>(163, 77), 1, "a"), 2, "b"), 1, "c");
      TreeQuery(t, 1) == Some("c") && TreeQuery(t, 2) == Some("b")
  {
    var t0 := NewTree<string>(163, 77);
    NewTreeValid<string>(163, 77);
    UpsertCorrect(t0, 1, "a");
    var t1 := Upsert(t0, 1, "a");
    UpsertCorrect(t1, 2, "b");
    var t2 := Upsert(t1, 2, "b");
    UpsertCorrect(t2, 1, "c");
  }
}
