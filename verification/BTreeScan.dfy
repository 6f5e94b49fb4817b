/** The traversals of the B-tree: scan, reverse, ascend and descend (internal/btree/btree.go). */
module BTreeScan {
  import opened Bytes
  import opened SortedSeq
  import opened Traversal
  import opened BTreeNode
  import opened BTreeSet
  import opened BTreeWalk
  import opened BTreeHeap

  /** scan shows the callback every entry in ascending order, until it stops. */
  method Scan<S, V>(n: TreeNode<V>, s: S, cb: Callback<S, Entry<V>>, height: nat)
    returns (r: S, more: bool)
    requires n.Valid(height) && Shape(n.value, height)
    ensures (r, more) == Feed(s, Flat(n.value), cb)
    decreases height
  {
    hide Forest, Union, Rooted, Flat;
    ghost var v := n.value;
    r, more := s, true;
    Parts(v, 0);
    Ends(v);
    assert [] + Middle(v, 0) + Tail(v, 0) == Middle(v, 0) + Tail(v, 0);
    for i := 0 to |n.items|
      invariant more && Feed(s, Flat(v), cb) == Feed(r, Middle(v, i) + Tail(v, i), cb)
    {
      FeedConcat(r, Middle(v, i), Tail(v, i), cb);
      if height > 0 {
        ForestAround(n.children, v.children, height - 1, i);
        r, more := Scan(n.children[i], r, cb, height - 1);
        if !more {
          return;
        }
      }
      TailStep(v, i);
      FeedCons(r, n.items[i], Middle(v, i + 1) + Tail(v, i + 1), cb);
      var (r', go) := cb(r, n.items[i]);
      r, more := r', go;
      if !more {
        return;
      }
    }
    if height > 0 {
      assert Middle(v, |n.items|) + Tail(v, |n.items|) == Middle(v, |n.items|);
      ForestAround(n.children, v.children, height - 1, |n.items|);
      r, more := Scan(n.children[|n.items|], r, cb, height - 1);
    }
  }

  /** reverse shows the callback every entry in descending order, until it stops. */
  method Reverse<S, V>(n: TreeNode<V>, s: S, cb: Callback<S, Entry<V>>, height: nat)
    returns (r: S, more: bool)
    requires n.Valid(height) && Shape(n.value, height)
    ensures (r, more) == Feed(s, Reversed(Flat(n.value)), cb)
    decreases height
  {
    hide Forest, Union, Rooted, Flat;
    ghost var v := n.value;
    r, more := s, true;
    var m := |n.items|;
    ReversedParts(v, m);
    Ends(v);
    assert [] + Reversed(Middle(v, m)) + Reversed(Head(v, m)) == Reversed(Middle(v, m)) + Reversed(Head(v, m));
    FeedConcat(s, Reversed(Middle(v, m)), Reversed(Head(v, m)), cb);
    if height > 0 {
      ForestAround(n.children, v.children, height - 1, m);
      r, more := Reverse(n.children[m], r, cb, height - 1);
      if !more {
        return;
      }
    }
    r, more := ReverseDown(n, m, r, cb, height);
  }

  /** The downward loop that reverse and descend share: the items before position m, each followed by its child. */
  method ReverseDown<S, V>(n: TreeNode<V>, m: nat, s: S, cb: Callback<S, Entry<V>>, height: nat)
    returns (r: S, more: bool)
    requires n.Valid(height) && Shape(n.value, height) && m <= |n.items|
    ensures (r, more) == Feed(s, Reversed(Head(n.value, m)), cb)
    decreases height, 0
  {
    hide Forest, Union, Rooted, Flat;
    ghost var v := n.value;
    r, more := s, true;
    var i: int := m - 1;
    while i >= 0
      invariant -1 <= i < m && more
      invariant Feed(s, Reversed(Head(v, m)), cb) == Feed(r, Reversed(Head(v, i + 1)), cb)
    {
      HeadStep(v, i);
      FeedCons(r, n.items[i], Reversed(Middle(v, i)) + Reversed(Head(v, i)), cb);
      var (r', go) := cb(r, n.items[i]);
      r, more := r', go;
      if !more {
        return;
      }
      FeedConcat(r, Reversed(Middle(v, i)), Reversed(Head(v, i)), cb);
      if height > 0 {
        ForestAround(n.children, v.children, height - 1, i);
        r, more := Reverse(n.children[i], r, cb, height - 1);
        if !more {
          return;
        }
      }
      i := i - 1;
    }
  }

  /** ascend shows the callback the entries at or above the pivot in ascending order, until it stops. */
  method Ascend<S, V>(n: TreeNode<V>, pivot: Key, s: S, cb: Callback<S, Entry<V>>, height: nat)
    returns (r: S, more: bool)
    requires n.Valid(height) && Shape(n.value, height) && Sorted(Flat(n.value))
    ensures (r, more) == Feed(s, AtLeast(Flat(n.value), pivot), cb)
    decreases height
  {
    hide Forest, Union, Rooted, Flat, Find, Head, Tail;
    ghost var v := n.value;
    ItemsSorted(v);
    var i, found := BinaryFind(n.items, pivot);
    r, more := s, true;
    if found {
      FoundParts(v, i);
    } else {
      NotFoundParts(v, pivot, height, i);
      FeedConcat(s, AtLeast(Middle(v, i), pivot), Tail(v, i), cb);
      if height > 0 {
        ChildSorted(v, i);
        ForestAround(n.children, v.children, height - 1, i);
        r, more := Ascend(n.children[i], pivot, r, cb, height - 1);
        if !more {
          return;
        }
      }
    }
    r, more := ScanUp(n, i, r, cb, height);
  }

  /** The upward loop of ascend: the items from position m on, each followed by the child after it. */
  method ScanUp<S, V>(n: TreeNode<V>, m: nat, s: S, cb: Callback<S, Entry<V>>, height: nat)
    returns (r: S, more: bool)
    requires n.Valid(height) && Shape(n.value, height) && m <= |n.items|
    ensures (r, more) == Feed(s, Tail(n.value, m), cb)
  {
    hide Forest, Union, Rooted, Flat;
    ghost var v := n.value;
    Ends(v);
    r, more := s, true;
    for i := m to |n.items|
      invariant more && Feed(s, Tail(v, m), cb) == Feed(r, Tail(v, i), cb)
    {
      TailStep(v, i);
      FeedCons(r, n.items[i], Middle(v, i + 1) + Tail(v, i + 1), cb);
      var (r', go) := cb(r, n.items[i]);
      r, more := r', go;
      if !more {
        return;
      }
      FeedConcat(r, Middle(v, i + 1), Tail(v, i + 1), cb);
      if height > 0 {
        ForestAround(n.children, v.children, height - 1, i + 1);
        r, more := Scan(n.children[i + 1], r, cb, height - 1);
        if !more {
          return;
        }
      }
    }
  }

  /** descend shows the callback the entries at or below the pivot in descending order, until it stops. */
  method Descend<S, V>(n: TreeNode<V>, pivot: Key, s: S, cb: Callback<S, Entry<V>>, height: nat)
    returns (r: S, more: bool)
    requires n.Valid(height) && Shape(n.value, height) && Sorted(Flat(n.value))
    ensures (r, more) == Feed(s, Reversed(AtMost(Flat(n.value), pivot)), cb)
    decreases height
  {
    hide Forest, Union, Rooted, Flat, Find, Head, Tail;
    ghost var v := n.value;
    ItemsSorted(v);
    var i, found := BinaryFind(n.items, pivot);
    r, more := s, true;
    if found {
      FoundParts(v, i);
      r, more := ReverseDown(n, i + 1, r, cb, height);
    } else {
      NotFoundParts(v, pivot, height, i);
      ReversedConcat(Head(v, i), AtMost(Middle(v, i), pivot));
      FeedConcat(s, Reversed(AtMost(Middle(v, i), pivot)), Reversed(Head(v, i)), cb);
      if height > 0 {
        ChildSorted(v, i);
        ForestAround(n.children, v.children, height - 1, i);
        r, more := Descend(n.children[i], pivot, r, cb, height - 1);
        if !more {
          return;
        }
      }
      r, more := ReverseDown(n, i, r, cb, height);
    }
  }
}
