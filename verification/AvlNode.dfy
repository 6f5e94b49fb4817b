/**
 * Nodes of the Merkle AVL tree (avl/node.go). A node is a value: insert, delete and the rotations clone what they
 * change. The content hash is injective, so it is modelled by a free constructor over exactly the fields the
 * source serialises; it ignores the wroteBack flag, which is not serialised.
 */
module AvlNode {
  import opened Bytes
  import opened SortedSeq

  type Value = seq<byte>

  datatype Digest =
    | LeafDigest(viewID: nat, key: Key, value: Value)
    | InnerDigest(left: Digest, right: Digest, viewID: nat, key: Key, depth: nat, size: nat)

  datatype Node =
    | Leaf(key: Key, value: Value, viewID: nat, wroteBack: bool)
    | Inner(left: Node, right: Node, key: Key, depth: nat, size: nat, viewID: nat, wroteBack: bool)

  function Depth(n: Node): nat {
    if n.Leaf? then 0 else n.depth
  }

  function Size(n: Node): nat {
    if n.Leaf? then 1 else n.size
  }

  /** rehash */
  function Id(n: Node): Digest {
    match n
    case Leaf(key, value, viewID, _) => LeafDigest(viewID, key, value)
    case Inner(left, right, key, depth, size, viewID, _) => InnerDigest(Id(left), Id(right), viewID, key, depth, size)
  }

  function Max(a: nat, b: nat): nat {
    if a > b then a else b
  }

  function MaxKey(a: Key, b: Key): Key {
    if Less(b, a) then a else b
  }

  function BalanceFactor(n: Node): int
    requires n.Inner?
  {
    Depth(n.left) - Depth(n.right)
  }

  /** The tail of update: stamp the view ID, rehash, and drop wroteBack when the hash changed. */
  function Stamp(was: Node, cpy: Node, view: nat): Node {
    var n := cpy.(viewID := view);
    n.(wroteBack := was.wroteBack && Id(n) == Id(was))
  }

  /** update with a closure that sets both children and calls sync. */
  function Join(was: Node, left: Node, right: Node, view: nat): Node {
    Stamp(was,
          Inner(left, right, MaxKey(left.key, right.key), Max(Depth(left), Depth(right)) + 1,
                Size(left) + Size(right), was.viewID, was.wroteBack),
          view)
  }

  function LeftRotate(n: Node, view: nat): Node
    requires n.Inner? && n.right.Inner?
  {
    var right := n.right;
    Join(right, Join(n, n.left, right.left, view), right.right, view)
  }

  function RightRotate(n: Node, view: nat): Node
    requires n.Inner? && n.left.Inner?
  {
    var left := n.left;
    Join(left, left.left, Join(n, left.right, n.right, view), view)
  }

  /** The depth, size and key fields of every inner node are those sync computes from its children. */
  predicate Exact(n: Node) {
    n.Inner? ==>
      && Exact(n.left) && Exact(n.right)
      && n.depth == Max(Depth(n.left), Depth(n.right)) + 1
      && n.size == Size(n.left) + Size(n.right)
      && n.key == MaxKey(n.left.key, n.right.key)
  }

  function Rebalance(n: Node, view: nat): Node
    requires n.Inner? && Exact(n.left) && Exact(n.right)
  {
    if BalanceFactor(n) > 1 then
      var n' := if BalanceFactor(n.left) < 0 then Stamp(n, n.(left := LeftRotate(n.left, view)), view) else n;
      RightRotate(n', view)
    else if BalanceFactor(n) < -1 then
      var n' := if BalanceFactor(n.right) > 0 then Stamp(n, n.(right := RightRotate(n.right, view)), view) else n;
      LeftRotate(n', view)
    else n
  }

  function NewLeaf(key: Key, value: Value, view: nat): Node {
    Leaf(key, value, view, false)
  }

  function Insert(n: Node, key: Key, value: Value, view: nat): (r: Node)
    requires Exact(n)
    ensures Exact(r)
  {
    match n
    case Inner(left, right, _, _, _, _, _) =>
      if Leq(key, left.key) then
        var j := Join(n, Insert(left, key, value, view), right, view);
        RebalanceExact(j, view);
        Rebalance(j, view)
      else
        var j := Join(n, left, Insert(right, key, value, view), view);
        RebalanceExact(j, view);
        Rebalance(j, view)
    case Leaf(k, _, _, _) =>
      if key == k then Stamp(n, n.(value := value), view)
      else if Less(key, k) then Join(n, NewLeaf(key, value, view), n, view)
      else Join(n, n, NewLeaf(key, value, view), view)
  }

  function Lookup(n: Node, key: Key): Option<Value> {
    match n
    case Leaf(k, v, _, _) => if key == k then Some(v) else None
    case Inner(left, right, _, _, _, _, _) => if Leq(key, left.key) then Lookup(left, key) else Lookup(right, key)
  }

  /** The remaining tree, or None when the only leaf went, and whether the key was found. */
  function Delete(n: Node, key: Key, view: nat): (r: (Option<Node>, bool))
    requires Exact(n)
    ensures r.0.Some? ==> Exact(r.0.value)
  {
    match n
    case Leaf(k, _, _, _) =>
      if key == k then (None, true) else (Some(n), false)
    case Inner(left, right, _, _, _, _, _) =>
      if Leq(key, left.key) then
        var (left', deleted) := Delete(left, key, view);
        if left'.None? then (Some(right), deleted)
        else if deleted then
          var j := Join(n, left'.value, right, view);
          RebalanceExact(j, view);
          (Some(Rebalance(j, view)), deleted)
        else (Some(n), deleted)
      else
        var (right', deleted) := Delete(right, key, view);
        if right'.None? then (Some(left), deleted)
        else if deleted then
          var j := Join(n, left, right'.value, view);
          RebalanceExact(j, view);
          (Some(Rebalance(j, view)), deleted)
        else (Some(n), deleted)
  }

  lemma {:induction false} RebalanceExact(n: Node, view: nat)
    requires n.Inner? && Exact(n)
    ensures Exact(Rebalance(n, view))
  {
    if BalanceFactor(n) > 1 {
      assert Exact(n.left.left) && Exact(n.left.right);
      if BalanceFactor(n.left) < 0 {
        RotateExact(n.left, view);
      }
    } else if BalanceFactor(n) < -1 {
      assert Exact(n.right.left) && Exact(n.right.right);
      if BalanceFactor(n.right) > 0 {
        RotateExact(n.right, view);
      }
    }
  }

  lemma {:induction false} RotateExact(n: Node, view: nat)
    requires n.Inner? && Exact(n.left) && Exact(n.right)
    ensures n.right.Inner? ==> Exact(LeftRotate(n, view))
    ensures n.left.Inner? ==> Exact(RightRotate(n, view))
  {
  }

  /** The entries of a tree from left to right. */
  function Contents(n: Node): (s: seq<Entry<Value>>)
    ensures s != []
  {
    match n
    case Leaf(k, v, _, _) => [Entry(k, v)]
    case Inner(left, right, _, _, _, _, _) => Contents(left) + Contents(right)
  }

  predicate Balanced(n: Node) {
    n.Inner? ==> Balanced(n.left) && Balanced(n.right) && -1 <= BalanceFactor(n) <= 1
  }

  /** No node is older than its children. */
  predicate ViewsOrdered(n: Node) {
    n.Inner? ==>
      && ViewsOrdered(n.left) && ViewsOrdered(n.right)
      && n.left.viewID <= n.viewID && n.right.viewID <= n.viewID
  }

  /** What every reachable tree satisfies. */
  ghost predicate Avl(n: Node) {
    Exact(n) && Balanced(n) && ViewsOrdered(n) && Sorted(Contents(n))
  }

  /** A rotation keeps the entries; with children at most two levels apart it restores the balance. */
  lemma {:induction false} RebalanceContents(n: Node, view: nat)
    requires n.Inner? && Exact(n.left) && Exact(n.right)
    ensures Contents(Rebalance(n, view)) == Contents(n)
  {
    if BalanceFactor(n) > 1 {
      if BalanceFactor(n.left) < 0 {
        RotateContents(n.left, view);
        RotateContents(Stamp(n, n.(left := LeftRotate(n.left, view)), view), view);
      } else {
        RotateContents(n, view);
      }
    } else if BalanceFactor(n) < -1 {
      if BalanceFactor(n.right) > 0 {
        RotateContents(n.right, view);
        RotateContents(Stamp(n, n.(right := RightRotate(n.right, view)), view), view);
      } else {
        RotateContents(n, view);
      }
    }
  }

  lemma {:induction false} RotateContents(n: Node, view: nat)
    requires n.Inner?
    ensures n.right.Inner? ==> Contents(LeftRotate(n, view)) == Contents(n)
    ensures n.left.Inner? ==> Contents(RightRotate(n, view)) == Contents(n)
  {
    if n.right.Inner? {
      var a, b, c := Contents(n.left), Contents(n.right.left), Contents(n.right.right);
      assert a + (b + c) == (a + b) + c;
    }
    if n.left.Inner? {
      var a, b, c := Contents(n.left.left), Contents(n.left.right), Contents(n.right);
      assert a + (b + c) == (a + b) + c;
    }
  }

  /** A node over balanced children whose depths are at most one apart. */
  lemma {:induction false} JoinBalances(was: Node, l: Node, r: Node, view: nat)
    requires Balanced(l) && Balanced(r) && -1 <= Depth(l) - Depth(r) <= 1
    ensures Balanced(Join(was, l, r, view)) && Depth(Join(was, l, r, view)) == Max(Depth(l), Depth(r)) + 1
  {
  }

  lemma {:induction false} RebalanceLeftHeavy(n: Node, view: nat)
    requires n.Inner? && Exact(n) && Balanced(n.left) && Balanced(n.right) && BalanceFactor(n) == 2
    ensures Balanced(Rebalance(n, view)) && n.depth - 1 <= Depth(Rebalance(n, view)) <= n.depth
  {
    var l, r := n.left, n.right;
    if BalanceFactor(l) < 0 {
      var m := l.right;
      assert Exact(m) && Balanced(m);
      JoinBalances(l, l.left, m.left, view);
      var l' := LeftRotate(l, view);
      var n' := Stamp(n, n.(left := l'), view);
      JoinBalances(n', m.right, r, view);
      JoinBalances(l', Join(l, l.left, m.left, view), Join(n', m.right, r, view), view);
    } else {
      JoinBalances(n, l.right, r, view);
      JoinBalances(l, l.left, Join(n, l.right, r, view), view);
    }
  }

  lemma {:induction false} RebalanceRightHeavy(n: Node, view: nat)
    requires n.Inner? && Exact(n) && Balanced(n.left) && Balanced(n.right) && BalanceFactor(n) == -2
    ensures Balanced(Rebalance(n, view)) && n.depth - 1 <= Depth(Rebalance(n, view)) <= n.depth
  {
    var l, r := n.left, n.right;
    if BalanceFactor(r) > 0 {
      var m := r.left;
      assert Exact(m) && Balanced(m);
      JoinBalances(r, m.right, r.right, view);
      var r' := RightRotate(r, view);
      var n' := Stamp(n, n.(right := r'), view);
      JoinBalances(n', l, m.left, view);
      JoinBalances(r', Join(n', l, m.left, view), Join(r, m.right, r.right, view), view);
    } else {
      JoinBalances(n, l, r.left, view);
      JoinBalances(r, Join(n, l, r.left, view), r.right, view);
    }
  }

  /** The rotations restore the balance of children two levels apart, and the tree loses at most one level. */
  lemma {:induction false} RebalanceBalances(n: Node, view: nat)
    requires n.Inner? && Exact(n) && Balanced(n.left) && Balanced(n.right) && -2 <= BalanceFactor(n) <= 2
    ensures Balanced(Rebalance(n, view))
    ensures n.depth - 1 <= Depth(Rebalance(n, view)) <= n.depth
    ensures -1 <= BalanceFactor(n) <= 1 ==> Rebalance(n, view) == n
  {
    if BalanceFactor(n) == 2 {
      RebalanceLeftHeavy(n, view);
    } else if BalanceFactor(n) == -2 {
      RebalanceRightHeavy(n, view);
    }
  }

  lemma {:induction false} RebalanceViews(n: Node, view: nat)
    requires n.Inner? && Exact(n) && ViewsOrdered(n) && n.viewID <= view
    ensures ViewsOrdered(Rebalance(n, view)) && Rebalance(n, view).viewID <= view
  {
    if BalanceFactor(n) > 1 {
      var l := n.left;
      assert ViewsOrdered(l.left) && ViewsOrdered(l.right);
      if BalanceFactor(l) < 0 {
        assert ViewsOrdered(l.right.left) && ViewsOrdered(l.right.right);
      }
    } else if BalanceFactor(n) < -1 {
      var r := n.right;
      assert ViewsOrdered(r.left) && ViewsOrdered(r.right);
      if BalanceFactor(r) > 0 {
        assert ViewsOrdered(r.left.left) && ViewsOrdered(r.left.right);
      }
    }
  }

  /** A node's key is the largest key below it. */
  lemma {:induction false} KeyIsLast(n: Node)
    requires Exact(n) && Sorted(Contents(n))
    ensures n.key == Contents(n)[|Contents(n)| - 1].key
  {
    if n.Inner? {
      var a, b := Contents(n.left), Contents(n.right);
      SortedParts(a, b);
      KeyIsLast(n.left);
      KeyIsLast(n.right);
      LessAsymmetric(a[|a| - 1].key, b[|b| - 1].key);
    }
  }

  /** At an inner node the comparison with the left child's key decides which side the key belongs to. */
  lemma {:induction false} Route(n: Node, key: Key)
    requires n.Inner? && Exact(n) && Sorted(Contents(n))
    ensures Sorted(Contents(n.left)) && Sorted(Contents(n.right))
    ensures if Leq(key, n.left.key) then Above(key, Contents(n.right)) else Below(Contents(n.left), key)
  {
    var a, b := Contents(n.left), Contents(n.right);
    SortedParts(a, b);
    KeyIsLast(n.left);
    LessTotal(key, n.left.key);
    if Leq(key, n.left.key) {
      if key != n.left.key { LessTransitive(key, n.left.key, b[0].key); }
      AboveFirst(key, b);
    } else {
      BelowLast(a, key);
    }
  }

  lemma {:induction false} LookupIsGet(n: Node, key: Key)
    requires Exact(n) && Sorted(Contents(n))
    ensures Lookup(n, key) == Get(Contents(n), key)
  {
    if n.Inner? {
      Route(n, key);
      if Leq(key, n.left.key) {
        LookupIsGet(n.left, key);
        LeftPart(Contents(n.left), Contents(n.right), key, []);
      } else {
        LookupIsGet(n.right, key);
        RightPart(Contents(n.left), Contents(n.right), key, []);
      }
    }
  }

  lemma {:induction false} InsertContents(n: Node, key: Key, value: Value, view: nat)
    requires Exact(n) && Sorted(Contents(n))
    ensures Contents(Insert(n, key, value, view)) == Put(Contents(n), key, value)
  {
    match n
    case Leaf(k, _, _, _) =>
      LessTotal(key, k);
    case Inner(left, right, _, _, _, _, _) =>
      Route(n, key);
      var a, b := Contents(left), Contents(right);
      if Leq(key, left.key) {
        InsertContents(left, key, value, view);
        LeftPart(a, b, key, value);
        RebalanceContents(Join(n, Insert(left, key, value, view), right, view), view);
      } else {
        InsertContents(right, key, value, view);
        RightPart(a, b, key, value);
        RebalanceContents(Join(n, left, Insert(right, key, value, view), view), view);
      }
  }

  lemma {:induction false} InsertBalances(n: Node, key: Key, value: Value, view: nat)
    requires Exact(n) && Balanced(n)
    ensures Balanced(Insert(n, key, value, view))
    ensures Depth(n) <= Depth(Insert(n, key, value, view)) <= Depth(n) + 1
  {
    if n.Inner? {
      if Leq(key, n.left.key) {
        InsertBalances(n.left, key, value, view);
        RebalanceBalances(Join(n, Insert(n.left, key, value, view), n.right, view), view);
      } else {
        InsertBalances(n.right, key, value, view);
        RebalanceBalances(Join(n, n.left, Insert(n.right, key, value, view), view), view);
      }
    }
  }

  lemma {:induction false} InsertViews(n: Node, key: Key, value: Value, view: nat)
    requires Exact(n) && ViewsOrdered(n) && n.viewID <= view
    ensures ViewsOrdered(Insert(n, key, value, view)) && Insert(n, key, value, view).viewID == view
  {
    if n.Inner? {
      if Leq(key, n.left.key) {
        InsertViews(n.left, key, value, view);
        RebalanceViews(Join(n, Insert(n.left, key, value, view), n.right, view), view);
      } else {
        InsertViews(n.right, key, value, view);
        RebalanceViews(Join(n, n.left, Insert(n.right, key, value, view), view), view);
      }
    }
  }

  /** Insert is map update on every well-formed tree, and gives a well-formed tree. */
  lemma {:induction false} InsertRefines(n: Node, key: Key, value: Value, view: nat)
    requires Avl(n) && n.viewID <= view
    ensures Avl(Insert(n, key, value, view))
    ensures ToMap(Contents(Insert(n, key, value, view))) == ToMap(Contents(n))[key := value]
    ensures Insert(n, key, value, view).viewID == view
  {
    InsertContents(n, key, value, view);
    InsertBalances(n, key, value, view);
    InsertViews(n, key, value, view);
    PutSorted(Contents(n), key, value);
    PutIsMap(Contents(n), key, value);
  }

  /** The entries of a possibly empty tree. */
  function Entries(root: Option<Node>): seq<Entry<Value>> {
    if root.None? then [] else Contents(root.value)
  }

  lemma {:induction false} DeleteContents(n: Node, key: Key, view: nat)
    requires Exact(n) && Sorted(Contents(n))
    ensures Entries(Delete(n, key, view).0) == Remove(Contents(n), key)
    ensures Delete(n, key, view).1 <==> Get(Contents(n), key).Some?
    ensures !Delete(n, key, view).1 ==> Delete(n, key, view).0 == Some(n)
  {
    if n.Inner? {
      Route(n, key);
      var a, b := Contents(n.left), Contents(n.right);
      if Leq(key, n.left.key) {
        DeleteContents(n.left, key, view);
        LeftPart(a, b, key, []);
        var (left', deleted) := Delete(n.left, key, view);
        if left'.Some? && deleted {
          RebalanceContents(Join(n, left'.value, n.right, view), view);
        }
      } else {
        DeleteContents(n.right, key, view);
        RightPart(a, b, key, []);
        var (right', deleted) := Delete(n.right, key, view);
        if right'.Some? && deleted {
          RebalanceContents(Join(n, n.left, right'.value, view), view);
        }
      }
    }
  }

  lemma {:induction false} DeleteBalances(n: Node, key: Key, view: nat)
    requires Exact(n) && Balanced(n)
    ensures var r := Delete(n, key, view).0;
      if r.Some? then Balanced(r.value) && Depth(n) - 1 <= Depth(r.value) <= Depth(n) else Depth(n) == 0
  {
    if n.Inner? {
      if Leq(key, n.left.key) {
        DeleteBalances(n.left, key, view);
        var (left', deleted) := Delete(n.left, key, view);
        if left'.Some? && deleted {
          RebalanceBalances(Join(n, left'.value, n.right, view), view);
        }
      } else {
        DeleteBalances(n.right, key, view);
        var (right', deleted) := Delete(n.right, key, view);
        if right'.Some? && deleted {
          RebalanceBalances(Join(n, n.left, right'.value, view), view);
        }
      }
    }
  }

  lemma {:induction false} DeleteViews(n: Node, key: Key, view: nat)
    requires Exact(n) && ViewsOrdered(n) && n.viewID <= view
    ensures var r := Delete(n, key, view).0; r.Some? ==> ViewsOrdered(r.value) && r.value.viewID <= view
  {
    if n.Inner? {
      if Leq(key, n.left.key) {
        DeleteViews(n.left, key, view);
        var (left', deleted) := Delete(n.left, key, view);
        if left'.Some? && deleted {
          RebalanceViews(Join(n, left'.value, n.right, view), view);
        }
      } else {
        DeleteViews(n.right, key, view);
        var (right', deleted) := Delete(n.right, key, view);
        if right'.Some? && deleted {
          RebalanceViews(Join(n, n.left, right'.value, view), view);
        }
      }
    }
  }

  /** Delete is map removal on every well-formed tree; the flag says whether the key was present. */
  lemma {:induction false} DeleteRefines(n: Node, key: Key, view: nat)
    requires Avl(n) && n.viewID <= view
    ensures var (r, deleted) := Delete(n, key, view);
      && (r.Some? ==> Avl(r.value) && r.value.viewID <= view)
      && ToMap(Entries(r)) == ToMap(Contents(n)) - {key}
      && (deleted <==> key in ToMap(Contents(n)))
      && (!deleted ==> r == Some(n))
  {
    DeleteContents(n, key, view);
    DeleteBalances(n, key, view);
    DeleteViews(n, key, view);
    RemoveSorted(Contents(n), key);
    RemoveIsMap(Contents(n), key);
    GetIsMap(Contents(n), key);
  }

  lemma {:induction false} LookupRefines(n: Node, key: Key)
    requires Avl(n)
    ensures Lookup(n, key) == if key in ToMap(Contents(n)) then Some(ToMap(Contents(n))[key]) else None
  {
    LookupIsGet(n, key);
    GetIsMap(Contents(n), key);
  }

  /** The size field counts the entries. */
  lemma {:induction false} SizeCounts(n: Node)
    requires Exact(n)
    ensures Size(n) == |Contents(n)|
  {
    if n.Inner? {
      SizeCounts(n.left);
      SizeCounts(n.right);
    }
  }

  function Fib(n: nat): nat {
    if n < 2 then n else Fib(n - 1) + Fib(n - 2)
  }

  lemma {:induction false} FibMonotone(a: nat, b: nat)
    requires a <= b
    ensures Fib(a) <= Fib(b)
  {
    if a < b {
      FibMonotone(a, b - 1);
    }
  }

  /** A balanced tree of depth d has at least Fib(d + 2) leaves. */
  lemma {:induction false} SizeAtLeastFib(n: Node)
    requires Exact(n) && Balanced(n)
    ensures Size(n) >= Fib(Depth(n) + 2)
  {
    if n.Inner? {
      SizeAtLeastFib(n.left);
      SizeAtLeastFib(n.right);
      var d, l, r := Depth(n), Depth(n.left), Depth(n.right);
      assert Fib(d + 2) == Fib(d + 1) + Fib(d);
      if l == d - 1 {
        FibMonotone(d, r + 2);
      } else {
        FibMonotone(d, l + 2);
      }
    }
  }

  lemma FibTen(i: nat)
    ensures Fib(i + 10) == 34 * Fib(i) + 55 * Fib(i + 1)
    ensures Fib(i + 11) == 55 * Fib(i) + 89 * Fib(i + 1)
  {
    assert Fib(i + 4) == 2 * Fib(i) + 3 * Fib(i + 1);
    assert Fib(i + 5) == 3 * Fib(i) + 5 * Fib(i + 1);
    assert Fib(i + 8) == 2 * Fib(i + 4) + 3 * Fib(i + 5);
    assert Fib(i + 9) == 3 * Fib(i + 4) + 5 * Fib(i + 5);
  }

  /** Ten steps of the recurrence, on known values. */
  lemma FibTenAt(i: nat, a: nat, b: nat)
    requires Fib(i) == a && Fib(i + 1) == b
    ensures Fib(i + 10) == 34 * a + 55 * b && Fib(i + 11) == 55 * a + 89 * b
  {
    FibTen(i);
  }

  lemma Fib40()
    ensures Fib(40) == 102334155 && Fib(41) == 165580141
  {
    FibTenAt(0, 0, 1);
    FibTenAt(10, 55, 89);
    FibTenAt(20, 6765, 10946);
    FibTenAt(30, 832040, 1346269);
  }

  lemma Fib94()
    ensures Fib(94) == 19740274219868223167
  {
    Fib40();
    FibTenAt(40, 102334155, 165580141);
    FibTenAt(50, 12586269025, 20365011074);
    FibTenAt(60, 1548008755920, 2504730781961);
    FibTenAt(70, 190392490709135, 308061521170129);
    FibTenAt(80, 23416728348467685, 37889062373143906);
  }

  /** Depth is a byte and size 64 bits wide: with fewer than 2^64 leaves neither can overflow. */
  lemma {:induction false} DepthBound(n: Node)
    requires Exact(n) && Balanced(n) && Size(n) < 0x1_0000_0000_0000_0000
    ensures Depth(n) <= 91
  {
    SizeAtLeastFib(n);
    Fib94();
    if Depth(n) > 91 {
      FibMonotone(94, Depth(n) + 2);
    }
  }
}
