/** The B-tree object (internal/btree/btree.go) and what any sequence of calls does to it. */
module BTree {
  import opened Bytes
  import opened SortedSeq
  import opened Traversal
  import opened BTreeNode
  import opened BTreeSet
  import opened BTreeDelete
  import opened BTreeWalk
  import opened BTreeHeap
  import BTreeScan

  /** The fields of the object. */
  datatype State<V> = State(root: Option<Node<V>>, height: nat, length: nat)

  function Entries<V>(t: State<V>): seq<Entry<V>> {
    if t.root.None? then [] else Flat(t.root.value)
  }

  /** Uniform leaf depth, 12 to 30 items per node below the root, 1 to 30 in the root, strict order, exact length. */
  ghost predicate Inv<V>(t: State<V>) {
    && (t.root.None? ==> t.height == 0) && (t.root.None? <==> t.length == 0)
    && (t.root.Some? ==> Shape(t.root.value, t.height) && 1 <= |t.root.value.items| < MAX_ITEMS)
    && Sorted(Entries(t)) && t.length == |Entries(t)|
  }

  function Empty<V>(): State<V> {
    State(None, 0, 0)
  }

  function SetState<V>(t: State<V>, key: Key, value: V): (State<V>, Option<V>)
    requires t.root.Some? ==> Shape(t.root.value, t.height)
  {
    if t.root.None? then (State(Some(Node([Entry(key, value)], [])), 0, 1), None)
    else
      var (n, prev) := Set(t.root.value, key, value, t.height);
      if prev.Some? then (t.(root := Some(n)), prev)
      else if |n.items| == MAX_ITEMS then
        var (left, median, right) := Split(n);
        (State(Some(Node([median], [left, right])), t.height + 1, t.length + 1), prev)
      else (t.(root := Some(n), length := t.length + 1), prev)
  }

  function DeleteState<V>(t: State<V>, key: Key): (State<V>, Option<V>)
    requires t.root.Some? ==> Shape(t.root.value, t.height) && t.root.value.items != []
    requires t.root.Some? ==> t.length > 0
  {
    if t.root.None? then (t, None)
    else
      var (n, prev) := Delete(t.root.value, key, t.height);
      if prev.None? then (t, None)
      else
        (Shrink(n, t.height, t.length - 1), Some(prev.value.value))
  }

  /** The end of Delete: a root without items is replaced by its only child, a tree without entries by no root. */
  function Shrink<V>(n: Node<V>, height: nat, length: nat): State<V>
    requires Shape(n, height)
  {
    if length == 0 then Empty()
    else if n.items == [] && height > 0 then State(Some(n.children[0]), height - 1, length)
    else State(Some(n), height, length)
  }

  lemma {:induction false} RootPairFlat<V>(left: Node<V>, median: Entry<V>, right: Node<V>)
    ensures Flat(Node([median], [left, right])) == Flat(left) + [median] + Flat(right)
  {
    var r := Node([median], [left, right]);
    assert r.children[..1] == [left];
    assert Lefts([median], [left]) == Lefts([median][..0], [left][..0]) + Flat(left) + [median];
  }

  lemma SplitRoot<V>(n: Node<V>, height: nat)
    requires Shape(n, height) && |n.items| == MAX_ITEMS
    ensures n.children == [] || |n.children| == |n.items| + 1
    ensures Shape(Node([Split(n).1], [Split(n).0, Split(n).2]), height + 1)
    ensures Flat(Node([Split(n).1], [Split(n).0, Split(n).2])) == Flat(n)
  {
    hide Flat;
    SliceShape(n, 0, HALF, height);
    SliceShape(n, HALF + 1, MAX_ITEMS, height);
    Cut(n, HALF);
    RootPairFlat(Split(n).0, Split(n).1, Split(n).2);
  }

  /** Set is map update; it reports the replaced value and keeps the invariant. */
  lemma {:induction false} SetRefines<V>(t: State<V>, key: Key, value: V)
    requires Inv(t)
    ensures Inv(SetState(t, key, value).0)
    ensures Entries(SetState(t, key, value).0) == Put(Entries(t), key, value)
    ensures SetState(t, key, value).1 == Get(Entries(t), key)
  {
    hide Flat, Get, Set, Split;
    PutSorted(Entries(t), key, value);
    if t.root.Some? {
      var n := t.root.value;
      SetFlat(n, key, value, t.height);
      SetPrev(n, key, value, t.height);
      var (n', prev) := Set(n, key, value, t.height);
      if prev.None? && |n'.items| == MAX_ITEMS {
        SplitRoot(n', t.height);
      }
    } else {
      LeafFlat(Node([Entry(key, value)], []));
    }
  }

  lemma {:induction false} EmptyRoot<V>(n: Node<V>, height: nat)
    requires height > 0 && Shape(n, height) && n.items == []
    ensures Flat(n) == Flat(n.children[0])
  {
    assert Lefts(n.items, n.children[..0]) == [];
    assert [] + Flat(n.children[0]) == Flat(n.children[0]);
  }

  lemma {:induction false} ShrinkInv<V>(n: Node<V>, height: nat)
    requires Shape(n, height) && |n.items| < MAX_ITEMS && Sorted(Flat(n))
    ensures Inv(Shrink(n, height, |Flat(n)|)) && Entries(Shrink(n, height, |Flat(n)|)) == Flat(n)
  {
    if n.items == [] && height > 0 {
      EmptyRoot(n, height);
    }
  }

  /** Delete is map removal; it reports the removed value and keeps the invariant. */
  lemma {:induction false} DeleteRefines<V>(t: State<V>, key: Key)
    requires Inv(t)
    ensures Inv(DeleteState(t, key).0)
    ensures Entries(DeleteState(t, key).0) == Remove(Entries(t), key)
    ensures DeleteState(t, key).1 == Get(Entries(t), key)
  {
    RemoveSorted(Entries(t), key);
    if t.root.Some? {
      var n := t.root.value;
      DeleteFlat(n, key, t.height);
      DeletePrev(n, key, t.height);
      var (n', prev) := Delete(n, key, t.height);
      if prev.Some? {
        ShrinkInv(n', t.height);
      }
    }
  }

  datatype Op<V> = SetOp(key: Key, value: V) | DeleteOp(key: Key)

  function Apply<V>(t: State<V>, op: Op<V>): State<V>
    requires t.root.Some? ==> Shape(t.root.value, t.height) && t.root.value.items != [] && t.length > 0
  {
    match op
    case SetOp(key, value) => SetState(t, key, value).0
    case DeleteOp(key) => DeleteState(t, key).0
  }

  ghost function Run<V>(t: State<V>, ops: seq<Op<V>>): State<V>
    requires Inv(t)
    decreases |ops|
  {
    if ops == [] then t
    else
      ApplyInv(t, ops[0]);
      Run(Apply(t, ops[0]), ops[1..])
  }

  function RunMap<V>(m: map<Key, V>, ops: seq<Op<V>>): map<Key, V>
    decreases |ops|
  {
    if ops == [] then m
    else RunMap(match ops[0] case SetOp(key, value) => m[key := value] case DeleteOp(key) => m - {key}, ops[1..])
  }

  lemma ApplyInv<V>(t: State<V>, op: Op<V>)
    requires Inv(t)
    ensures Inv(Apply(t, op))
  {
    match op
    case SetOp(key, value) => SetRefines(t, key, value);
    case DeleteOp(key) => DeleteRefines(t, key);
  }

  /** Any sequence of Set and Delete keeps the invariant and agrees with a plain map, whose size is the length. */
  lemma {:induction false} RunRefines<V>(t: State<V>, ops: seq<Op<V>>)
    requires Inv(t)
    ensures Inv(Run(t, ops))
    ensures ToMap(Entries(Run(t, ops))) == RunMap(ToMap(Entries(t)), ops)
    ensures Run(t, ops).length == |RunMap(ToMap(Entries(t)), ops)|
    decreases |ops|
  {
    if ops == [] {
      MapSize(Entries(t));
    } else {
      ApplyInv(t, ops[0]);
      RunRefines(Apply(t, ops[0]), ops[1..]);
      match ops[0]
      case SetOp(key, value) =>
        SetRefines(t, key, value);
        PutIsMap(Entries(t), key, value);
      case DeleteOp(key) =>
        DeleteRefines(t, key);
        RemoveIsMap(Entries(t), key);
    }
  }

  /** A tree whose nodes are shared with no other tree. */
  class BTree<V> {
    var root: TreeNode?<V>
    var height: nat
    var length: nat

    /** The objects of the tree, and its entries in order. */
    ghost var footprint: set<object>
    ghost var contents: seq<Entry<V>>

    ghost function Abs(): State<V>
      reads this, root
    {
      State(if root == null then None else Some(root.value), height, length)
    }

    /** The fields and nodes make up a state; whether it is a legal one is a matter of the state. */
    ghost predicate Linked()
      reads this, footprint
    {
      && this in footprint
      && (root != null ==> root in footprint && root.repr <= footprint && root.Valid(height))
    }

    ghost predicate Valid()
      reads this, footprint
    {
      Linked() && Inv(Abs()) && contents == Entries(Abs())
    }

    ghost function Contents(): seq<Entry<V>>
      reads this
    {
      contents
    }

    constructor ()
      ensures Valid() && fresh(footprint) && Contents() == []
    {
      root, height, length := null, 0, 0;
      footprint, contents := {this}, [];
    }

    method Set(key: Key, value: V) returns (prev: Option<V>)
      requires Valid()
      modifies footprint
      ensures Valid() && fresh(footprint - old(footprint))
      ensures Contents() == Put(old(Contents()), key, value) && prev == SortedSeq.Get(old(Contents()), key)
    {
      hide Flat, Put, SortedSeq.Get, SetState;
      SetRefines(Abs(), key, value);
      prev := Change(key, value);
      contents := Entries(Abs());
    }

    method Change(key: Key, value: V) returns (prev: Option<V>)
      requires Linked() && Inv(Abs())
      modifies footprint
      ensures Linked() && fresh(footprint - old(footprint))
      ensures (Abs(), prev) == SetState(old(Abs()), key, value)
    {
      hide Flat, BTreeSet.Set, Split, Forest, Union, Rooted;
      if root == null {
        root := new TreeNode([Entry(key, value)], [], Node([Entry(key, value)], []));
        length := 1;
        EmptyUnion(root.children);
        footprint := {this, root};
        return None;
      }
      prev := SetNode(root, key, value, height);
      if prev.None? {
        if |root.items| == MAX_ITEMS {
          GrowRoot();
        }
        length := length + 1;
      }
      footprint := {this} + root.repr;
    }

    /** A full root becomes the left one of two children of a new root. */
    method GrowRoot()
      requires root != null && root.Valid(height) && Shape(root.value, height) && |root.items| == MAX_ITEMS
      modifies this`root, this`height, root
      ensures root != null && height == old(height) + 1 && root.Valid(height)
      ensures root.value == Node([Split(old(root.value)).1], [Split(old(root.value)).0, Split(old(root.value)).2])
      ensures fresh(root.repr - old(root.repr))
    {
      hide Forest, Union, Shape, Split;
      var n := root;
      var right, median := SplitNode(n, height);
      NoForest<V>(height);
      ForestPair([], [], n, right, [], [], height);
      assert [] + [n, right] + [] == [n, right] && [] + [n.value, right.value] + [] == [n.value, right.value];
      root := new TreeNode([median], [n, right], Node([median], [n.value, right.value]));
      height := height + 1;
    }

    method Get(key: Key) returns (value: Option<V>)
      requires Valid()
      ensures value == SortedSeq.Get(Contents(), key)
    {
      if root == null {
        return None;
      }
      value := GetNode(root, key, height);
    }

    method Len() returns (n: nat)
      requires Valid()
      ensures n == |Contents()|
    {
      n := length;
    }

    method Delete(key: Key) returns (prev: Option<V>)
      requires Valid()
      modifies footprint
      ensures Valid() && footprint <= old(footprint)
      ensures Contents() == Remove(old(Contents()), key) && prev == SortedSeq.Get(old(Contents()), key)
    {
      hide Flat, Remove, SortedSeq.Get, DeleteState;
      DeleteRefines(Abs(), key);
      prev := Drop(key);
      contents := Entries(Abs());
    }

    method Drop(key: Key) returns (prev: Option<V>)
      requires Linked() && Inv(Abs())
      modifies footprint
      ensures Linked() && footprint <= old(footprint)
      ensures (Abs(), prev) == DeleteState(old(Abs()), key)
    {
      hide Flat, BTreeDelete.Delete, Forest, Union, Rooted;
      if root == null {
        return None;
      }
      var item := DeleteNode(root, key, height);
      if item.None? {
        return None;
      }
      prev := Some(item.value.value);
      ShrinkRoot(height);
    }

    /** The end of Delete: an empty root gives way to its only child, and an empty tree has no root. */
    method ShrinkRoot(h: nat)
      requires Linked() && root != null && h == height && Shape(root.value, h) && length > 0
      modifies this
      ensures Linked() && footprint <= old(footprint) && Abs() == Shrink(old(root.value), h, old(length) - 1)
    {
      hide Forest, Union, Rooted;
      if |root.items| == 0 && height > 0 {
        ForestAround(root.children, root.value.children, height - 1, 0);
        root := root.children[0];
        height := height - 1;
      }
      length := length - 1;
      if length == 0 {
        root, height := null, 0;
      }
    }

    method Scan<S>(s: S, cb: Callback<S, Entry<V>>) returns (r: S)
      requires Valid()
      ensures r == Feed(s, Contents(), cb).0
    {
      r := s;
      if root != null {
        var more;
        r, more := BTreeScan.Scan(root, s, cb, height);
      }
    }

    method Ascend<S>(pivot: Key, s: S, cb: Callback<S, Entry<V>>) returns (r: S)
      requires Valid()
      ensures r == Feed(s, AtLeast(Contents(), pivot), cb).0
    {
      r := s;
      if root != null {
        var more;
        r, more := BTreeScan.Ascend(root, pivot, s, cb, height);
      }
    }

    method Reverse<S>(s: S, cb: Callback<S, Entry<V>>) returns (r: S)
      requires Valid()
      ensures r == Feed(s, Reversed(Contents()), cb).0
    {
      r := s;
      if root != null {
        var more;
        r, more := BTreeScan.Reverse(root, s, cb, height);
      }
    }

    method Descend<S>(pivot: Key, s: S, cb: Callback<S, Entry<V>>) returns (r: S)
      requires Valid()
      ensures r == Feed(s, Reversed(AtMost(Contents(), pivot)), cb).0
    {
      r := s;
      if root != null {
        var more;
        r, more := BTreeScan.Descend(root, pivot, s, cb, height);
      }
    }
  }

  lemma {:induction false} NoForest<V>(height: nat)
    ensures Forest<V>([], [], height) && Union<V>([]) == {}
  {
  }
}
