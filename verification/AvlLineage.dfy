/**
 * What a run of inserts and deletes does to the nodes of a tree: it acts as the same run on a map, and every node
 * it leaves behind is either stamped with one of the run's view IDs or was already there.
 */
module AvlLineage {
  import opened Bytes
  import opened SortedSeq
  import opened AvlNode

  /** A digest with every digest below it: the IDs of all nodes of the tree it stands for. */
  function Ids(d: Digest): set<Digest> {
    match d
    case LeafDigest(_, _, _) => {d}
    case InnerDigest(left, right, _, _, _, _) => {d} + Ids(left) + Ids(right)
  }

  lemma {:induction false} IdsNested(d: Digest, e: Digest)
    requires e in Ids(d)
    ensures Ids(e) <= Ids(d)
  {
    if d.InnerDigest? && e != d {
      if e in Ids(d.left) { IdsNested(d.left, e); } else { IdsNested(d.right, e); }
    }
  }

  function RootIds(root: Option<Node>): set<Digest> {
    if root.None? then {} else Ids(Id(root.value))
  }

  /** Every ID at or below the view bound occurs in base. */
  ghost predicate Follows(ids: set<Digest>, base: set<Digest>, bound: nat) {
    forall d :: d in ids && d.viewID <= bound ==> d in base
  }

  /** Follows, stated node by node. */
  ghost predicate FollowsNode(n: Node, base: set<Digest>, bound: nat) {
    (n.viewID > bound || Id(n) in base) &&
    (n.Inner? ==> FollowsNode(n.left, base, bound) && FollowsNode(n.right, base, bound))
  }

  lemma {:induction false} FollowsNodeIsFollows(n: Node, base: set<Digest>, bound: nat)
    ensures FollowsNode(n, base, bound) <==> Follows(Ids(Id(n)), base, bound)
  {
    assert Id(n) in Ids(Id(n)) && Id(n).viewID == n.viewID;
    if n.Inner? {
      FollowsNodeIsFollows(n.left, base, bound);
      FollowsNodeIsFollows(n.right, base, bound);
    }
  }

  lemma {:induction false} RebalanceFollows(n: Node, base: set<Digest>, bound: nat, view: nat)
    requires n.Inner? && Exact(n) && FollowsNode(n, base, bound) && bound < view
    ensures FollowsNode(Rebalance(n, view), base, bound)
  {
    if BalanceFactor(n) > 1 {
      var l := n.left;
      assert FollowsNode(l.left, base, bound) && FollowsNode(l.right, base, bound);
      if BalanceFactor(l) < 0 {
        assert FollowsNode(l.right.left, base, bound) && FollowsNode(l.right.right, base, bound);
      }
    } else if BalanceFactor(n) < -1 {
      var r := n.right;
      assert FollowsNode(r.left, base, bound) && FollowsNode(r.right, base, bound);
      if BalanceFactor(r) > 0 {
        assert FollowsNode(r.left.left, base, bound) && FollowsNode(r.left.right, base, bound);
      }
    }
  }

  lemma {:induction false} InsertFollows(n: Node, key: Key, value: Value, base: set<Digest>, bound: nat, view: nat)
    requires Exact(n) && FollowsNode(n, base, bound) && bound < view
    ensures FollowsNode(Insert(n, key, value, view), base, bound)
  {
    if n.Inner? {
      if Leq(key, n.left.key) {
        InsertFollows(n.left, key, value, base, bound, view);
        RebalanceFollows(Join(n, Insert(n.left, key, value, view), n.right, view), base, bound, view);
      } else {
        InsertFollows(n.right, key, value, base, bound, view);
        RebalanceFollows(Join(n, n.left, Insert(n.right, key, value, view), view), base, bound, view);
      }
    }
  }

  lemma {:induction false} DeleteFollows(n: Node, key: Key, base: set<Digest>, bound: nat, view: nat)
    requires Exact(n) && FollowsNode(n, base, bound) && bound < view
    ensures var r := Delete(n, key, view).0; r.Some? ==> FollowsNode(r.value, base, bound)
  {
    if n.Inner? {
      if Leq(key, n.left.key) {
        DeleteFollows(n.left, key, base, bound, view);
        var (left', deleted) := Delete(n.left, key, view);
        if left'.Some? && deleted {
          RebalanceFollows(Join(n, left'.value, n.right, view), base, bound, view);
        }
      } else {
        DeleteFollows(n.right, key, base, bound, view);
        var (right', deleted) := Delete(n.right, key, view);
        if right'.Some? && deleted {
          RebalanceFollows(Join(n, n.left, right'.value, view), base, bound, view);
        }
      }
    }
  }

  /** One call of Tree.Insert or Tree.Delete, at the view ID set by the caller. */
  datatype Op =
    | PutOp(key: Key, value: Value, view: nat)
    | DeleteOp(key: Key, view: nat)

  ghost predicate AvlRoot(root: Option<Node>, view: nat) {
    root.Some? ==> Avl(root.value) && root.value.viewID <= view
  }

  predicate ExactRoot(root: Option<Node>) {
    root.Some? ==> Exact(root.value)
  }

  function Apply(root: Option<Node>, op: Op): (r: Option<Node>)
    requires ExactRoot(root)
    ensures ExactRoot(r)
  {
    match op
    case PutOp(key, value, view) =>
      if root.None? then Some(NewLeaf(key, value, view)) else Some(Insert(root.value, key, value, view))
    case DeleteOp(key, view) =>
      if root.None? then None else Delete(root.value, key, view).0
  }

  function ApplyMap(m: map<Key, Value>, op: Op): map<Key, Value> {
    match op
    case PutOp(key, value, _) => m[key := value]
    case DeleteOp(key, _) => m - {key}
  }

  function Run(root: Option<Node>, ops: seq<Op>): (r: Option<Node>)
    requires ExactRoot(root)
    ensures ExactRoot(r)
    decreases |ops|
  {
    if ops == [] then root else Run(Apply(root, ops[0]), ops[1..])
  }

  function RunMap(m: map<Key, Value>, ops: seq<Op>): map<Key, Value>
    decreases |ops|
  {
    if ops == [] then m else RunMap(ApplyMap(m, ops[0]), ops[1..])
  }

  /** View IDs never go down along a run and never go below the one it starts from. */
  predicate Ascending(view: nat, ops: seq<Op>)
    decreases |ops|
  {
    ops == [] || (view <= ops[0].view && Ascending(ops[0].view, ops[1..]))
  }

  lemma {:induction false} OneViewAscends(from: nat, view: nat, ops: seq<Op>)
    requires from <= view && forall i :: 0 <= i < |ops| ==> ops[i].view == view
    ensures Ascending(from, ops)
    decreases |ops|
  {
    if ops != [] {
      OneViewAscends(view, view, ops[1..]);
    }
  }

  lemma ApplyRefines(root: Option<Node>, op: Op)
    requires AvlRoot(root, op.view)
    ensures AvlRoot(Apply(root, op), op.view)
    ensures ToMap(Entries(Apply(root, op))) == ApplyMap(ToMap(Entries(root)), op)
  {
    if root.Some? {
      match op
      case PutOp(key, value, view) => InsertRefines(root.value, key, value, view);
      case DeleteOp(key, view) => DeleteRefines(root.value, key, view);
    }
  }

  /** Every run of inserts and deletes keeps the tree well formed and acts as the same run on a map. */
  lemma {:induction false} RunRefines(root: Option<Node>, view: nat, ops: seq<Op>)
    requires AvlRoot(root, view) && Ascending(view, ops)
    ensures AvlRoot(Run(root, ops), if ops == [] then view else ops[|ops| - 1].view)
    ensures ToMap(Entries(Run(root, ops))) == RunMap(ToMap(Entries(root)), ops)
    decreases |ops|
  {
    if ops != [] {
      ApplyRefines(root, ops[0]);
      RunRefines(Apply(root, ops[0]), ops[0].view, ops[1..]);
    }
  }

  lemma ApplyFollows(root: Option<Node>, op: Op, base: set<Digest>, bound: nat)
    requires ExactRoot(root) && Follows(RootIds(root), base, bound) && bound < op.view
    ensures Follows(RootIds(Apply(root, op)), base, bound)
  {
    if root.Some? { FollowsNodeIsFollows(root.value, base, bound); }
    match op
    case PutOp(key, value, view) =>
      if root.Some? { InsertFollows(root.value, key, value, base, bound, view); }
      FollowsNodeIsFollows(Apply(root, op).value, base, bound);
    case DeleteOp(key, view) =>
      if root.Some? {
        DeleteFollows(root.value, key, base, bound, view);
        var r := Apply(root, op);
        if r.Some? { FollowsNodeIsFollows(r.value, base, bound); }
      }
  }

  /** Nodes a run leaves at or below an earlier view were in the tree it started from. */
  lemma {:induction false} RunFollows(root: Option<Node>, ops: seq<Op>, base: set<Digest>, bound: nat, view: nat)
    requires ExactRoot(root) && Follows(RootIds(root), base, bound) && bound < view && Ascending(view, ops)
    ensures Follows(RootIds(Run(root, ops)), base, bound)
    decreases |ops|
  {
    if ops != [] {
      ApplyFollows(root, ops[0], base, bound);
      RunFollows(Apply(root, ops[0]), ops[1..], base, bound, ops[0].view);
    }
  }

  /** In a tree with ordered views the root has the newest one. */
  lemma {:induction false} RootIsNewest(n: Node, d: Digest)
    requires ViewsOrdered(n) && d in Ids(Id(n))
    ensures d.viewID <= n.viewID
  {
    if n.Inner? {
      if d in Ids(Id(n.left)) { RootIsNewest(n.left, d); }
      if d in Ids(Id(n.right)) { RootIsNewest(n.right, d); }
    }
  }

  function DigestSize(d: Digest): nat {
    if d.LeafDigest? then 1 else d.size
  }

  predicate HasKey(s: seq<Entry<Value>>, key: Key) {
    exists i :: 0 <= i < |s| && s[i].key == key
  }

  lemma HasKeyConcat(a: seq<Entry<Value>>, b: seq<Entry<Value>>, key: Key)
    ensures HasKey(a, key) || HasKey(b, key) ==> HasKey(a + b, key)
  {
    if HasKey(a, key) {
      var i :| 0 <= i < |a| && a[i].key == key;
      assert (a + b)[i].key == key;
    } else if HasKey(b, key) {
      var i :| 0 <= i < |b| && b[i].key == key;
      assert (a + b)[|a| + i].key == key;
    }
  }

  /** Every node of a tree carries one of its keys, and no node below another has its size. */
  lemma {:induction false} IdsAreLocal(n: Node, d: Digest)
    requires Exact(n) && Sorted(Contents(n)) && d in Ids(Id(n))
    ensures HasKey(Contents(n), d.key)
    ensures DigestSize(d) <= Size(n)
    ensures d != Id(n) ==> DigestSize(d) < Size(n)
  {
    hide HasKey;
    KeyIsLast(n);
    if d == Id(n) {
      LastIsKey(Contents(n), d.key);
    } else {
      var a, b := Contents(n.left), Contents(n.right);
      SortedParts(a, b);
      SizeCounts(n.left);
      SizeCounts(n.right);
      HasKeyConcat(a, b, d.key);
      if d in Ids(Id(n.left)) {
        IdsAreLocal(n.left, d);
      } else {
        IdsAreLocal(n.right, d);
      }
    }
  }

  lemma LastIsKey(s: seq<Entry<Value>>, key: Key)
    requires s != [] && s[|s| - 1].key == key
    ensures HasKey(s, key)
  {
  }

  /** No node ID occurs at two places of a well-formed tree. */
  lemma {:induction false} IdsAreDistinct(n: Node)
    requires n.Inner? && Exact(n) && Sorted(Contents(n))
    ensures Ids(Id(n.left)) !! Ids(Id(n.right))
    ensures Id(n) !in Ids(Id(n.left)) && Id(n) !in Ids(Id(n.right))
  {
    var a, b := Contents(n.left), Contents(n.right);
    SortedParts(a, b);
    SizeCounts(n.left);
    SizeCounts(n.right);
    forall d | d in Ids(Id(n.left)) && d in Ids(Id(n.right))
      ensures false
    {
      IdsAreLocal(n.left, d);
      IdsAreLocal(n.right, d);
      LessIrreflexive(d.key);
    }
    if Id(n) in Ids(Id(n.left)) { IdsAreLocal(n.left, Id(n)); }
    if Id(n) in Ids(Id(n.right)) { IdsAreLocal(n.right, Id(n)); }
  }
}
