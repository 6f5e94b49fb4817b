/**
 * The key-value store behind a tree: node records under their hash, the current root, the list of old roots, and
 * how Commit and loadNode use them (avl/tree.go). Store failures are not modelled.
 */
module AvlStore {
  import opened Bytes
  import opened SortedSeq
  import opened AvlNode
  import opened AvlLineage

  /** The fields serialize writes for a node. */
  datatype Record =
    | LeafRecord(viewID: nat, key: Key, value: Value)
    | InnerRecord(left: Digest, right: Digest, viewID: nat, key: Key, depth: nat, size: nat)

  type Nodes = map<Digest, Record>

  datatype Disk = Disk(nodes: Nodes, root: Option<Digest>, oldRoots: map<nat, Digest>, nextOldRoot: nat)

  const EMPTY_DISK := Disk(map[], None, map[], 0)

  function Serialize(n: Node): Record {
    match n
    case Leaf(key, value, viewID, _) => LeafRecord(viewID, key, value)
    case Inner(left, right, key, depth, size, viewID, _) => InnerRecord(Id(left), Id(right), viewID, key, depth, size)
  }

  function Hash(r: Record): Digest {
    match r
    case LeafRecord(viewID, key, value) => LeafDigest(viewID, key, value)
    case InnerRecord(left, right, viewID, key, depth, size) => InnerDigest(left, right, viewID, key, depth, size)
  }

  /** Every record is filed under its own hash. */
  ghost predicate Consistent(nodes: Nodes) {
    forall d :: d in nodes ==> Hash(nodes[d]) == d
  }

  /** The tree below a root ID, read back in full from the store; None when a node of it is missing. */
  function Load(nodes: Nodes, d: Digest): Option<Node>
    requires Consistent(nodes)
    decreases d
  {
    if d !in nodes then None
    else
      assert Hash(nodes[d]) == d;
      match nodes[d]
      case LeafRecord(viewID, key, value) => Some(Leaf(key, value, viewID, true))
      case InnerRecord(left, right, viewID, key, depth, size) =>
        var l, r := Load(nodes, left), Load(nodes, right);
        if l.None? || r.None? then None
        else Some(Inner(l.value, r.value, key, depth, size, viewID, true))
  }

  /** The dfs of Commit: write every node not yet written back, and do not descend below one that is. */
  function WriteBack(n: Node, nodes: Nodes): (Node, Nodes)
    decreases n
  {
    if n.wroteBack then (n, nodes)
    else
      var nodes1 := nodes[Id(n) := Serialize(n)];
      match n
      case Leaf(key, value, viewID, _) => (Leaf(key, value, viewID, true), nodes1)
      case Inner(left, right, key, depth, size, viewID, _) =>
        var (left', nodes2) := WriteBack(left, nodes1);
        var (right', nodes3) := WriteBack(right, nodes2);
        (Inner(left', right', key, depth, size, viewID, true), nodes3)
  }

  function Commit(root: Option<Node>, disk: Disk): (Option<Node>, Disk) {
    if root.None? then (None, disk.(root := None))
    else
      var (n, nodes) := WriteBack(root.value, disk.nodes);
      var kept :=
        if disk.root.Some? then
          disk.(oldRoots := disk.oldRoots[disk.nextOldRoot := disk.root.value], nextOldRoot := disk.nextOldRoot + 1)
        else disk;
      (Some(n), kept.(nodes := nodes, root := Some(Id(n))))
  }

  /** A node flagged as written back has its whole subtree in the store. */
  ghost predicate Durable(n: Node, nodes: Nodes) {
    (n.wroteBack ==> Ids(Id(n)) <= nodes.Keys) &&
    (n.Inner? ==> Durable(n.left, nodes) && Durable(n.right, nodes))
  }

  ghost predicate DurableRoot(root: Option<Node>, nodes: Nodes) {
    root.Some? ==> Durable(root.value, nodes)
  }

  /** Two trees that differ in their wroteBack flags only. */
  predicate SameTree(a: Node, b: Node) {
    match (a, b)
    case (Leaf(k, v, w, _), Leaf(k', v', w', _)) => k == k' && v == v' && w == w'
    case (Inner(l, r, k, d, s, w, _), Inner(l', r', k', d', s', w', _)) =>
      SameTree(l, l') && SameTree(r, r') && k == k' && d == d' && s == s' && w == w'
    case _ => false
  }

  /** The root ID determines the tree. */
  lemma {:induction false} IdDetermines(a: Node, b: Node)
    ensures Id(a) == Id(b) <==> SameTree(a, b)
  {
    if a.Inner? && b.Inner? {
      IdDetermines(a.left, b.left);
      IdDetermines(a.right, b.right);
    }
  }

  lemma {:induction false} SameTreeSame(a: Node, b: Node)
    requires SameTree(a, b)
    ensures Contents(a) == Contents(b) && Depth(a) == Depth(b) && Size(a) == Size(b) && a.key == b.key
    ensures Exact(a) <==> Exact(b)
    ensures Balanced(a) <==> Balanced(b)
    ensures ViewsOrdered(a) <==> ViewsOrdered(b)
  {
    if a.Inner? {
      SameTreeSame(a.left, b.left);
      SameTreeSame(a.right, b.right);
    }
  }

  /** A fully stored tree is read back, whatever else the store holds. */
  lemma {:induction false} LoadStored(n: Node, nodes: Nodes)
    requires Consistent(nodes) && Ids(Id(n)) <= nodes.Keys
    ensures Load(nodes, Id(n)).Some? && SameTree(Load(nodes, Id(n)).value, n)
  {
    var d := Id(n);
    assert d in Ids(d) && Hash(nodes[d]) == d;
    if n.Inner? {
      LoadStored(n.left, nodes);
      LoadStored(n.right, nodes);
    }
  }

  /** Conversely whatever can be read back is fully stored, hashes to the ID asked for and is marked as written. */
  lemma {:induction false} LoadedIsStored(d: Digest, nodes: Nodes)
    requires Consistent(nodes) && Load(nodes, d).Some?
    ensures Ids(d) <= nodes.Keys && Id(Load(nodes, d).value) == d && Durable(Load(nodes, d).value, nodes)
    ensures Load(nodes, d).value.wroteBack
  {
    assert Hash(nodes[d]) == d;
    if d.InnerDigest? {
      LoadedIsStored(d.left, nodes);
      LoadedIsStored(d.right, nodes);
    }
  }

  lemma {:induction false} DurableGrows(n: Node, nodes: Nodes, nodes': Nodes)
    requires Durable(n, nodes) && nodes.Keys * Ids(Id(n)) <= nodes'.Keys
    ensures Durable(n, nodes')
  {
    if n.Inner? {
      DurableGrows(n.left, nodes, nodes');
      DurableGrows(n.right, nodes, nodes');
    }
  }

  /** Commit's dfs adds exactly the nodes of the tree, although it stops at flagged nodes. */
  lemma {:induction false} WriteBackStores(n: Node, nodes: Nodes)
    requires Consistent(nodes) && Durable(n, nodes)
    ensures var (n', nodes') := WriteBack(n, nodes);
      && Consistent(nodes') && nodes'.Keys == nodes.Keys + Ids(Id(n))
      && SameTree(n', n) && Id(n') == Id(n) && n'.wroteBack && Durable(n', nodes')
    decreases n
  {
    IdDetermines(n, n);
    if !n.wroteBack && n.Inner? {
      var nodes1 := nodes[Id(n) := Serialize(n)];
      DurableGrows(n.left, nodes, nodes1);
      WriteBackStores(n.left, nodes1);
      var (left', nodes2) := WriteBack(n.left, nodes1);
      DurableGrows(n.right, nodes, nodes2);
      WriteBackStores(n.right, nodes2);
      var (right', nodes3) := WriteBack(n.right, nodes2);
      DurableGrows(left', nodes2, nodes3);
    }
  }

  lemma {:induction false} RebalanceDurable(n: Node, nodes: Nodes, view: nat)
    requires n.Inner? && Exact(n) && Durable(n, nodes)
    ensures Durable(Rebalance(n, view), nodes)
  {
    if BalanceFactor(n) > 1 {
      var l := n.left;
      assert Durable(l.left, nodes) && Durable(l.right, nodes);
      if BalanceFactor(l) < 0 {
        assert Durable(l.right.left, nodes) && Durable(l.right.right, nodes);
      }
    } else if BalanceFactor(n) < -1 {
      var r := n.right;
      assert Durable(r.left, nodes) && Durable(r.right, nodes);
      if BalanceFactor(r) > 0 {
        assert Durable(r.left.left, nodes) && Durable(r.left.right, nodes);
      }
    }
  }

  lemma {:induction false} InsertDurable(n: Node, key: Key, value: Value, nodes: Nodes, view: nat)
    requires Exact(n) && Durable(n, nodes)
    ensures Durable(Insert(n, key, value, view), nodes)
  {
    if n.Inner? {
      if Leq(key, n.left.key) {
        InsertDurable(n.left, key, value, nodes, view);
        RebalanceDurable(Join(n, Insert(n.left, key, value, view), n.right, view), nodes, view);
      } else {
        InsertDurable(n.right, key, value, nodes, view);
        RebalanceDurable(Join(n, n.left, Insert(n.right, key, value, view), view), nodes, view);
      }
    }
  }

  lemma {:induction false} DeleteDurable(n: Node, key: Key, nodes: Nodes, view: nat)
    requires Exact(n) && Durable(n, nodes)
    ensures DurableRoot(Delete(n, key, view).0, nodes)
  {
    if n.Inner? {
      if Leq(key, n.left.key) {
        DeleteDurable(n.left, key, nodes, view);
        var (left', deleted) := Delete(n.left, key, view);
        if left'.Some? && deleted {
          RebalanceDurable(Join(n, left'.value, n.right, view), nodes, view);
        }
      } else {
        DeleteDurable(n.right, key, nodes, view);
        var (right', deleted) := Delete(n.right, key, view);
        if right'.Some? && deleted {
          RebalanceDurable(Join(n, n.left, right'.value, view), nodes, view);
        }
      }
    }
  }

  lemma ApplyDurable(root: Option<Node>, op: Op, nodes: Nodes)
    requires ExactRoot(root) && DurableRoot(root, nodes)
    ensures DurableRoot(Apply(root, op), nodes)
  {
    if root.Some? {
      match op
      case PutOp(key, value, view) => InsertDurable(root.value, key, value, nodes, view);
      case DeleteOp(key, view) => DeleteDurable(root.value, key, nodes, view);
    }
  }
}
