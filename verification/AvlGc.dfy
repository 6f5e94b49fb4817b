/** Mark and sweep of old roots (PerformFullGC in avl/tree.go), and what it keeps over whole runs of commits. */
module AvlGc {
  import opened Bytes
  import opened SortedSeq
  import opened AvlNode
  import opened AvlLineage
  import opened AvlStore

  /**
   * The dfs of the sweep. It stops at marked nodes; any other node it reaches is deleted, and its children are then
   * followed if they can be loaded: from the store, or through a child pointer still held in memory (resident).
   */
  function Sweep(nodes: Nodes, marked: set<Digest>, resident: set<Digest>, d: Digest): (r: Nodes)
    ensures r == nodes - (nodes.Keys - r.Keys)
    ensures nodes.Keys - r.Keys <= Ids(d) - marked
    decreases d
  {
    if d in marked then nodes
    else
      var nodes1 := nodes - {d};
      match d
      case LeafDigest(_, _, _) => nodes1
      case InnerDigest(left, right, _, _, _, _) =>
        var nodes2 := if left in nodes1 || left in resident then Sweep(nodes1, marked, resident, left) else nodes1;
        if right in nodes2 || right in resident then Sweep(nodes2, marked, resident, right) else nodes2
  }

  /** Of the tree below d the store holds marked nodes only. */
  ghost predicate Gone(nodes: Nodes, marked: set<Digest>, d: Digest) {
    forall e :: e in Ids(d) && e in nodes ==> e in marked
  }

  /** What is missing is missing, or marked, all the way down. */
  ghost predicate HolesAreDeep(nodes: Nodes, marked: set<Digest>, universe: set<Digest>) {
    forall e :: e in universe && e !in nodes ==> Gone(nodes, marked, e)
  }

  ghost predicate MarkedDeep(marked: set<Digest>) {
    forall e :: e in marked ==> Ids(e) <= marked
  }

  function Height(d: Digest): nat {
    if d.LeafDigest? then 0 else 1 + Max(Height(d.left), Height(d.right))
  }

  lemma {:induction false} IdsAreLower(d: Digest, e: Digest)
    requires e in Ids(d)
    ensures Height(e) <= Height(d) && (e != d ==> Height(e) < Height(d))
  {
    if d.InnerDigest? && e != d {
      if e in Ids(d.left) { IdsAreLower(d.left, e); } else { IdsAreLower(d.right, e); }
    }
  }

  /** The sweep of one root leaves no unmarked node of it behind, and the holes it makes are deep. */
  lemma {:induction false} SweepIsComplete(
      nodes: Nodes, marked: set<Digest>, resident: set<Digest>, d: Digest, universe: set<Digest>)
    requires MarkedDeep(marked) && HolesAreDeep(nodes, marked, universe) && Ids(d) <= universe
    ensures Gone(Sweep(nodes, marked, resident, d), marked, d)
    ensures HolesAreDeep(Sweep(nodes, marked, resident, d), marked, universe)
    decreases d
  {
    if d in marked {
    } else if d.LeafDigest? {
    } else {
      if d in Ids(d.left) { IdsAreLower(d.left, d); }
      if d in Ids(d.right) { IdsAreLower(d.right, d); }
      var others := universe - {d};
      var nodes1 := nodes - {d};
      var nodes2 := if d.left in nodes1 || d.left in resident then Sweep(nodes1, marked, resident, d.left) else nodes1;
      assert d.left in Ids(d.left) && d.right in Ids(d.right);
      assert HolesAreDeep(nodes1, marked, others);
      if d.left in nodes1 || d.left in resident {
        SweepIsComplete(nodes1, marked, resident, d.left, others);
      }
      assert Gone(nodes2, marked, d.left) && HolesAreDeep(nodes2, marked, others);
      if d.right in nodes2 || d.right in resident {
        SweepIsComplete(nodes2, marked, resident, d.right, others);
      }
    }
  }

  /** Everything below the old roots first..last, which the collector marks. */
  ghost function Preserved(oldRoots: map<nat, Digest>, first: nat, last: nat): set<Digest> {
    set i, d | i in oldRoots.Keys && first <= i <= last && d in Ids(oldRoots[i]) :: d
  }

  /**
   * The effect of a collection that preserves the old roots first..last and sweeps the ones below, downwards, as
   * far as stop (exclusive): only unmarked nodes of swept roots go.
   */
  ghost predicate Collected(before: Disk, after: Disk, first: nat, last: nat, stop: int) {
    && -1 <= stop < first
    && after.root == before.root && after.nextOldRoot == before.nextOldRoot
    && (forall i: nat | first <= i <= last || stop < i < first :: i in before.oldRoots)
    && after.oldRoots == (map i | i in before.oldRoots && !(stop < i < first) :: before.oldRoots[i])
    && after.nodes == before.nodes - (before.nodes.Keys - after.nodes.Keys)
    && (forall d :: d in before.nodes && d !in after.nodes ==>
          && d !in Preserved(before.oldRoots, first, last)
          && exists i: nat :: stop < i < first && d in Ids(before.oldRoots[i]))
  }

  /** Everything below the old roots strictly between stop and first. */
  ghost function SweptIds(oldRoots: map<nat, Digest>, stop: int, first: nat): set<Digest> {
    set i, d | i in oldRoots.Keys && stop < i < first && d in Ids(oldRoots[i]) :: d
  }

  /** If the swept roots were complete before, the collection leaves of them only what it had to preserve. */
  ghost predicate SweptClean(before: Disk, after: Disk, marked: set<Digest>, first: nat, stop: int) {
    SweptIds(before.oldRoots, stop, first) <= before.nodes.Keys ==>
      SweptIds(before.oldRoots, stop, first) * after.nodes.Keys <= marked
  }

  /** SweptClean while the sweep is under way. */
  ghost predicate CleanSoFar(before: Disk, after: Disk, marked: set<Digest>, first: nat, stop: int) {
    SweptClean(before, after, marked, first, stop) &&
    (SweptIds(before.oldRoots, stop, first) <= before.nodes.Keys ==>
       HolesAreDeep(after.nodes, marked, SweptIds(before.oldRoots, stop, first)))
  }

  /** Sweep one more old root and forget it. */
  function SweepRoot(disk: Disk, marked: set<Digest>, resident: set<Digest>, i: nat): Disk
    requires i in disk.oldRoots
  {
    disk.(nodes := Sweep(disk.nodes, marked, resident, disk.oldRoots[i]), oldRoots := disk.oldRoots - {i})
  }

  lemma SweepRootCollected(
      before: Disk, disk: Disk, marked: set<Digest>, resident: set<Digest>, first: nat, last: nat, i: nat)
    requires Collected(before, disk, first, last, i) && i in disk.oldRoots
    requires Preserved(before.oldRoots, first, last) <= marked
    ensures Collected(before, SweepRoot(disk, marked, resident, i), first, last, i - 1)
  {
    var after := SweepRoot(disk, marked, resident, i);
    assert disk.oldRoots[i] == before.oldRoots[i];
    assert after.oldRoots == map j | j in before.oldRoots && !(i - 1 < j < first) :: before.oldRoots[j];
    assert after.nodes == before.nodes - (before.nodes.Keys - after.nodes.Keys);
    forall d | d in before.nodes && d !in after.nodes
      ensures d !in Preserved(before.oldRoots, first, last)
      ensures exists j: nat :: i - 1 < j < first && d in Ids(before.oldRoots[j])
    {
      if d in disk.nodes {
        assert d in Ids(before.oldRoots[i]);
      }
    }
  }

  lemma SweepRootClean(
      before: Disk, disk: Disk, marked: set<Digest>, resident: set<Digest>, first: nat, last: nat, i: nat)
    requires Collected(before, disk, first, last, i) && i in disk.oldRoots
    requires CleanSoFar(before, disk, marked, first, i) && MarkedDeep(marked)
    ensures CleanSoFar(before, SweepRoot(disk, marked, resident, i), marked, first, i - 1)
  {
    var d := before.oldRoots[i];
    var done, all := SweptIds(before.oldRoots, i, first), SweptIds(before.oldRoots, i - 1, first);
    assert disk.oldRoots[i] == d;
    assert all == done + Ids(d);
    if all <= before.nodes.Keys {
      forall e | e in all && e !in disk.nodes ensures Gone(disk.nodes, marked, e) {
        assert e in done;
      }
      SweepIsComplete(disk.nodes, marked, resident, d, all);
    }
  }

  lemma PreservedStep(oldRoots: map<nat, Digest>, first: nat, last: nat)
    requires first <= last && first in oldRoots
    ensures Preserved(oldRoots, first, last) == Ids(oldRoots[first]) + Preserved(oldRoots, first + 1, last)
  {
  }

  lemma NothingSwept(disk: Disk, marked: set<Digest>, first: nat, last: nat)
    requires forall i: nat | first <= i <= last :: i in disk.oldRoots
    ensures Collected(disk, disk, first, last, first - 1)
    ensures CleanSoFar(disk, disk, marked, first, first - 1)
  {
    assert SweptIds(disk.oldRoots, first - 1, first) == {};
  }

  lemma CleanIsSwept(before: Disk, after: Disk, marked: set<Digest>, first: nat, stop: int)
    requires CleanSoFar(before, after, marked, first, stop)
    ensures SweptClean(before, after, marked, first, stop)
  {
  }

  lemma SweepRootKeeps(
      before: Disk, disk: Disk, marked: set<Digest>, resident: set<Digest>, first: nat, last: nat, i: nat)
    requires Collected(before, disk, first, last, i) && i in disk.oldRoots
    requires Preserved(before.oldRoots, first, last) <= marked
    requires MarkedDeep(marked) ==> CleanSoFar(before, disk, marked, first, i)
    ensures Collected(before, SweepRoot(disk, marked, resident, i), first, last, i - 1)
    ensures MarkedDeep(marked) ==> CleanSoFar(before, SweepRoot(disk, marked, resident, i), marked, first, i - 1)
  {
    SweepRootCollected(before, disk, marked, resident, first, last, i);
    if MarkedDeep(marked) {
      SweepRootClean(before, disk, marked, resident, first, last, i);
    }
  }

  datatype Outcome = Done | OldRootMissing | NodeMissing

  /**
   * The dfs of the mark phase: the nodes marked, and whether it got through. It fails at the first child that is
   * neither in the store nor resident in memory.
   */
  function MarkDfs(nodes: Nodes, resident: set<Digest>, d: Digest): (r: (set<Digest>, bool))
    ensures r.0 <= Ids(d) && (r.1 ==> r.0 == Ids(d))
    ensures Ids(d) <= nodes.Keys + resident ==> r.1
    decreases d
  {
    match d
    case LeafDigest(_, _, _) => ({d}, true)
    case InnerDigest(left, right, _, _, _, _) =>
      assert left in Ids(left) && right in Ids(right);
      if left !in nodes && left !in resident then ({d}, false)
      else
        var l := MarkDfs(nodes, resident, left);
        if !l.1 || (right !in nodes && right !in resident) then ({d} + l.0, false)
        else
          var r := MarkDfs(nodes, resident, right);
          ({d} + l.0 + r.0, r.1)
  }

  /** Whether marking gets through from old root i down to first, and if not, why. The root itself is looked up. */
  function MarkFrom(disk: Disk, resident: set<Digest>, first: nat, i: int): Outcome
    decreases i
  {
    if i < first then Done
    else if i !in disk.oldRoots then OldRootMissing
    else
      var d := disk.oldRoots[i];
      if d !in disk.nodes || !MarkDfs(disk.nodes, resident, d).1 then NodeMissing
      else MarkFrom(disk, resident, first, i - 1)
  }

  lemma {:induction false} MarkFromDone(disk: Disk, resident: set<Digest>, first: nat, i: int)
    requires MarkFrom(disk, resident, first, i).Done?
    ensures forall k: nat | first <= k <= i :: k in disk.oldRoots && disk.oldRoots[k] in disk.nodes
    decreases i
  {
    if i >= first {
      MarkFromDone(disk, resident, first, i - 1);
    }
  }

  /** The sweep from old root i downwards: the store it leaves, where it stops, and why. */
  function SweepFrom(disk: Disk, marked: set<Digest>, resident: set<Digest>, i: int): (Disk, int, Outcome)
    requires i >= -1
    decreases i
  {
    if i == -1 then (disk, -1, Done)
    else if i !in disk.oldRoots then (disk, i, OldRootMissing)
    else if disk.oldRoots[i] !in disk.nodes then (disk, i, NodeMissing)
    else SweepFrom(SweepRoot(disk, marked, resident, i), marked, resident, i - 1)
  }

  lemma {:induction false} SweepGoesDown(disk: Disk, marked: set<Digest>, resident: set<Digest>, i: int)
    requires i >= -1
    ensures SweepFrom(disk, marked, resident, i).1 <= i
    decreases i
  {
    if i >= 0 && i in disk.oldRoots && disk.oldRoots[i] in disk.nodes {
      SweepGoesDown(SweepRoot(disk, marked, resident, i), marked, resident, i - 1);
    }
  }

  lemma {:induction false} SweepFromCollected(
      before: Disk, disk: Disk, marked: set<Digest>, resident: set<Digest>, first: nat, last: nat, i: int)
    requires Collected(before, disk, first, last, i) && Preserved(before.oldRoots, first, last) <= marked && i >= -1
    ensures var (after, stop, _) := SweepFrom(disk, marked, resident, i);
      Collected(before, after, first, last, stop)
    decreases i
  {
    hide Sweep, Preserved, Collected;
    if i >= 0 && i in disk.oldRoots && disk.oldRoots[i] in disk.nodes {
      SweepRootCollected(before, disk, marked, resident, first, last, i);
      SweepFromCollected(before, SweepRoot(disk, marked, resident, i), marked, resident, first, last, i - 1);
    }
  }

  /** No sweep gets past index i: there is no old root on record, or the node of the one on record is gone. */
  predicate DeadEnd(disk: Disk, i: int) {
    i == -1 || i !in disk.oldRoots || disk.oldRoots[i] !in disk.nodes
  }

  /** A sweep leaves the entry and the node of a dead end as they are, and everything below it untouched. */
  lemma {:induction false} SweepEndsThere(disk: Disk, marked: set<Digest>, resident: set<Digest>, i: int, end: int)
    requires -1 <= end <= i && DeadEnd(disk, end)
    ensures var (after, stop, _) := SweepFrom(disk, marked, resident, i);
      && end <= stop && DeadEnd(after, end)
      && (forall k :: k in disk.oldRoots && k <= end ==> k in after.oldRoots && after.oldRoots[k] == disk.oldRoots[k])
    decreases i
  {
    if i > end && i in disk.oldRoots && disk.oldRoots[i] in disk.nodes {
      SweepEndsThere(SweepRoot(disk, marked, resident, i), marked, resident, i - 1, end);
    }
  }

  /** An old root that is an unmarked node of a newer one of the roots to sweep: it goes with that one. */
  ghost predicate Shadowed(oldRoots: map<nat, Digest>, marked: set<Digest>, i: nat, first: nat) {
    i in oldRoots && exists j: nat :: i < j < first && j in oldRoots && oldRoots[i] in Ids(oldRoots[j]) - marked
  }

  /** Exactly the preserved nodes are marked. The roots to sweep, down to a dead end, are on record and complete. */
  ghost predicate Orderly(before: Disk, marked: set<Digest>, end: int, first: nat, last: nat) {
    && -1 <= end < first <= last && DeadEnd(before, end)
    && (forall i: nat | end < i <= last :: i in before.oldRoots)
    && marked == Preserved(before.oldRoots, first, last)
    && SweptIds(before.oldRoots, end, first) <= before.nodes.Keys
  }

  lemma SweptIdsGrow(oldRoots: map<nat, Digest>, end: int, i: int, first: nat)
    requires end <= i
    ensures SweptIds(oldRoots, i, first) <= SweptIds(oldRoots, end, first)
  {
  }

  /** In the middle of a sweep, the node of the next root is gone if and only if the root is shadowed. */
  lemma GoneIffShadowed(before: Disk, disk: Disk, marked: set<Digest>, end: int, first: nat, last: nat, i: nat)
    requires Orderly(before, marked, end, first, last) && end < i < first
    requires Collected(before, disk, first, last, i) && CleanSoFar(before, disk, marked, first, i)
    ensures i in disk.oldRoots && disk.oldRoots[i] == before.oldRoots[i]
    ensures before.oldRoots[i] !in disk.nodes <==> Shadowed(before.oldRoots, marked, i, first)
  {
    var d := before.oldRoots[i];
    SweptIdsGrow(before.oldRoots, end, i, first);
    assert d in Ids(d);
    assert d in SweptIds(before.oldRoots, end, first);
    if Shadowed(before.oldRoots, marked, i, first) {
      assert d in SweptIds(before.oldRoots, i, first);
    }
  }

  /** What the sweep reports when it gets down to its dead end. */
  function AtTheEnd(disk: Disk, end: int): Outcome {
    if end == -1 then Done else if end !in disk.oldRoots then OldRootMissing else NodeMissing
  }

  lemma {:induction false} ReachesTheEnd(
      before: Disk, disk: Disk, marked: set<Digest>, resident: set<Digest>, first: nat, last: nat, end: int)
    requires Collected(before, disk, first, last, end) && DeadEnd(before, end)
    ensures SweepFrom(disk, marked, resident, end) == (disk, end, AtTheEnd(before, end))
  {
  }

  lemma {:induction false} SweepStopsFrom(
      before: Disk, disk: Disk, marked: set<Digest>, resident: set<Digest>, end: int, first: nat, last: nat, i: int)
    requires Orderly(before, marked, end, first, last) && end <= i < first
    requires Collected(before, disk, first, last, i) && CleanSoFar(before, disk, marked, first, i)
    requires MarkedDeep(marked)
    ensures
      var (after, stop, outcome) := SweepFrom(disk, marked, resident, i);
      && end <= stop <= i
      && (forall k: nat | stop < k <= i :: !Shadowed(before.oldRoots, marked, k, first))
      && (if stop == end then outcome == AtTheEnd(before, end)
          else outcome == NodeMissing && Shadowed(before.oldRoots, marked, stop, first))
    decreases i
  {
    hide Collected, CleanSoFar, Sweep, MarkedDeep;
    if i == end {
      ReachesTheEnd(before, disk, marked, resident, first, last, end);
    } else {
      GoneIffShadowed(before, disk, marked, end, first, last, i);
      if !Shadowed(before.oldRoots, marked, i, first) {
        SweepRootKeeps(before, disk, marked, resident, first, last, i);
        SweepStopsFrom(before, SweepRoot(disk, marked, resident, i), marked, resident, end, first, last, i - 1);
      }
    }
  }

  /**
    * Where a sweep ends: at the newest old root that went with a newer swept one, and then with an error. It gets
    * down to its dead end if and only if there is no such root.
    */
  lemma SweepGetsThroughIff(
      before: Disk, marked: set<Digest>, resident: set<Digest>, end: int, first: nat, last: nat)
    requires Orderly(before, marked, end, first, last)
    ensures
      var (after, stop, outcome) := SweepFrom(before, marked, resident, first - 1);
      && end <= stop
      && (stop == end <==> forall k: nat | end < k < first :: !Shadowed(before.oldRoots, marked, k, first))
      && (stop == end ==> outcome == AtTheEnd(before, end))
      && (stop > end ==> outcome == NodeMissing && Shadowed(before.oldRoots, marked, stop, first))
      && (forall k: nat | stop < k < first :: !Shadowed(before.oldRoots, marked, k, first))
  {
    PreservedDeep(before.oldRoots, first, last);
    NothingSwept(before, marked, first, last);
    SweepStopsFrom(before, before, marked, resident, end, first, last, first - 1);
  }

  lemma {:induction false} WriteBackSame(n: Node, nodes: Nodes)
    ensures SameTree(WriteBack(n, nodes).0, n)
    decreases n
  {
    if n.wroteBack {
      IdDetermines(n, n);
    } else if n.Inner? {
      var nodes1 := nodes[Id(n) := Serialize(n)];
      WriteBackSame(n.left, nodes1);
      WriteBackSame(n.right, WriteBack(n.left, nodes1).1);
    }
  }

  /** One edit and the commit that follows it. */
  function EditAndCommit(root: Option<Node>, disk: Disk, op: Op): (r: (Option<Node>, Disk))
    requires ExactRoot(root)
    ensures ExactRoot(r.0)
  {
    var edited := Apply(root, op);
    if edited.Some? then
      WriteBackSame(edited.value, disk.nodes);
      SameTreeSame(WriteBack(edited.value, disk.nodes).0, edited.value);
      Commit(edited, disk)
    else Commit(edited, disk)
  }

  /** A commit of a tree records the root it replaces. */
  ghost predicate Recorded(disk: Disk, after: Disk) {
    && disk.root.Some? && disk.nodes.Keys <= after.nodes.Keys
    && after.oldRoots == disk.oldRoots[disk.nextOldRoot := disk.root.value]
    && after.nextOldRoot == disk.nextOldRoot + 1
  }

  lemma {:induction false} WriteBackGrows(n: Node, nodes: Nodes)
    ensures nodes.Keys <= WriteBack(n, nodes).1.Keys
    decreases n
  {
    if !n.wroteBack && n.Inner? {
      var nodes1 := nodes[Id(n) := Serialize(n)];
      WriteBackGrows(n.left, nodes1);
      WriteBackGrows(n.right, WriteBack(n.left, nodes1).1);
    }
  }

  lemma PutIsRecorded(root: Option<Node>, disk: Disk, op: Op)
    requires ExactRoot(root) && op.PutOp? && disk.root.Some?
    ensures Recorded(disk, EditAndCommit(root, disk, op).1)
  {
    WriteBackGrows(Apply(root, op).value, disk.nodes);
  }

  lemma CommitFirst(a: Entry<Value>)
    ensures
      var l := Leaf(a.key, a.value, 1, true);
      var (one, after) := EditAndCommit(None, EMPTY_DISK, PutOp(a.key, a.value, 1));
      && one == Some(l) && after.root == Some(Id(l))
      && Id(l) in after.nodes && after.oldRoots == map[] && after.nextOldRoot == 0
  {
  }

  /** A second and larger key splits a leaf into two. */
  lemma CommitTwo(disk: Disk, a: Entry<Value>, b: Entry<Value>)
    requires Less(a.key, b.key)
    ensures
      var l, r := Leaf(a.key, a.value, 1, true), Leaf(b.key, b.value, 2, true);
      var (two, after) := EditAndCommit(Some(l), disk, PutOp(b.key, b.value, 2));
      && two.Some? && two.value.Inner? && two.value.left == l && two.value.right == r
      && after.root == Some(Id(two.value)) && {Id(r), Id(two.value)} <= after.nodes.Keys
  {
    LessAsymmetric(a.key, b.key);
    var l, r := Leaf(a.key, a.value, 1, true), NewLeaf(b.key, b.value, 2);
    var n := Join(l, l, r, 2);
    assert Insert(l, b.key, b.value, 2) == n && n.left == l && n.right == r && !n.wroteBack;
    var nodes1 := disk.nodes[Id(n) := Serialize(n)];
    assert WriteBack(l, nodes1) == (l, nodes1);
    assert WriteBack(r, nodes1) == (Leaf(b.key, b.value, 2, true), nodes1[Id(r) := Serialize(r)]);
  }

  /** Deleting the smaller key of two leaves the larger one's leaf. */
  lemma CommitDelete(disk: Disk, n: Node, view: nat)
    requires ExactRoot(Some(n)) && n.Inner? && n.left.Leaf? && n.right.Leaf? && n.right.wroteBack && disk.root.Some?
    ensures
      var (root, after) := EditAndCommit(Some(n), disk, DeleteOp(n.left.key, view));
      root == Some(n.right) && after.root == Some(Id(n.right)) && Recorded(disk, after)
  {
    assert Delete(n.left, n.left.key, view) == (None, true);
    assert Leq(n.left.key, n.left.key);
  }

  lemma {:induction false} SweepTwoLeaves(nodes: Nodes, resident: set<Digest>, l: Digest, r: Digest, d: Digest)
    requires d.InnerDigest? && d.left == l && d.right == r && l.LeafDigest? && r.LeafDigest? && l != r && l in nodes
    ensures l !in Sweep(nodes, {r}, resident, d)
  {
    var nodes1 := nodes - {d};
    assert Sweep(nodes1, {r}, resident, l) == nodes1 - {l};
  }

  lemma {:induction false} SweepStopsAtLeaf(disk: Disk, resident: set<Digest>)
    requires disk.oldRoots.Keys == {0, 1, 2}
    requires
      var l, d, r := disk.oldRoots[0], disk.oldRoots[1], disk.oldRoots[2];
      && d.InnerDigest? && d.left == l && d.right == r && l.LeafDigest? && r.LeafDigest? && l != r
      && {l, d} <= disk.nodes.Keys
    ensures
      var (after, stop, outcome) := SweepFrom(disk, Preserved(disk.oldRoots, 2, 2), resident, 1);
      stop == 0 && outcome == NodeMissing && 0 in after.oldRoots && after.oldRoots[0] !in after.nodes
  {
    var l, d, r := disk.oldRoots[0], disk.oldRoots[1], disk.oldRoots[2];
    assert d in Ids(d) && Ids(r) == {r};
    assert Preserved(disk.oldRoots, 2, 2) == {r};
    SweepTwoLeaves(disk.nodes, resident, l, r, d);
  }

  /**
   * Four commits are enough to stop a sweep: one key, then a second and larger one, then the first one deleted, then
   * any key. The first root is a leaf of the second and goes with it, so the sweep ends in front of the first root,
   * whose entry stays on record.
   */
  lemma SweepStopsEarly(a: Entry<Value>, b: Entry<Value>, c: Entry<Value>, resident: set<Digest>)
    requires Less(a.key, b.key)
    ensures
      var (one, disk1) := EditAndCommit(None, EMPTY_DISK, PutOp(a.key, a.value, 1));
      var (two, disk2) := EditAndCommit(one, disk1, PutOp(b.key, b.value, 2));
      var (three, disk3) := EditAndCommit(two, disk2, DeleteOp(a.key, 3));
      var (four, disk4) := EditAndCommit(three, disk3, PutOp(c.key, c.value, 4));
      && disk4.nextOldRoot == 3
      && var (after, stop, outcome) := SweepFrom(disk4, Preserved(disk4.oldRoots, 2, 2), resident, 1);
         stop == 0 && outcome == NodeMissing && 0 in after.oldRoots && after.oldRoots[0] !in after.nodes
  {
    hide SweepFrom, Preserved, EditAndCommit;
    CommitFirst(a);
    var (one, disk1) := EditAndCommit(None, EMPTY_DISK, PutOp(a.key, a.value, 1));
    var (two, disk2) := EditAndCommit(one, disk1, PutOp(b.key, b.value, 2));
    CommitTwo(disk1, a, b);
    PutIsRecorded(one, disk1, PutOp(b.key, b.value, 2));
    var (three, disk3) := EditAndCommit(two, disk2, DeleteOp(a.key, 3));
    CommitDelete(disk2, two.value, 3);
    var (four, disk4) := EditAndCommit(three, disk3, PutOp(c.key, c.value, 4));
    PutIsRecorded(three, disk3, PutOp(c.key, c.value, 4));
    SweepStopsAtLeaf(disk4, resident);
  }

  lemma PreservedDeep(oldRoots: map<nat, Digest>, first: nat, last: nat)
    ensures MarkedDeep(Preserved(oldRoots, first, last))
  {
    forall e | e in Preserved(oldRoots, first, last) ensures Ids(e) <= Preserved(oldRoots, first, last) {
      var i: nat :| i in oldRoots && first <= i <= last && e in Ids(oldRoots[i]);
      IdsNested(oldRoots[i], e);
    }
  }
}
