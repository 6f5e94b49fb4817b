/**
 * Differences between trees (DumpDiff and ApplyDiff in avl/tree.go, populateDiffs in avl/node.go). A difference is
 * the list of node IDs followed by the stream of node records, both in preorder and cut off at nodes that are not
 * newer than the previous view.
 */
module AvlDiff {
  import opened Bytes
  import opened SortedSeq
  import opened AvlNode
  import opened AvlLineage
  import opened AvlStore

  datatype DiffRecord =
    | DiffLeaf(id: Digest, viewID: nat, key: Key, value: Value)
    | DiffInner(id: Digest, viewID: nat, left: Digest, right: Digest)

  datatype Diff = Diff(ids: seq<Digest>, records: seq<DiffRecord>)

  datatype DiffError =
    | DirtyTree | Cycle | NodeNotFound | EndOfStream | ViewTooOld | UnexpectedNode | InvalidOrder
    | HashMismatch | DepthOverflow | InvalidBalance | InvalidView

  datatype Result<+T> = Ok(value: T) | Err(error: DiffError)

  /** serializeForDifference */
  function ToRecord(n: Node): DiffRecord {
    match n
    case Leaf(key, value, viewID, _) => DiffLeaf(Id(n), viewID, key, value)
    case Inner(left, right, _, _, _, viewID, _) => DiffInner(Id(n), viewID, Id(left), Id(right))
  }

  /** The nodes iterateDiff visits. */
  function DiffNodes(n: Node, prevView: nat): seq<Node> {
    if n.viewID <= prevView then []
    else if n.Leaf? then [n]
    else [n] + DiffNodes(n.left, prevView) + DiffNodes(n.right, prevView)
  }

  function IdsOf(ns: seq<Node>): seq<Digest> {
    seq(|ns|, i requires 0 <= i < |ns| => Id(ns[i]))
  }

  function RecordsOf(ns: seq<Node>): seq<DiffRecord> {
    seq(|ns|, i requires 0 <= i < |ns| => ToRecord(ns[i]))
  }

  function Dump(n: Node, prevView: nat): Diff {
    Diff(IdsOf(DiffNodes(n, prevView)), RecordsOf(DiffNodes(n, prevView)))
  }

  function IdSet(ids: seq<Digest>): set<Digest> {
    set d | d in ids
  }

  /** What populateDiffs threads through its recursion: the rest of the stream, visited, and unresolved. */
  datatype Pending = Pending(records: seq<DiffRecord>, visited: set<Digest>, unresolved: set<Digest>)

  /** Dequeue with ApplyDiff's OnDequeue hook. The queue's own view ID is never set, so it stays 0. */
  function Dequeue(rootId: Digest, st: Pending): (r: Result<(DiffRecord, Pending)>)
    ensures r.Ok? ==> |r.value.1.records| == |st.records| - 1
  {
    if st.records == [] then Err(EndOfStream)
    else
      var rec := st.records[0];
      if rec.viewID <= 0 then Err(ViewTooOld)
      else if rec.id != rootId && rec.id !in st.unresolved then Err(UnexpectedNode)
      else
        var left := if rec.id != rootId then st.unresolved - {rec.id} else st.unresolved;
        var unresolved := if rec.DiffInner? then left + {rec.left, rec.right} else left;
        Ok((rec, st.(records := st.records[1..], unresolved := unresolved)))
  }

  function Populate(nodes: Nodes, ids: set<Digest>, rootId: Digest, d: Digest, st: Pending):
    (r: Result<(Node, Pending)>)
    requires Consistent(nodes)
    ensures r.Ok? ==> |r.value.1.records| <= |st.records|
    decreases |st.records|
  {
    if d in st.visited then Err(Cycle)
    else
      var seen := st.(visited := st.visited + {d});
      if d !in ids then
        var n := Load(nodes, d);
        if n.None? then Err(NodeNotFound) else Ok((n.value, seen))
      else
        var q := Dequeue(rootId, seen);
        if q.Err? then Err(q.error)
        else
          var (rec, st1) := q.value;
          if rec.id != d then Err(InvalidOrder)
          else
            match rec
            case DiffLeaf(_, viewID, key, value) =>
              var n := Leaf(key, value, viewID, false);
              if Id(n) != d then Err(HashMismatch) else Ok((n, st1))
            case DiffInner(_, viewID, left, right) =>
              var l := Populate(nodes, ids, rootId, left, st1);
              if l.Err? then Err(l.error)
              else
                var r := Populate(nodes, ids, rootId, right, l.value.1);
                if r.Err? then Err(r.error)
                else
                  var n := Assemble(l.value.0, r.value.0, viewID, d);
                  if n.Err? then Err(n.error) else Ok((n.value, r.value.1))
  }

  /** The checks populateDiffs makes on an inner node once both children are there. */
  function Assemble(l: Node, r: Node, viewID: nat, d: Digest): Result<Node> {
    var depth := Max(Depth(l), Depth(r));
    var n := Inner(l, r, MaxKey(l.key, r.key), depth + 1, (Size(l) + Size(r)) % TWO64, viewID, false);
    if depth >= 255 then Err(DepthOverflow)
    else if !(-1 <= Depth(l) - Depth(r) <= 1) then Err(InvalidBalance)
    else if viewID < l.viewID || viewID < r.viewID then Err(InvalidView)
    else if Id(n) != d then Err(HashMismatch)
    else Ok(n)
  }

  /** The root the receiver ends up with. */
  function ApplyDiff(root: Option<Node>, nodes: Nodes, diff: Diff): Result<Option<Node>>
    requires Consistent(nodes)
  {
    if diff.ids == [] then Ok(root)
    else if root.Some? && !root.value.wroteBack then Err(DirtyTree)
    else
      var r := Populate(nodes, IdSet(diff.ids), diff.ids[0], diff.ids[0], Pending(diff.records, {}, {}));
      if r.Err? then Err(r.error) else Ok(Some(r.value.0))
  }

  /** An accepted stream builds a tree with exactly the announced hash, whatever the stream contained. */
  lemma {:induction false} PopulateHashes(nodes: Nodes, ids: set<Digest>, rootId: Digest, d: Digest, st: Pending)
    requires Consistent(nodes)
    requires Populate(nodes, ids, rootId, d, st).Ok?
    ensures Id(Populate(nodes, ids, rootId, d, st).value.0) == d
    decreases |st.records|
  {
    if d !in ids {
      LoadedIsStored(d, nodes);
    }
  }

  /** Integrity: a difference that is accepted and ends with a tree's checksum yields that tree. */
  lemma {:induction false} DiffIntegrity(root: Option<Node>, nodes: Nodes, diff: Diff, t: Node)
    requires Consistent(nodes) && diff.ids != []
    requires var r := ApplyDiff(root, nodes, diff); r.Ok? && Id(r.value.value) == Id(t)
    ensures var n := ApplyDiff(root, nodes, diff).value.value;
      && SameTree(n, t) && Contents(n) == Contents(t)
      && Depth(n) == Depth(t) && Size(n) == Size(t)
      && Id(t) == diff.ids[0]
  {
    PopulateHashes(nodes, IdSet(diff.ids), diff.ids[0], diff.ids[0], Pending(diff.records, {}, {}));
    var n := ApplyDiff(root, nodes, diff).value.value;
    IdDetermines(n, t);
    SameTreeSame(n, t);
  }

  lemma {:induction false} PopulateIsDurable(nodes: Nodes, ids: set<Digest>, rootId: Digest, d: Digest, st: Pending)
    requires Consistent(nodes) && Populate(nodes, ids, rootId, d, st).Ok?
    ensures Durable(Populate(nodes, ids, rootId, d, st).value.0, nodes)
    decreases |st.records|
  {
    if d !in ids {
      LoadedIsStored(d, nodes);
    } else {
      var (rec, st1) := Dequeue(rootId, st.(visited := st.visited + {d})).value;
      if rec.DiffInner? {
        PopulateIsDurable(nodes, ids, rootId, rec.left, st1);
        PopulateIsDurable(nodes, ids, rootId, rec.right, Populate(nodes, ids, rootId, rec.left, st1).value.1);
      }
    }
  }

  /** What comes off the stream is not flagged as written back; what is flagged was stored. */
  lemma AcceptedIsDurable(root: Option<Node>, nodes: Nodes, diff: Diff)
    requires Consistent(nodes) && diff.ids != [] && ApplyDiff(root, nodes, diff).Ok?
    ensures DurableRoot(ApplyDiff(root, nodes, diff).value, nodes)
  {
    PopulateIsDurable(nodes, IdSet(diff.ids), diff.ids[0], diff.ids[0], Pending(diff.records, {}, {}));
  }

  /** Every tree that the store holds in full is balanced and has its views in order. */
  ghost predicate StoredSound(nodes: Nodes)
    requires Consistent(nodes)
  {
    forall d :: Load(nodes, d).Some? ==> Balanced(Load(nodes, d).value) && ViewsOrdered(Load(nodes, d).value)
  }

  lemma {:induction false} PopulateIsSound(nodes: Nodes, ids: set<Digest>, rootId: Digest, d: Digest, st: Pending)
    requires Consistent(nodes) && StoredSound(nodes) && Populate(nodes, ids, rootId, d, st).Ok?
    ensures var n := Populate(nodes, ids, rootId, d, st).value.0; Balanced(n) && ViewsOrdered(n)
    decreases |st.records|
  {
    if d !in ids {
      assert Load(nodes, d).Some?;
    } else {
      var (rec, st1) := Dequeue(rootId, st.(visited := st.visited + {d})).value;
      if rec.DiffInner? {
        PopulateIsSound(nodes, ids, rootId, rec.left, st1);
        PopulateIsSound(nodes, ids, rootId, rec.right, Populate(nodes, ids, rootId, rec.left, st1).value.1);
      }
    }
  }

  /** Before any checksum is compared: an accepted tree is balanced, and no child is newer than its parent. */
  lemma AcceptedIsSound(root: Option<Node>, nodes: Nodes, diff: Diff)
    requires Consistent(nodes) && StoredSound(nodes) && diff.ids != [] && ApplyDiff(root, nodes, diff).Ok?
    ensures var n := ApplyDiff(root, nodes, diff).value.value; Balanced(n) && ViewsOrdered(n)
  {
    PopulateIsSound(nodes, IdSet(diff.ids), diff.ids[0], diff.ids[0], Pending(diff.records, {}, {}));
  }

  /**
   * The entries of a stream, read without rebuilding anything: its leaves in order, with the entries of stored
   * subtrees where it refers to them. Returns what is left of the stream as well.
   */
  function StreamEntries(nodes: Nodes, ids: set<Digest>, d: Digest, records: seq<DiffRecord>):
    (r: (seq<Entry<Value>>, seq<DiffRecord>))
    requires Consistent(nodes)
    ensures |r.1| <= |records|
    decreases |records|
  {
    if d !in ids then
      var n := Load(nodes, d);
      (if n.None? then [] else Contents(n.value), records)
    else if records == [] then ([], [])
    else
      match records[0]
      case DiffLeaf(_, _, key, value) => ([Entry(key, value)], records[1..])
      case DiffInner(_, _, left, right) =>
        var (a, rest) := StreamEntries(nodes, ids, left, records[1..]);
        var (b, rest') := StreamEntries(nodes, ids, right, rest);
        (a + b, rest')
  }

  lemma {:induction false} PopulateEntries(nodes: Nodes, ids: set<Digest>, rootId: Digest, d: Digest, st: Pending)
    requires Consistent(nodes) && Populate(nodes, ids, rootId, d, st).Ok?
    ensures var (n, st') := Populate(nodes, ids, rootId, d, st).value;
      StreamEntries(nodes, ids, d, st.records) == (Contents(n), st'.records)
    decreases |st.records|
  {
    if d !in ids {
      assert Load(nodes, d).Some?;
    } else {
      var (rec, st1) := Dequeue(rootId, st.(visited := st.visited + {d})).value;
      if rec.DiffInner? {
        PopulateEntries(nodes, ids, rootId, rec.left, st1);
        PopulateEntries(nodes, ids, rootId, rec.right, Populate(nodes, ids, rootId, rec.left, st1).value.1);
      }
    }
  }

  /** The order of keys is never looked at: an accepted tree is in order if and only if the stream was. */
  lemma {:induction false} AcceptedIsSortedIff(root: Option<Node>, nodes: Nodes, diff: Diff)
    requires Consistent(nodes) && diff.ids != [] && ApplyDiff(root, nodes, diff).Ok?
    ensures Sorted(Contents(ApplyDiff(root, nodes, diff).value.value)) <==>
      Sorted(StreamEntries(nodes, IdSet(diff.ids), diff.ids[0], diff.records).0)
  {
    PopulateEntries(nodes, IdSet(diff.ids), diff.ids[0], diff.ids[0], Pending(diff.records, {}, {}));
  }

  /** A stream whose two leaves are the wrong way round is accepted by a receiver that has nothing. */
  lemma UnsortedIsAccepted(a: Entry<Value>, b: Entry<Value>, view: nat)
    requires Less(a.key, b.key) && view > 0
    ensures
      var l, r := LeafDigest(view, b.key, b.value), LeafDigest(view, a.key, a.value);
      var top := InnerDigest(l, r, view, b.key, 1, 2);
      var diff := Diff([top, l, r], [DiffInner(top, view, l, r), DiffLeaf(l, view, b.key, b.value),
                                     DiffLeaf(r, view, a.key, a.value)]);
      var accepted := ApplyDiff(None, map[], diff);
      accepted.Ok? && Contents(accepted.value.value) == [b, a] && !Sorted(Contents(accepted.value.value))
  {
    LessAsymmetric(a.key, b.key);
    var l, r := LeafDigest(view, b.key, b.value), LeafDigest(view, a.key, a.value);
    var top := InnerDigest(l, r, view, b.key, 1, 2);
    var ids := IdSet([top, l, r]);
    var records := [DiffInner(top, view, l, r), DiffLeaf(l, view, b.key, b.value), DiffLeaf(r, view, a.key, a.value)];
    var st1 := Pending(records[1..], {top}, {l, r});
    var st2 := Pending(records[1..][1..], {top, l}, {r});
    var st3 := Pending(records[1..][1..][1..], {top, l, r}, {});
    var nl, nr := Leaf(b.key, b.value, view, false), Leaf(a.key, a.value, view, false);
    assert Dequeue(top, Pending(records, {} + {top}, {})) == Ok((records[0], st1)) by {
      assert {} + {l, r} == {l, r} && {} + {top} == {top};
    }
    assert Dequeue(top, Pending(records[1..], {top} + {l}, {l, r})) == Ok((records[1], st2)) by {
      assert {l, r} - {l} == {r} && {top} + {l} == {top, l};
    }
    assert Dequeue(top, Pending(records[1..][1..], {top, l} + {r}, {r})) == Ok((records[2], st3)) by {
      assert {r} - {r} == {} && {top, l} + {r} == {top, l, r};
    }
    assert Populate(map[], ids, top, l, st1) == Ok((nl, st2));
    assert Populate(map[], ids, top, r, st2) == Ok((nr, st3));
    PopulateInner(map[], ids, top, top, Pending(records, {}, {}), st1, records[0], nl, st2, nr, st3);
    var n := Assemble(nl, nr, view, top).value;
    assert Contents(n) == [b, a] && Contents(n)[0] == b && Contents(n)[1] == a;
  }

  lemma {:induction false} RecordsOfInner(n: Node, prevView: nat, rest: seq<DiffRecord>)
    requires n.Inner? && n.viewID > prevView
    ensures RecordsOf(DiffNodes(n, prevView)) + rest
         == [ToRecord(n)] + (RecordsOf(DiffNodes(n.left, prevView)) + (RecordsOf(DiffNodes(n.right, prevView)) + rest))
  {
  }

  /** The IDs announced by a difference are the nodes newer than the previous view. */
  lemma {:induction false} DiffNodesAreNewer(n: Node, prevView: nat)
    ensures forall d :: d in IdSet(IdsOf(DiffNodes(n, prevView))) ==> d.viewID > prevView && d in Ids(Id(n))
    ensures n.viewID > prevView ==> IdsOf(DiffNodes(n, prevView)) != [] && IdsOf(DiffNodes(n, prevView))[0] == Id(n)
  {
    var ns := DiffNodes(n, prevView);
    if n.viewID > prevView && n.Inner? {
      DiffNodesAreNewer(n.left, prevView);
      DiffNodesAreNewer(n.right, prevView);
      var a, b := DiffNodes(n.left, prevView), DiffNodes(n.right, prevView);
      assert IdsOf(ns) == [Id(n)] + IdsOf(a) + IdsOf(b);
      assert forall d :: d in IdsOf(a) ==> d in IdSet(IdsOf(a));
      assert forall d :: d in IdsOf(b) ==> d in IdSet(IdsOf(b));
    }
  }

  /** A node that the sender does not send can be loaded by the receiver, one that it sends is announced. */
  ghost predicate Covered(n: Node, prevView: nat, ids: set<Digest>, nodes: Nodes) {
    if n.viewID <= prevView then Ids(Id(n)) <= nodes.Keys
    else
      Id(n) in ids && (n.Inner? ==> Covered(n.left, prevView, ids, nodes) && Covered(n.right, prevView, ids, nodes))
  }

  /** One level of populateDiffs on an announced inner node. */
  lemma {:induction false} PopulateInner(
      nodes: Nodes, ids: set<Digest>, rootId: Digest, d: Digest, st: Pending, st1: Pending, rec: DiffRecord, l: Node,
      st2: Pending, r: Node, st3: Pending)
    requires Consistent(nodes) && d in ids && d !in st.visited
    requires Dequeue(rootId, st.(visited := st.visited + {d})) == Ok((rec, st1)) && rec.DiffInner? && rec.id == d
    requires Populate(nodes, ids, rootId, rec.left, st1) == Ok((l, st2))
    requires Populate(nodes, ids, rootId, rec.right, st2) == Ok((r, st3))
    requires Assemble(l, r, rec.viewID, d).Ok?
    ensures Populate(nodes, ids, rootId, d, st) == Ok((Assemble(l, r, rec.viewID, d).value, st3))
  {
  }

  /** What reading the records of a subtree off the stream must achieve. */
  ghost predicate Rebuilds(n: Node, r: Result<(Node, Pending)>, st: Pending, rest: seq<DiffRecord>) {
    && r.Ok? && SameTree(r.value.0, n)
    && r.value.1.records == rest
    && r.value.1.visited <= st.visited + Ids(Id(n))
    && st.unresolved - Ids(Id(n)) <= r.value.1.unresolved
  }

  /** Dequeuing a subtree's root leaves the records of its children, which are now expected. */
  lemma DequeueInner(n: Node, prevView: nat, rootId: Digest, st: Pending, rest: seq<DiffRecord>) returns (st1: Pending)
    requires n.Inner? && n.viewID > prevView
    requires st.records == RecordsOf(DiffNodes(n, prevView)) + rest
    requires Id(n) == rootId || Id(n) in st.unresolved
    ensures Dequeue(rootId, st) == Ok((ToRecord(n), st1))
    ensures st1.visited == st.visited
    ensures st1.records == RecordsOf(DiffNodes(n.left, prevView)) + (RecordsOf(DiffNodes(n.right, prevView)) + rest)
    ensures Id(n.left) in st1.unresolved && Id(n.right) in st1.unresolved && st.unresolved - {Id(n)} <= st1.unresolved
  {
    RecordsOfInner(n, prevView, rest);
    st1 := Dequeue(rootId, st).value.1;
  }

  lemma AvlChildren(n: Node)
    requires n.Inner? && Avl(n) && Size(n) < TWO64
    ensures Avl(n.left) && Avl(n.right) && Size(n.left) < TWO64 && Size(n.right) < TWO64
  {
    SortedParts(Contents(n.left), Contents(n.right));
  }

  /** Reading the records of a subtree off the stream rebuilds it and leaves the rest of the stream. */
  lemma {:induction false} PopulateRebuilds(
      n: Node, prevView: nat, nodes: Nodes, ids: set<Digest>, rootId: Digest, st: Pending, rest: seq<DiffRecord>)
    requires Consistent(nodes) && Avl(n) && Size(n) < TWO64
    requires Covered(n, prevView, ids, nodes) && (forall d :: d in ids ==> d.viewID > prevView)
    requires st.records == RecordsOf(DiffNodes(n, prevView)) + rest
    requires st.visited !! Ids(Id(n))
    requires n.viewID > prevView ==> Id(n) == rootId || Id(n) in st.unresolved
    ensures Rebuilds(n, Populate(nodes, ids, rootId, Id(n), st), st, rest)
    decreases n
  {
    var d := Id(n);
    assert d in Ids(d);
    var seen := st.(visited := st.visited + {d});
    if n.viewID <= prevView {
      assert st.records == rest;
      LoadStored(n, nodes);
    } else if n.Leaf? {
      assert st.records == [ToRecord(n)] + rest;
    } else {
      var right := RecordsOf(DiffNodes(n.right, prevView)) + rest;
      var st1 := DequeueInner(n, prevView, rootId, seen, rest);
      IdsAreDistinct(n);
      AvlChildren(n);
      PopulateRebuilds(n.left, prevView, nodes, ids, rootId, st1, right);
      var (l, st2) := Populate(nodes, ids, rootId, Id(n.left), st1).value;
      assert Id(n.right) in Ids(Id(n.right));
      PopulateRebuilds(n.right, prevView, nodes, ids, rootId, st2, rest);
      var (r, st3) := Populate(nodes, ids, rootId, Id(n.right), st2).value;
      AssembleRebuilds(n, l, r);
      PopulateInner(nodes, ids, rootId, d, st, st1, ToRecord(n), l, st2, r, st3);
    }
  }

  lemma NoWrap(size: nat)
    requires size < TWO64
    ensures size % TWO64 == size
  {
  }

  lemma {:induction false} AssembleRebuilds(n: Node, l: Node, r: Node)
    requires n.Inner? && Avl(n) && Size(n) < TWO64 && SameTree(l, n.left) && SameTree(r, n.right)
    ensures var a := Assemble(l, r, n.viewID, Id(n)); a.Ok? && SameTree(a.value, n)
  {
    SameTreeSame(l, n.left);
    SameTreeSame(r, n.right);
    DepthBound(n);
    NoWrap(n.size);
    IdDetermines(l, n.left);
    IdDetermines(r, n.right);
  }

  /** If old nodes are nodes of the shared tree and the receiver stores that tree, everything is covered. */
  lemma {:induction false} FollowersAreCovered(
      n: Node, prevView: nat, shared: Option<Node>, nodes: Nodes, ids: set<Digest>)
    requires ViewsOrdered(n) && FollowsNode(n, RootIds(shared), prevView) && RootIds(shared) <= nodes.Keys
    requires IdSet(IdsOf(DiffNodes(n, prevView))) <= ids
    ensures Covered(n, prevView, ids, nodes)
  {
    if n.viewID <= prevView {
      IdsNested(Id(shared.value), Id(n));
    } else {
      var ns := DiffNodes(n, prevView);
      assert Id(n) == IdsOf(ns)[0] && Id(n) in IdSet(IdsOf(ns));
      if n.Inner? {
        var a, b := DiffNodes(n.left, prevView), DiffNodes(n.right, prevView);
        assert IdsOf(ns) == [Id(n)] + IdsOf(a) + IdsOf(b);
        assert IdSet(IdsOf(a)) <= IdSet(IdsOf(ns)) && IdSet(IdsOf(b)) <= IdSet(IdsOf(ns));
        FollowersAreCovered(n.left, prevView, shared, nodes, ids);
        FollowersAreCovered(n.right, prevView, shared, nodes, ids);
      }
    }
  }

  /**
   * Two nodes share a committed tree; the sender then runs any inserts and deletes at views above prevView. The
   * difference is always accepted, and it brings the receiver to the sender's tree if and only if the sender's root
   * is newer than prevView or is still the shared root.
   */
  lemma {:induction false} DiffRoundTrip(
      shared: Option<Node>, prevView: nat, ops: seq<Op>, receiver: Option<Node>, nodes: Nodes)
    requires AvlRoot(shared, prevView) && Ascending(prevView + 1, ops)
    requires var sender := Run(shared, ops); sender.Some? && Size(sender.value) < TWO64
    requires Consistent(nodes) && RootIds(shared) <= nodes.Keys
    requires receiver.Some? <==> shared.Some?
    requires receiver.Some? ==> SameTree(receiver.value, shared.value) && receiver.value.wroteBack
    ensures var sender := Run(shared, ops).value;
      var r := ApplyDiff(receiver, nodes, Dump(sender, prevView));
      && r.Ok?
      && (r.value.Some? && Id(r.value.value) == Id(sender) <==>
            sender.viewID > prevView || (shared.Some? && Id(shared.value) == Id(sender)))
      && (r.value.Some? && Id(r.value.value) == Id(sender) ==>
            SameTree(r.value.value, sender) && Entries(r.value) == Contents(sender))
  {
    var sender := Run(shared, ops).value;
    RunRefinesFrom(shared, prevView, ops);
    RunFollows(shared, ops, RootIds(shared), prevView, prevView + 1);
    FollowsNodeIsFollows(sender, RootIds(shared), prevView);
    var diff := Dump(sender, prevView);
    DiffNodesAreNewer(sender, prevView);
    if sender.viewID > prevView {
      var ids := IdSet(diff.ids);
      FollowersAreCovered(sender, prevView, shared, nodes, ids);
      assert diff.records == diff.records + [];
      PopulateRebuilds(sender, prevView, nodes, ids, Id(sender), Pending(diff.records, {}, {}), []);
    }
    var r := ApplyDiff(receiver, nodes, diff);
    if receiver.Some? { IdDetermines(receiver.value, shared.value); }
    if r.value.Some? {
      IdDetermines(r.value.value, sender);
      if SameTree(r.value.value, sender) { SameTreeSame(r.value.value, sender); }
    }
  }

  lemma RunRefinesFrom(root: Option<Node>, view: nat, ops: seq<Op>)
    requires AvlRoot(root, view) && Ascending(view + 1, ops)
    ensures AvlRoot(Run(root, ops), if ops == [] then view else ops[|ops| - 1].view)
  {
    RunRefines(root, view, ops);
  }

  /**
   * A deletion can leave the root older than the previous view: with any two leaves written at one view, deleting
   * the first one later gives an empty difference, and the receiver keeps both.
   */
  lemma {:induction false} HoistedRootIsNotSent(a: Entry<Value>, b: Entry<Value>, view: nat, later: nat, nodes: Nodes)
    requires Less(a.key, b.key) && view < later && Consistent(nodes)
    ensures var kept := Leaf(b.key, b.value, view, true);
      var shared := Inner(Leaf(a.key, a.value, view, true), kept, b.key, 1, 2, view, true);
      && Avl(shared) && Contents(shared) == [a, b] && Delete(shared, a.key, later) == (Some(kept), true)
      && ApplyDiff(Some(shared), nodes, Dump(kept, view)) == Ok(Some(shared))
  {
    LessAsymmetric(a.key, b.key);
    var kept := Leaf(b.key, b.value, view, true);
    assert DiffNodes(kept, view) == [];
  }
}
