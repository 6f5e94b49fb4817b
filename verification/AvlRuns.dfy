/**
 * Whole runs of a tree over its store: edits, commits at strictly larger view IDs, collections of old roots and
 * restarts, in any order.
 */
module AvlRuns {
  import opened SortedSeq
  import opened AvlNode
  import opened AvlLineage
  import opened AvlStore
  import opened AvlGc

  /**
   * bounds[i] is the view ID at which the i-th recorded old root was committed, committed the one of the latest
   * commit; old roots from floor on have not been collected. These three are history, not program state.
   */
  datatype World = World(
    root: Option<Node>, view: nat, disk: Disk, bounds: seq<nat>, committed: nat, floor: nat)

  /** Insert or Delete, at a view ID above that of the latest commit. */
  ghost predicate Edit(w: World, w': World, op: Op) {
    && w.committed < w.view == op.view
    && ExactRoot(w.root)
    && w' == w.(root := Apply(w.root, op))
  }

  ghost predicate SetView(w: World, w': World) {
    w.view <= w'.view && w' == w.(view := w'.view)
  }

  ghost predicate CommitStep(w: World, w': World) {
    && w.committed < w.view
    && var (root, disk) := Commit(w.root, w.disk);
       w' == w.(root := root, disk := disk, committed := w.view,
                bounds := if disk.nextOldRoot > w.disk.nextOldRoot then w.bounds + [w.committed] else w.bounds)
  }

  /** A collection with a profile taken now or at an earlier commit. */
  ghost predicate Collect(w: World, w': World, first: nat, last: nat, stop: int) {
    && first <= last < w.disk.nextOldRoot
    && Collected(w.disk, w'.disk, first, last, stop)
    && w' == w.(disk := w'.disk, floor := Max(w.floor, first))
  }

  /** A new process opens the store; edits that were not committed are lost. */
  ghost predicate Reopen(w: World, w': World) {
    && Consistent(w.disk.nodes)
    && w.committed <= w'.view
    && w' == w.(root := (if w.disk.root.Some? then Load(w.disk.nodes, w.disk.root.value) else None), view := w'.view)
  }

  ghost predicate Next(w: World, w': World) {
    || (exists op :: Edit(w, w', op))
    || SetView(w, w')
    || CommitStep(w, w')
    || (exists first, last, stop :: Collect(w, w', first, last, stop))
    || Reopen(w, w')
  }

  ghost predicate ViewsWithin(ids: set<Digest>, bound: nat) {
    forall d :: d in ids ==> d.viewID <= bound
  }

  function DiskIds(disk: Disk): set<Digest> {
    if disk.root.None? then {} else Ids(disk.root.value)
  }

  ghost predicate HistoryInv(w: World) {
    && |w.bounds| == w.disk.nextOldRoot && w.committed <= w.view
    && (forall i, j :: 0 <= i < j < |w.bounds| ==> w.bounds[i] < w.bounds[j])
    && (forall i :: 0 <= i < |w.bounds| ==> w.bounds[i] < w.committed)
    && (forall i :: i in w.disk.oldRoots ==> i < |w.bounds|)
  }

  /** An old root holds no view above its bound, and later trees extend it. */
  ghost predicate OldRootInv(w: World, i: nat)
    requires i in w.disk.oldRoots && i < |w.bounds|
  {
    var ids, bound := Ids(w.disk.oldRoots[i]), w.bounds[i];
    && ViewsWithin(ids, bound)
    && Follows(DiskIds(w.disk), ids, bound)
    && Follows(RootIds(w.root), ids, bound)
    && (i >= w.floor ==> ids <= w.disk.nodes.Keys)
  }

  ghost predicate OldRootsFollow(w: World) {
    forall i, j :: i in w.disk.oldRoots && j in w.disk.oldRoots && i < j < |w.bounds| ==>
      Follows(Ids(w.disk.oldRoots[j]), Ids(w.disk.oldRoots[i]), w.bounds[i])
  }

  ghost predicate DiskInv(w: World) {
    && Consistent(w.disk.nodes)
    && DiskIds(w.disk) <= w.disk.nodes.Keys
    && ViewsWithin(DiskIds(w.disk), w.committed)
    && (w.disk.root.Some? ==> exists n :: Avl(n) && Id(n) == w.disk.root.value)
  }

  ghost predicate TreeInv(w: World) {
    && AvlRoot(w.root, w.view)
    && DurableRoot(w.root, w.disk.nodes)
    && Follows(RootIds(w.root), DiskIds(w.disk), w.committed)
  }

  ghost predicate Inv(w: World) {
    && HistoryInv(w) && OldRootsFollow(w) && DiskInv(w) && TreeInv(w)
    && forall i :: i in w.disk.oldRoots ==> OldRootInv(w, i)
  }

  lemma EditInv(w: World, w': World, op: Op)
    requires Inv(w) && Edit(w, w', op)
    ensures Inv(w')
  {
    ApplyRefines(w.root, op);
    ApplyDurable(w.root, op, w.disk.nodes);
    ApplyFollows(w.root, op, DiskIds(w.disk), w.committed);
    forall i | i in w.disk.oldRoots ensures OldRootInv(w', i) {
      assert OldRootInv(w, i);
      ApplyFollows(w.root, op, Ids(w.disk.oldRoots[i]), w.bounds[i]);
    }
  }

  /** Commit stores the whole tree: a process that opens the store afterwards reads the same map. */
  lemma CommitReopens(root: Option<Node>, disk: Disk)
    requires Consistent(disk.nodes) && DurableRoot(root, disk.nodes)
    ensures var (root', disk') := Commit(root, disk);
      && Consistent(disk'.nodes) && disk.nodes.Keys <= disk'.nodes.Keys
      && DurableRoot(root', disk'.nodes) && RootIds(root') == RootIds(root) == DiskIds(disk') <= disk'.nodes.Keys
      && (root.None? <==> disk'.root.None?)
      && (root.Some? ==>
            && SameTree(root'.value, root.value)
            && var reopened := Load(disk'.nodes, disk'.root.value);
               reopened.Some? && SameTree(reopened.value, root.value) && Entries(reopened) == Entries(root))
  {
    if root.Some? {
      var n := root.value;
      WriteBackStores(n, disk.nodes);
      var (n', nodes') := WriteBack(n, disk.nodes);
      LoadStored(n, nodes');
      SameTreeSame(Load(nodes', Id(n)).value, n);
    }
  }

  lemma CommitOldRoots(w: World, w': World, i: nat)
    requires Inv(w) && CommitStep(w, w') && i in w'.disk.oldRoots && i < |w'.bounds|
    ensures OldRootInv(w', i)
  {
    CommitReopens(w.root, w.disk);
    if i in w.disk.oldRoots {
      assert OldRootInv(w, i);
    }
  }

  lemma CommitOldRootsFollow(w: World, w': World, i: nat, j: nat)
    requires Inv(w) && CommitStep(w, w')
    requires i in w'.disk.oldRoots && j in w'.disk.oldRoots && i < j < |w'.bounds|
    ensures Follows(Ids(w'.disk.oldRoots[j]), Ids(w'.disk.oldRoots[i]), w'.bounds[i])
  {
    assert OldRootInv(w, i);
  }

  lemma NewestBounds(root: Option<Node>, view: nat)
    requires AvlRoot(root, view)
    ensures ViewsWithin(RootIds(root), view)
  {
    forall d | d in RootIds(root) ensures d.viewID <= view {
      RootIsNewest(root.value, d);
    }
  }

  lemma CommitTree(w: World, w': World)
    requires Inv(w) && CommitStep(w, w')
    ensures DiskInv(w') && TreeInv(w')
  {
    CommitReopens(w.root, w.disk);
    NewestBounds(w.root, w.view);
    if w.root.Some? {
      SameTreeSame(w'.root.value, w.root.value);
      assert Avl(w'.root.value) && Id(w'.root.value) == w'.disk.root.value;
    }
  }

  lemma CommitInv(w: World, w': World)
    requires Inv(w) && CommitStep(w, w')
    ensures Inv(w')
  {
    CommitTree(w, w');
    assert HistoryInv(w');
    forall i | i in w'.disk.oldRoots ensures OldRootInv(w', i) {
      CommitOldRoots(w, w', i);
    }
    forall i, j | i in w'.disk.oldRoots && j in w'.disk.oldRoots && i < j < |w'.bounds|
      ensures Follows(Ids(w'.disk.oldRoots[j]), Ids(w'.disk.oldRoots[i]), w'.bounds[i])
    {
      CommitOldRootsFollow(w, w', i, j);
    }
  }

  /**
   * No node of a later tree is collected, although only old roots are marked: a node it shares with a swept root is
   * older than the newest marked root and therefore belongs to that one too.
   */
  lemma LaterTreesSurvive(w: World, w': World, first: nat, last: nat, stop: int, ids: set<Digest>)
    requires Inv(w) && Collect(w, w', first, last, stop)
    requires Follows(ids, Ids(w.disk.oldRoots[last]), w.bounds[last])
    ensures ids * w.disk.nodes.Keys <= w'.disk.nodes.Keys
  {
    forall i: nat, d | stop < i < first && d in ids && d in Ids(w.disk.oldRoots[i])
      ensures d in Preserved(w.disk.oldRoots, first, last)
    {
      assert OldRootInv(w, i);
      assert w.bounds[i] < w.bounds[last];
    }
  }

  lemma CollectInv(w: World, w': World, first: nat, last: nat, stop: int)
    requires Inv(w) && Collect(w, w', first, last, stop)
    ensures Inv(w')
  {
    assert OldRootInv(w, last);
    LaterTreesSurvive(w, w', first, last, stop, DiskIds(w.disk));
    LaterTreesSurvive(w, w', first, last, stop, RootIds(w.root));
    if w.root.Some? {
      DurableGrows(w.root.value, w.disk.nodes, w'.disk.nodes);
    }
    forall i | i in w'.disk.oldRoots ensures OldRootInv(w', i) {
      assert OldRootInv(w, i);
      if i > last {
        LaterTreesSurvive(w, w', first, last, stop, Ids(w.disk.oldRoots[i]));
      }
    }
  }

  lemma ReopenInv(w: World, w': World)
    requires Inv(w) && Reopen(w, w')
    ensures Inv(w') && RootIds(w'.root) == DiskIds(w.disk)
  {
    if w.disk.root.Some? {
      var n :| Avl(n) && Id(n) == w.disk.root.value;
      LoadStored(n, w.disk.nodes);
      SameTreeSame(w'.root.value, n);
      LoadedIsStored(w.disk.root.value, w.disk.nodes);
      assert Id(n) in DiskIds(w.disk);
    }
    forall i | i in w'.disk.oldRoots ensures OldRootInv(w', i) {
      assert OldRootInv(w, i);
    }
  }

  lemma NextInv(w: World, w': World)
    requires Inv(w) && Next(w, w')
    ensures Inv(w')
  {
    if op :| Edit(w, w', op) {
      EditInv(w, w', op);
    } else if SetView(w, w') {
      forall i | i in w'.disk.oldRoots ensures OldRootInv(w', i) { assert OldRootInv(w, i); }
    } else if CommitStep(w, w') {
      CommitInv(w, w');
    } else if first, last, stop :| Collect(w, w', first, last, stop) {
      CollectInv(w, w', first, last, stop);
    } else {
      ReopenInv(w, w');
    }
  }

  /** A collection as the collector runs it: nothing happens unless every preserved root can be marked. */
  ghost predicate Gc(w: World, w': World, first: nat, last: nat, marked: set<Digest>, resident: set<Digest>) {
    && first <= last < w.disk.nextOldRoot
    && Preserved(w.disk.oldRoots, first, last) <= marked
    && w' ==
         if MarkFrom(w.disk, resident, first, last).Done? then
           w.(disk := SweepFrom(w.disk, marked, resident, first - 1).0, floor := Max(w.floor, first))
         else w
  }

  /** Next, with every collection spelled out. */
  ghost predicate Step(w: World, w': World) {
    || (exists op :: Edit(w, w', op))
    || SetView(w, w')
    || CommitStep(w, w')
    || (exists first, last, marked, resident :: Gc(w, w', first, last, marked, resident))
    || Reopen(w, w')
  }

  lemma {:induction false} GcIsCollect(
      w: World, w': World, first: nat, last: nat, marked: set<Digest>, resident: set<Digest>)
    requires Gc(w, w', first, last, marked, resident) && MarkFrom(w.disk, resident, first, last).Done?
    ensures Collect(w, w', first, last, SweepFrom(w.disk, marked, resident, first - 1).1)
  {
    MarkFromDone(w.disk, resident, first, last);
    NothingSwept(w.disk, marked, first, last);
    SweepFromCollected(w.disk, w.disk, marked, resident, first, last, first - 1);
  }

  lemma StepIsNext(w: World, w': World)
    requires Step(w, w')
    ensures Next(w, w')
  {
    hide Collected, SweepFrom, MarkFrom, Preserved;
    if first: nat, last: nat, marked, resident :| Gc(w, w', first, last, marked, resident) {
      if MarkFrom(w.disk, resident, first, last).Done? {
        GcIsCollect(w, w', first, last, marked, resident);
      } else {
        assert SetView(w, w');
      }
    }
  }

  /** The old roots from floor on are on record, and no sweep gets below them. */
  ghost predicate FloorInv(w: World) {
    && w.floor <= w.disk.nextOldRoot
    && (forall i: nat | w.floor <= i < w.disk.nextOldRoot :: i in w.disk.oldRoots)
    && DeadEnd(w.disk, w.floor - 1)
  }

  /** An old root whose entry is on record although its node is gone. */
  ghost predicate Dead(w: World, i: nat) {
    i in w.disk.oldRoots && w.disk.oldRoots[i] !in w.disk.nodes
  }

  /** A commit does not bring back the node of an old root: what it writes is new, or was in the store already. */
  lemma CommitKeepsDead(w: World, w': World, i: nat)
    requires Inv(w) && CommitStep(w, w') && Dead(w, i)
    ensures Dead(w', i) && w'.disk.oldRoots[i] == w.disk.oldRoots[i]
  {
    var d := w.disk.oldRoots[i];
    assert OldRootInv(w, i) && d in Ids(d);
    if w.root.Some? {
      WriteBackStores(w.root.value, w.disk.nodes);
      assert w'.disk.nodes.Keys == w.disk.nodes.Keys + RootIds(w.root);
    }
    assert d !in RootIds(w.root);
  }

  lemma GcKeepsDead(
      w: World, w': World, first: nat, last: nat, marked: set<Digest>, resident: set<Digest>, i: nat)
    requires Gc(w, w', first, last, marked, resident) && Dead(w, i)
    ensures Dead(w', i) && w'.disk.oldRoots[i] == w.disk.oldRoots[i]
  {
    if MarkFrom(w.disk, resident, first, last).Done? {
      GcIsCollect(w, w', first, last, marked, resident);
      if i < first {
        SweepEndsThere(w.disk, marked, resident, first - 1, i);
      }
    }
  }

  lemma StepKeepsDead(w: World, w': World, i: nat)
    requires Inv(w) && Step(w, w') && Dead(w, i)
    ensures Dead(w', i) && w'.disk.oldRoots[i] == w.disk.oldRoots[i]
  {
    hide Inv, Gc, Commit;
    if CommitStep(w, w') {
      CommitKeepsDead(w, w', i);
    } else if first: nat, last: nat, marked, resident :| Gc(w, w', first, last, marked, resident) {
      GcKeepsDead(w, w', first, last, marked, resident, i);
    }
  }

  /** A root that is there is swept, and its entry goes. */
  lemma SweepTakesRoot(
      disk: Disk, after: Disk, marked: set<Digest>, resident: set<Digest>, first: nat, last: nat)
    requires first > 0 && first - 1 in disk.oldRoots && disk.oldRoots[first - 1] in disk.nodes
    requires
      var (after', stop, _) := SweepFrom(disk, marked, resident, first - 1);
      after == after' && Collected(disk, after, first, last, stop)
    ensures first - 1 !in after.oldRoots
  {
    SweepGoesDown(SweepRoot(disk, marked, resident, first - 1), marked, resident, first - 2);
  }

  lemma RootIsThere(w: World, i: nat)
    requires Inv(w) && FloorInv(w) && w.floor <= i < w.disk.nextOldRoot
    ensures i in w.disk.oldRoots && w.disk.oldRoots[i] in w.disk.nodes && Ids(w.disk.oldRoots[i]) <= w.disk.nodes.Keys
  {
    assert OldRootInv(w, i) && w.disk.oldRoots[i] in Ids(w.disk.oldRoots[i]);
  }

  /** The new floor is where the sweep began: below it there was no getting further, or there is no entry now. */
  lemma GcDeadEnd(w: World, w': World, first: nat, last: nat, marked: set<Digest>, resident: set<Digest>)
    requires Inv(w) && FloorInv(w) && Gc(w, w', first, last, marked, resident)
    ensures DeadEnd(w'.disk, w'.floor - 1)
  {
    hide Inv, Collected, SweepFrom, Preserved;
    if MarkFrom(w.disk, resident, first, last).Done? {
      GcIsCollect(w, w', first, last, marked, resident);
      if first <= w.floor {
        if w.floor > 0 && w.floor - 1 in w.disk.oldRoots {
          GcKeepsDead(w, w', first, last, marked, resident, w.floor - 1);
        } else if w.floor > 0 {
          GcAddsNoRoot(w, w', first, last, marked, resident);
        }
      } else {
        RootIsThere(w, first - 1);
        SweepTakesRoot(w.disk, w'.disk, marked, resident, first, last);
      }
    }
  }

  lemma GcAddsNoRoot(w: World, w': World, first: nat, last: nat, marked: set<Digest>, resident: set<Digest>)
    requires Gc(w, w', first, last, marked, resident)
    ensures w'.disk.nextOldRoot == w.disk.nextOldRoot && w'.disk.oldRoots.Keys <= w.disk.oldRoots.Keys
    ensures forall i :: i in w.disk.oldRoots && i >= first ==> i in w'.disk.oldRoots
  {
    if MarkFrom(w.disk, resident, first, last).Done? {
      GcIsCollect(w, w', first, last, marked, resident);
    }
  }

  lemma GcFloor(w: World, w': World, first: nat, last: nat, marked: set<Digest>, resident: set<Digest>)
    requires Inv(w) && FloorInv(w) && Gc(w, w', first, last, marked, resident)
    ensures FloorInv(w')
  {
    hide Inv, SweepFrom, MarkFrom, Preserved;
    GcDeadEnd(w, w', first, last, marked, resident);
    GcAddsNoRoot(w, w', first, last, marked, resident);
  }

  lemma CommitFloor(w: World, w': World)
    requires Inv(w) && FloorInv(w) && CommitStep(w, w')
    ensures FloorInv(w')
  {
    if w.floor > 0 && w.floor - 1 in w.disk.oldRoots {
      CommitKeepsDead(w, w', w.floor - 1);
    }
  }

  lemma StepFloor(w: World, w': World)
    requires Inv(w) && FloorInv(w) && Step(w, w')
    ensures FloorInv(w')
  {
    hide Inv, Gc, Commit;
    if CommitStep(w, w') {
      CommitFloor(w, w');
    } else if first: nat, last: nat, marked, resident :| Gc(w, w', first, last, marked, resident) {
      GcFloor(w, w', first, last, marked, resident);
    }
  }

  ghost predicate Behavior(ws: seq<World>) {
    ws != [] && Inv(ws[0]) && forall i :: 0 <= i < |ws| - 1 ==> Next(ws[i], ws[i + 1])
  }

  const FRESH := World(None, 0, EMPTY_DISK, [], 0, 0)

  /** Runs may start from an empty store. */
  lemma FreshInv()
    ensures Inv(FRESH) && FloorInv(FRESH)
  {
  }

  lemma {:induction false} RunDurable(root: Option<Node>, ops: seq<Op>, nodes: Nodes)
    requires ExactRoot(root) && DurableRoot(root, nodes)
    ensures DurableRoot(Run(root, ops), nodes)
    decreases |ops|
  {
    if ops != [] {
      ApplyDurable(root, ops[0], nodes);
      RunDurable(Apply(root, ops[0]), ops[1..], nodes);
    }
  }

  lemma CommittedTree(genesis: Option<Node>, w: World)
    requires AvlRoot(genesis, 0) && DurableRoot(genesis, map[]) && w.committed == w.view == 0
    requires (w.root, w.disk) == Commit(genesis, EMPTY_DISK)
    ensures DiskInv(w) && TreeInv(w) && Entries(w.root) == Entries(genesis)
  {
    hide Durable, WriteBack, Load;
    CommitReopens(genesis, EMPTY_DISK);
    NewestBounds(genesis, 0);
    if genesis.Some? {
      SameTreeSame(w.root.value, genesis.value);
      assert Avl(w.root.value) && Id(w.root.value) == w.disk.root.value;
    }
  }

  /** Runs may also start from a genesis tree, written and committed at view 0, below the view of every block. */
  lemma {:induction false} GenesisInv(ops: seq<Op>)
    requires forall i :: 0 <= i < |ops| ==> ops[i].view == 0
    ensures
      var (root, disk) := Commit(Run(None, ops), EMPTY_DISK);
      var w := World(root, 0, disk, [], 0, 0);
      Inv(w) && FloorInv(w) && ToMap(Entries(w.root)) == RunMap(map[], ops)
  {
    hide DiskInv, TreeInv, Run, RunMap;
    OneViewAscends(0, 0, ops);
    RunRefines(None, 0, ops);
    RunDurable(None, ops, map[]);
    var (root, disk) := Commit(Run(None, ops), EMPTY_DISK);
    CommittedTree(Run(None, ops), World(root, 0, disk, [], 0, 0));
  }

  /**
   * In every state of every run: the working tree is well formed, all that its flagged nodes promise is stored, and
   * the current root and every old root that was not collected can be read back in full.
   */
  lemma {:induction false} EveryStateSafe(ws: seq<World>, k: nat)
    requires Behavior(ws) && k < |ws|
    ensures Inv(ws[k])
    ensures ws[k].disk.root.Some? ==> Load(ws[k].disk.nodes, ws[k].disk.root.value).Some?
    ensures forall i :: i in ws[k].disk.oldRoots && i >= ws[k].floor ==>
      Ids(ws[k].disk.oldRoots[i]) <= ws[k].disk.nodes.Keys
  {
    if k > 0 {
      EveryStateSafe(ws, k - 1);
      NextInv(ws[k - 1], ws[k]);
    }
    var w := ws[k];
    if w.disk.root.Some? {
      var n :| Avl(n) && Id(n) == w.disk.root.value;
      LoadStored(n, w.disk.nodes);
    }
    forall i | i in w.disk.oldRoots && i >= w.floor ensures Ids(w.disk.oldRoots[i]) <= w.disk.nodes.Keys {
      assert OldRootInv(w, i);
    }
  }

  /** A run in which every collection is spelled out. */
  ghost predicate GcBehavior(ws: seq<World>) {
    ws != [] && Inv(ws[0]) && FloorInv(ws[0]) && forall i :: 0 <= i < |ws| - 1 ==> Step(ws[i], ws[i + 1])
  }

  lemma {:induction false} EveryFloorHolds(ws: seq<World>, k: nat)
    requires GcBehavior(ws) && k < |ws|
    ensures Inv(ws[k]) && FloorInv(ws[k])
  {
    hide Inv, FloorInv, Step;
    if k > 0 {
      EveryFloorHolds(ws, k - 1);
      StepIsNext(ws[k - 1], ws[k]);
      NextInv(ws[k - 1], ws[k]);
      StepFloor(ws[k - 1], ws[k]);
    }
  }

  /**
   * Once a sweep has stopped in front of an old root, that root is a dead end for the rest of the run: its entry
   * stays, no commit brings its node back, and no later sweep gets to the roots below it.
   */
  lemma {:induction false} DeadForever(ws: seq<World>, k: nat, m: nat, i: nat)
    requires GcBehavior(ws) && k <= m < |ws| && Dead(ws[k], i)
    ensures Dead(ws[m], i) && ws[m].disk.oldRoots[i] == ws[k].disk.oldRoots[i]
    ensures forall top: nat, marked, resident | i <= top :: SweepFrom(ws[m].disk, marked, resident, top).1 >= i
    decreases m
  {
    hide Inv, FloorInv, Step;
    if k < m {
      DeadForever(ws, k, m - 1, i);
      EveryFloorHolds(ws, m - 1);
      StepKeepsDead(ws[m - 1], ws[m], i);
    }
    forall top: nat, marked, resident | i <= top ensures SweepFrom(ws[m].disk, marked, resident, top).1 >= i {
      SweepEndsThere(ws[m].disk, marked, resident, top, i);
    }
  }

  lemma {:induction false} MarkingGetsThrough(w: World, resident: set<Digest>, first: nat, i: int)
    requires Inv(w) && FloorInv(w) && w.floor <= first && i < w.disk.nextOldRoot
    ensures MarkFrom(w.disk, resident, first, i).Done?
    decreases i
  {
    hide Inv, FloorInv, Ids;
    if i >= first {
      RootIsThere(w, i);
      MarkingGetsThrough(w, resident, first, i - 1);
    }
  }

  /** In every state of every run the roots from floor up to any newer profile can be swept in an orderly way. */
  lemma SweepIsOrderly(w: World, first: nat, last: nat)
    requires Inv(w) && FloorInv(w) && w.floor <= first <= last < w.disk.nextOldRoot
    ensures Orderly(w.disk, Preserved(w.disk.oldRoots, first, last), w.floor - 1, first, last)
  {
    forall d | d in SweptIds(w.disk.oldRoots, w.floor - 1, first) ensures d in w.disk.nodes {
      var i: nat :| i in w.disk.oldRoots && w.floor - 1 < i < first && d in Ids(w.disk.oldRoots[i]);
      RootIsThere(w, i);
    }
  }

  /**
   * In every state of every run: a collection with a profile no older than the ones before it marks all it has to,
   * and its sweep deletes every old root from floor up to the profile if and only if none of them is shadowed.
   * Otherwise it stops with an error at the newest shadowed one.
   */
  lemma {:induction false} EverySweepEnds(ws: seq<World>, k: nat, resident: set<Digest>, first: nat, last: nat)
    requires GcBehavior(ws) && k < |ws| && ws[k].floor <= first <= last < ws[k].disk.nextOldRoot
    ensures
      var disk, end := ws[k].disk, ws[k].floor - 1;
      var marked := Preserved(disk.oldRoots, first, last);
      var (after, stop, outcome) := SweepFrom(disk, marked, resident, first - 1);
      && MarkFrom(disk, resident, first, last).Done?
      && end <= stop
      && (stop == end <==> forall i: nat | end < i < first :: !Shadowed(disk.oldRoots, marked, i, first))
      && (stop == end ==> outcome == AtTheEnd(disk, end))
      && (stop > end ==> outcome == NodeMissing && Shadowed(disk.oldRoots, marked, stop, first))
      && (forall i: nat | stop < i < first :: !Shadowed(disk.oldRoots, marked, i, first))
  {
    hide Inv, SweepFrom, MarkFrom, Preserved, Orderly, Shadowed;
    var w := ws[k];
    EveryFloorHolds(ws, k);
    MarkingGetsThrough(w, resident, first, last);
    SweepIsOrderly(w, first, last);
    SweepGetsThroughIff(w.disk, Preserved(w.disk.oldRoots, first, last), resident, w.floor - 1, first, last);
  }
}
