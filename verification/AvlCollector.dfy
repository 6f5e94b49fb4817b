/** GetGCProfile and PerformFullGC (avl/tree.go) as they run over the store. */
module AvlCollector {
  import opened SortedSeq
  import opened AvlNode
  import opened AvlLineage
  import opened AvlStore
  import opened AvlGc
  import opened AvlTree

  /** The nodes that carry this collection's mark. */
  function MarkedWith(marks: map<Digest, nat>, mark: nat): set<Digest> {
    set d | d in marks.Keys && marks[d] == mark
  }

  function PutMarks(marks: map<Digest, nat>, ds: set<Digest>, mark: nat): (r: map<Digest, nat>)
    ensures MarkedWith(r, mark) == MarkedWith(marks, mark) + ds
  {
    marks + (map d | d in ds :: mark)
  }

  /** Forgetting the marks of deleted nodes forgets none of this collection's. */
  lemma UnmarkDeleted(marks: map<Digest, nat>, mark: nat, disk: Disk, resident: set<Digest>, i: nat)
    requires i in disk.oldRoots
    ensures var after := SweepRoot(disk, MarkedWith(marks, mark), resident, i);
      MarkedWith(marks - (disk.nodes.Keys - after.nodes.Keys), mark) == MarkedWith(marks, mark)
  {
  }

  lemma {:induction false} RootIsBelow(d: Digest)
    ensures d in Ids(d)
  {
  }

  lemma NonePreserved(oldRoots: map<nat, Digest>, last: nat)
    ensures Preserved(oldRoots, last + 1, last) == {}
  {
  }

  class GCProfile {
    const kv: KV
    const lastDepth: nat
    const preserveDepth: nat

    /** GetGCProfile gives no profile when there are not more old roots than it should preserve. */
    static method Get(kv: KV, preserveDepth: nat) returns (profile: Option<GCProfile>)
      ensures profile.None? <==> kv.disk.nextOldRoot <= preserveDepth
      ensures profile.Some? ==>
        && profile.value.kv == kv && profile.value.preserveDepth == preserveDepth
        && profile.value.lastDepth == kv.disk.nextOldRoot - 1 && preserveDepth <= profile.value.lastDepth
    {
      if kv.disk.nextOldRoot <= preserveDepth {
        return None;
      }
      var p := new GCProfile(kv, kv.disk.nextOldRoot - 1, preserveDepth);
      profile := Some(p);
    }

    constructor (kv: KV, lastDepth: nat, preserveDepth: nat)
      ensures this.kv == kv && this.lastDepth == lastDepth && this.preserveDepth == preserveDepth
    {
      this.kv, this.lastDepth, this.preserveDepth := kv, lastDepth, preserveDepth;
    }

    /** The old roots to preserve are on record and complete. */
    ghost predicate PreservedStored()
      reads kv
    {
      forall i: nat | lastDepth - preserveDepth <= i <= lastDepth ::
        i in kv.disk.oldRoots && Ids(kv.disk.oldRoots[i]) <= kv.disk.nodes.Keys
    }

    /** Marks every node below the preserved roots, newest root first. Nothing is deleted. */
    method MarkPhase(mark: nat, resident: set<Digest>) returns (outcome: Outcome)
      requires preserveDepth <= lastDepth
      modifies kv`marks
      ensures outcome == MarkFrom(kv.disk, resident, lastDepth - preserveDepth, lastDepth)
      ensures outcome.Done? ==> (forall i: nat | lastDepth - preserveDepth <= i <= lastDepth :: i in kv.disk.oldRoots)
      ensures outcome.Done? ==> (MarkedWith(kv.marks, mark) ==
        MarkedWith(old(kv.marks), mark) + Preserved(kv.disk.oldRoots, lastDepth - preserveDepth, lastDepth))
      ensures PreservedStored() ==> outcome.Done?
    {
      hide MarkDfs, MarkedWith, Preserved, Ids;
      NonePreserved(kv.disk.oldRoots, lastDepth);
      var first := lastDepth - preserveDepth;
      var i: int := lastDepth;
      while i >= first
        invariant first - 1 <= i <= lastDepth
        invariant forall j: nat | i < j <= lastDepth :: j in kv.disk.oldRoots
        invariant MarkFrom(kv.disk, resident, first, lastDepth) == MarkFrom(kv.disk, resident, first, i)
        invariant MarkedWith(kv.marks, mark) ==
          MarkedWith(old(kv.marks), mark) + Preserved(kv.disk.oldRoots, (i + 1) as nat, lastDepth)
      {
        if i !in kv.disk.oldRoots {
          return OldRootMissing;
        }
        var d := kv.disk.oldRoots[i];
        RootIsBelow(d);
        PreservedStep(kv.disk.oldRoots, i, lastDepth);
        if d !in kv.disk.nodes {
          return NodeMissing;
        }
        var (reached, all) := MarkDfs(kv.disk.nodes, resident, d);
        kv.marks := PutMarks(kv.marks, reached, mark);
        assert Ids(d) <= kv.disk.nodes.Keys ==> all;
        assert PreservedStored() ==> Ids(kv.disk.oldRoots[i]) <= kv.disk.nodes.Keys;
        if !all {
          return NodeMissing;
        }
        i := i - 1;
      }
      outcome := Done;
    }

    /** Deletes the unmarked nodes of one old root, with their marks, and its entry in the list. */
    method SweepOne(mark: nat, resident: set<Digest>, i: nat)
      requires i in kv.disk.oldRoots
      modifies kv
      ensures kv.disk == SweepRoot(old(kv.disk), MarkedWith(old(kv.marks), mark), resident, i)
      ensures MarkedWith(kv.marks, mark) == MarkedWith(old(kv.marks), mark)
    {
      var after := SweepRoot(kv.disk, MarkedWith(kv.marks, mark), resident, i);
      UnmarkDeleted(kv.marks, mark, kv.disk, resident, i);
      kv.marks := kv.marks - (kv.disk.nodes.Keys - after.nodes.Keys);
      kv.disk := after;
    }

    /** Sweeps the older roots downwards until one is not on record or its node cannot be loaded. */
    method SweepPhase(mark: nat, resident: set<Digest>) returns (stop: int, outcome: Outcome)
      requires preserveDepth <= lastDepth
      requires forall i: nat | lastDepth - preserveDepth <= i <= lastDepth :: i in kv.disk.oldRoots
      requires Preserved(kv.disk.oldRoots, lastDepth - preserveDepth, lastDepth) <= MarkedWith(kv.marks, mark)
      modifies kv
      ensures Collected(old(kv.disk), kv.disk, lastDepth - preserveDepth, lastDepth, stop)
      ensures MarkedDeep(MarkedWith(old(kv.marks), mark)) ==>
        SweptClean(old(kv.disk), kv.disk, MarkedWith(old(kv.marks), mark), lastDepth - preserveDepth, stop)
      ensures (kv.disk, stop, outcome) ==
        SweepFrom(old(kv.disk), MarkedWith(old(kv.marks), mark), resident, lastDepth - preserveDepth - 1)
      ensures match outcome
        case Done => stop == -1
        case OldRootMissing => stop >= 0 && stop !in kv.disk.oldRoots
        case NodeMissing => stop in kv.disk.oldRoots && kv.disk.oldRoots[stop] !in kv.disk.nodes
    {
      hide Ids, Sweep, MarkedDeep, MarkedWith, Preserved, Collected, CleanSoFar, SweptClean;
      var first := lastDepth - preserveDepth;
      ghost var before, marked := kv.disk, MarkedWith(kv.marks, mark);
      NothingSwept(before, marked, first, lastDepth);
      var i: int := first - 1;
      while i >= 0
        invariant -1 <= i < first
        invariant MarkedWith(kv.marks, mark) == marked
        invariant SweepFrom(before, marked, resident, first - 1) == SweepFrom(kv.disk, marked, resident, i)
        invariant Collected(before, kv.disk, first, lastDepth, i)
        invariant MarkedDeep(marked) ==> CleanSoFar(before, kv.disk, marked, first, i)
      {
        if MarkedDeep(marked) {
          CleanIsSwept(before, kv.disk, marked, first, i);
        }
        if i !in kv.disk.oldRoots {
          return i, OldRootMissing;
        }
        var d := kv.disk.oldRoots[i];
        if d !in kv.disk.nodes {
          return i, NodeMissing;
        }
        SweepRootKeeps(before, kv.disk, marked, resident, first, lastDepth, i);
        SweepOne(mark, resident, i);
        i := i - 1;
      }
      if MarkedDeep(marked) {
        CleanIsSwept(before, kv.disk, marked, first, i);
      }
      return -1, Done;
    }

    /**
     * One collection. If a preserved root cannot be marked, nothing is touched and the reason returned. Otherwise
     * only unmarked nodes of swept roots go; and when no earlier collection used the same random mark, all of those
     * go that the sweep reaches.
     */
    method PerformFullGC(mark: nat, resident: set<Digest>) returns (stop: int, outcome: Outcome)
      requires preserveDepth <= lastDepth
      modifies kv
      ensures
        var first := lastDepth - preserveDepth;
        var marking := MarkFrom(old(kv.disk), resident, first, lastDepth);
        var marked := MarkedWith(old(kv.marks), mark) + Preserved(old(kv.disk).oldRoots, first, lastDepth);
        (kv.disk, stop, outcome) ==
          if marking.Done? then SweepFrom(old(kv.disk), marked, resident, first - 1)
          else (old(kv.disk), first - 1, marking)
      ensures kv.disk == old(kv.disk) || Collected(old(kv.disk), kv.disk, lastDepth - preserveDepth, lastDepth, stop)
      ensures old(PreservedStored()) ==>
        && Collected(old(kv.disk), kv.disk, lastDepth - preserveDepth, lastDepth, stop)
        && (MarkedWith(old(kv.marks), mark) == {} ==>
              SweptClean(old(kv.disk), kv.disk,
                         Preserved(old(kv.disk).oldRoots, lastDepth - preserveDepth, lastDepth),
                         lastDepth - preserveDepth, stop))
    {
      hide Collected, SweptClean, SweepFrom, MarkFrom, Preserved, MarkedWith;
      outcome := MarkPhase(mark, resident);
      if !outcome.Done? {
        return lastDepth - preserveDepth - 1, outcome;
      }
      ghost var kept := Preserved(kv.disk.oldRoots, lastDepth - preserveDepth, lastDepth);
      PreservedDeep(kv.disk.oldRoots, lastDepth - preserveDepth, lastDepth);
      assert {} + kept == kept;
      stop, outcome := SweepPhase(mark, resident);
    }
  }
}
