/** The tree object over a shared store (avl/tree.go). */
module AvlTree {
  import opened Bytes
  import opened SortedSeq
  import opened Traversal
  import opened AvlNode
  import opened AvlLineage
  import opened AvlStore
  import opened AvlCache
  import opened AvlDiff
  import AvlRuns

  function IterateFrom<S>(n: Node, key: Key, s: S, cb: Callback<S, Entry<Value>>): (S, bool) {
    match n
    case Leaf(k, v, _, _) => if Leq(key, k) then cb(s, Entry(k, v)) else (s, true)
    case Inner(left, right, _, _, _, _, _) =>
      var (s', more) := if Leq(key, left.key) then IterateFrom(left, key, s, cb) else (s, true);
      if more then IterateFrom(right, key, s', cb) else (s', false)
  }

  /** The callback sees the entries at or above the key, in ascending order, until it stops. */
  lemma {:induction false} IterateFromFeeds<S>(n: Node, key: Key, s: S, cb: Callback<S, Entry<Value>>)
    requires Exact(n) && Sorted(Contents(n))
    ensures IterateFrom(n, key, s, cb) == Feed(s, AtLeast(Contents(n), key), cb)
    decreases n
  {
    match n
    case Leaf(k, v, _, _) =>
      FeedOne(s, Entry(k, v), cb);
      assert AtLeast(Contents(n)[1..], key) == [];
    case Inner(left, right, _, _, _, _, _) =>
      var a, b := Contents(left), Contents(right);
      Route(n, key);
      AtLeastConcat(a, b, key);
      FeedConcat(s, AtLeast(a, key), AtLeast(b, key), cb);
      if Leq(key, left.key) {
        IterateFromFeeds(left, key, s, cb);
      } else {
        BoundsBelow(a, key);
      }
      IterateFromFeeds(right, key, Feed(s, AtLeast(a, key), cb).0, cb);
  }

  /** What is still to be visited when these nodes are on the stack, the top being the last one. */
  ghost function Remaining(stack: seq<Node>, prevView: nat): seq<Node> {
    if stack == [] then []
    else DiffNodes(stack[|stack| - 1], prevView) + Remaining(stack[..|stack| - 1], prevView)
  }

  ghost function NodeCount(n: Node): nat {
    if n.Leaf? then 1 else 1 + NodeCount(n.left) + NodeCount(n.right)
  }

  ghost function StackCount(stack: seq<Node>): nat {
    if stack == [] then 0 else NodeCount(stack[|stack| - 1]) + StackCount(stack[..|stack| - 1])
  }

  lemma {:induction false} PushTwo(rest: seq<Node>, current: Node, prevView: nat)
    requires current.Inner?
    ensures var stack := rest + [current.right] + [current.left];
      && Remaining(stack, prevView)
         == DiffNodes(current.left, prevView) + (DiffNodes(current.right, prevView) + Remaining(rest, prevView))
      && StackCount(stack) == NodeCount(current.left) + NodeCount(current.right) + StackCount(rest)
  {
    var one := rest + [current.right];
    var two := one + [current.left];
    assert one[..|one| - 1] == rest && two[..|two| - 1] == one;
  }

  /** The stack after a node newer than the view has been popped and visited. */
  function Pushed(rest: seq<Node>, current: Node): seq<Node> {
    if current.Leaf? then rest else rest + [current.right] + [current.left]
  }

  lemma {:induction false} TopOf(rest: seq<Node>, current: Node, prevView: nat)
    ensures StackCount(rest + [current]) == NodeCount(current) + StackCount(rest)
    ensures Remaining(rest + [current], prevView) == DiffNodes(current, prevView) + Remaining(rest, prevView)
  {
    var stack := rest + [current];
    assert stack[..|stack| - 1] == rest && stack[|stack| - 1] == current;
  }

  lemma {:induction false} Popped(rest: seq<Node>, current: Node, prevView: nat)
    ensures StackCount(rest + [current]) > StackCount(rest)
    ensures StackCount(rest + [current]) > StackCount(Pushed(rest, current))
    ensures Remaining(rest + [current], prevView) ==
            if current.viewID <= prevView then Remaining(rest, prevView)
            else [current] + Remaining(Pushed(rest, current), prevView)
  {
    hide StackCount, Remaining;
    TopOf(rest, current, prevView);
    if current.Inner? { PushTwo(rest, current, prevView); }
  }

  /** Showing a callback what remains amounts to showing it the top of the stack and then what remains below it. */
  lemma {:induction false} PopFeeds<S>(rest: seq<Node>, current: Node, prevView: nat, s: S, cb: Callback<S, Node>)
    requires current.viewID > prevView
    ensures Feed(s, Remaining(rest + [current], prevView), cb)
         == (var (s', more) := cb(s, current);
             if more then Feed(s', Remaining(Pushed(rest, current), prevView), cb) else (s', false))
  {
    Popped(rest, current, prevView);
    FeedConcat(s, [current], Remaining(Pushed(rest, current), prevView), cb);
    FeedOne(s, current, cb);
  }

  lemma {:induction false} WalkStarts(root: Node, prevView: nat)
    ensures Remaining([root], prevView) == DiffNodes(root, prevView)
  {
    assert Remaining([], prevView) == [];
    assert [root][..0] == [];
  }

  lemma {:induction false} WalkEnds<S>(prevView: nat, s: S, cb: Callback<S, Node>)
    ensures Feed(s, Remaining([], prevView), cb).0 == s
  {
  }

  /** A callback that appends a value per element. */
  function Collect<E, T>(f: E -> T): Callback<seq<T>, E> {
    (s: seq<T>, e: E) => (s + [f(e)], true)
  }

  lemma {:induction false} CollectAll<E, T>(s: seq<T>, list: seq<E>, f: E -> T)
    ensures Feed(s, list, Collect(f)) == (s + seq(|list|, i requires 0 <= i < |list| => f(list[i])), true)
    decreases |list|
  {
    var all := seq(|list|, i requires 0 <= i < |list| => f(list[i]));
    if list == [] {
      assert s + all == s;
    } else {
      CollectAll(s + [f(list[0])], list[1..], f);
      var rest := seq(|list[1..]|, i requires 0 <= i < |list[1..]| => f(list[1..][i]));
      assert s + all == (s + [f(list[0])]) + rest;
    }
  }

  /** The store shared by a tree and its snapshots, with the marks of past collections. */
  class KV {
    var disk: Disk
    var marks: map<Digest, nat>

    constructor ()
      ensures disk == EMPTY_DISK && marks == map[]
    {
      disk, marks := EMPTY_DISK, map[];
    }
  }

  class Tree {
    const kv: KV
    const cache: NodeLRU
    var root: Option<Node>
    var viewID: nat

    /** A well-formed tree over a store and a cache that are in order, whatever its view ID. */
    ghost predicate Valid()
      reads this, kv, cache
    {
      && (root.Some? ==> Avl(root.value))
      && cache.Valid()
      && Consistent(kv.disk.nodes)
      && DurableRoot(root, kv.disk.nodes)
    }

    /** No node is newer than the view ID. It is reset by New and Snapshot and has to be set again before an edit. */
    ghost predicate Current()
      reads this
    {
      root.Some? ==> root.value.viewID <= viewID
    }

    ghost function Model(): map<Key, Value>
      reads this
    {
      ToMap(Entries(root))
    }

    constructor Make(kv: KV, cache: NodeLRU, root: Option<Node>, viewID: nat)
      ensures this.kv == kv && this.cache == cache && this.root == root && this.viewID == viewID
    {
      this.kv, this.cache, this.root, this.viewID := kv, cache, root, viewID;
    }

    /** New reads the committed root back; a root whose node is missing makes it panic. */
    constructor Open(kv: KV, cache: NodeLRU)
      requires Consistent(kv.disk.nodes)
      requires kv.disk.root.Some? ==> Load(kv.disk.nodes, kv.disk.root.value).Some?
      ensures this.kv == kv && this.cache == cache && viewID == 0
      ensures root == if kv.disk.root.Some? then Load(kv.disk.nodes, kv.disk.root.value) else None
      ensures Checksum() == kv.disk.root && DurableRoot(root, kv.disk.nodes)
      ensures kv.disk.root.None? && cache.Valid() ==> Valid()
      ensures forall n :: kv.disk.root == Some(Id(n)) && Avl(n) ==>
        SameTree(root.value, n) && Model() == ToMap(Contents(n)) && (cache.Valid() ==> Valid())
    {
      this.kv, this.cache, this.viewID := kv, cache, 0;
      this.root := if kv.disk.root.Some? then Load(kv.disk.nodes, kv.disk.root.value) else None;
      new;
      if kv.disk.root.Some? {
        LoadedIsStored(kv.disk.root.value, kv.disk.nodes);
        forall n | kv.disk.root == Some(Id(n)) && Avl(n)
          ensures SameTree(root.value, n) && Contents(root.value) == Contents(n) && Avl(root.value)
        {
          IdDetermines(root.value, n);
          SameTreeSame(root.value, n);
        }
      }
    }

    method Insert(key: Key, value: Value)
      requires Valid() && Current()
      modifies this`root
      ensures Valid() && Current() && root == Apply(old(root), PutOp(key, value, viewID))
      ensures Model() == old(Model())[key := value]
    {
      ApplyRefines(root, PutOp(key, value, viewID));
      ApplyDurable(root, PutOp(key, value, viewID), kv.disk.nodes);
      if root == None {
        root := Some(NewLeaf(key, value, viewID));
      } else {
        root := Some(AvlNode.Insert(root.value, key, value, viewID));
      }
    }

    method Lookup(key: Key) returns (value: Option<Value>)
      requires Valid()
      ensures value == if key in Model() then Some(Model()[key]) else None
    {
      if root == None {
        return None;
      }
      LookupRefines(root.value, key);
      value := AvlNode.Lookup(root.value, key);
    }

    method Delete(key: Key) returns (deleted: bool)
      requires Valid() && Current()
      modifies this`root
      ensures Valid() && Current() && root == Apply(old(root), DeleteOp(key, viewID))
      ensures Model() == old(Model()) - {key}
      ensures deleted <==> key in old(Model())
    {
      ApplyRefines(root, DeleteOp(key, viewID));
      ApplyDurable(root, DeleteOp(key, viewID), kv.disk.nodes);
      if root == None {
        return false;
      }
      DeleteRefines(root.value, key, viewID);
      var (r, d) := AvlNode.Delete(root.value, key, viewID);
      root, deleted := r, d;
    }

    /** A view ID that is not below the root's makes the tree ready for edits. */
    method SetViewID(viewID: nat)
      modifies this`viewID
      ensures this.viewID == viewID
      ensures old(Valid()) ==> Valid()
      ensures Current() <==> (root.Some? ==> root.value.viewID <= viewID)
    {
      this.viewID := viewID;
    }

    /** A snapshot shares the store, the cache and every node, but not the root pointer; its view ID is reset. */
    method Snapshot() returns (snapshot: Tree)
      requires Valid()
      ensures fresh(snapshot) && snapshot.kv == kv && snapshot.cache == cache && snapshot.Valid()
      ensures snapshot.root == root && snapshot.viewID == 0 && snapshot.Model() == Model()
    {
      snapshot := new Tree.Make(kv, cache, root, 0);
    }

    method Revert(snapshot: Tree)
      modifies this`root
      ensures root == snapshot.root && Model() == old(snapshot.Model())
      ensures old(Valid()) && old(snapshot.Valid()) && snapshot.kv == kv ==> Valid()
    {
      root := snapshot.root;
    }

    /** The callback sees exactly the keys with the prefix, stripped of it, in ascending order, until it stops. */
    method IteratePrefix<S>(prefix: Key, s: S, cb: Callback<S, Entry<Value>>) returns (r: S)
      requires Valid()
      ensures r == Feed(s, WithPrefix(Entries(root), prefix), cb).0
    {
      if root == None {
        return s;
      }
      var wrapped := PrefixCallback(prefix, cb);
      IterateFromFeeds(root.value, prefix, s, wrapped);
      PrefixScan(s, Contents(root.value), prefix, cb);
      r := IterateFrom(root.value, prefix, s, wrapped).0;
    }

    function Checksum(): Option<Digest>
      reads this
    {
      if root.None? then None else Some(Id(root.value))
    }

    /** After a commit a process that opens the store sees the same entries, and the old root is on record. */
    method Commit()
      requires Valid()
      modifies this`root, kv`disk
      ensures Valid() && (root, kv.disk) == AvlStore.Commit(old(root), old(kv.disk))
      ensures Model() == old(Model()) && kv.disk.root == Checksum() == old(Checksum())
      ensures old(Current()) ==> Current()
      ensures kv.disk.root.Some? ==> Entries(Load(kv.disk.nodes, kv.disk.root.value)) == Entries(root)
    {
      AvlRuns.CommitReopens(root, kv.disk);
      var (root', disk') := AvlStore.Commit(root, kv.disk);
      if root.Some? {
        SameTreeSame(root'.value, root.value);
        IdDetermines(root'.value, root.value);
      }
      root := root';
      kv.disk := disk';
    }

    /**
     * The node with a given ID, from the cache or the store. Whatever the cache holds or has evicted, a node that the
     * store holds in full is found, and what is found has the ID asked for.
     */
    method LoadNode(d: Digest) returns (n: Option<Node>)
      requires cache.Valid() && Consistent(kv.disk.nodes)
      modifies cache
      ensures cache.Valid()
      ensures n.Some? ==> Id(n.value) == d
      ensures n.Some? <==> d in old(cache.elements) || Load(kv.disk.nodes, d).Some?
      ensures Load(kv.disk.nodes, d).Some? ==> n.Some? && SameTree(n.value, Load(kv.disk.nodes, d).value)
    {
      var stored := Load(kv.disk.nodes, d);
      if stored.Some? { LoadedIsStored(d, kv.disk.nodes); }
      n := cache.Load(d);
      if n == None {
        n := stored;
        if n.Some? {
          cache.Put(d, n.value);
        }
      }
      if n.Some? && stored.Some? {
        IdDetermines(n.value, stored.value);
      }
    }

    /** Visits the nodes newer than a view in preorder, with an explicit stack, until the callback stops. */
    method IterateDiff<S>(prevView: nat, s: S, cb: Callback<S, Node>) returns (r: S)
      requires Valid() && root.Some?
      ensures r == Feed(s, DiffNodes(root.value, prevView), cb).0
    {
      hide Remaining, DiffNodes, Feed, StackCount, Balanced, ViewsOrdered, Contents, Consistent, Durable;
      var stack := [root.value];
      r := s;
      WalkStarts(root.value, prevView);
      while stack != []
        invariant forall i :: 0 <= i < |stack| ==> Exact(stack[i])
        invariant Feed(r, Remaining(stack, prevView), cb).0 == Feed(s, DiffNodes(root.value, prevView), cb).0
        decreases StackCount(stack)
      {
        var current := stack[|stack| - 1];
        var rest := stack[..|stack| - 1];
        assert stack == rest + [current];
        Popped(rest, current, prevView);
        stack := rest;
        if current.viewID <= prevView {
          continue;
        }
        PopFeeds(rest, current, prevView, r, cb);
        var (r', more) := cb(r, current);
        r := r';
        if !more {
          return;
        }
        InnerHasTwo(current);
        if AvlNode.Size(current) > 1 {
          stack := rest + [current.right] + [current.left];
        }
      }
      WalkEnds(prevView, r, cb);
    }

    /** Two passes: the IDs first, then the records. */
    method DumpDiff(prevView: nat) returns (diff: Diff)
      requires Valid() && root.Some?
      ensures diff == Dump(root.value, prevView)
    {
      ghost var ns := DiffNodes(root.value, prevView);
      var ids := IterateDiff(prevView, [], Collect(Id));
      CollectAll([], ns, Id);
      var records := IterateDiff(prevView, [], Collect(ToRecord));
      CollectAll([], ns, ToRecord);
      diff := Diff(ids, records);
      assert ids == IdsOf(ns) && records == RecordsOf(ns);
    }

    /** A difference that is not accepted changes nothing; an empty one changes nothing either. */
    method ApplyDiff(diff: Diff) returns (error: Option<DiffError>)
      requires Consistent(kv.disk.nodes)
      modifies this`root, this`viewID
      ensures var r := AvlDiff.ApplyDiff(old(root), kv.disk.nodes, diff);
        && error == (if r.Err? then Some(r.error) else None)
        && root == (if r.Err? then old(root) else r.value)
        && viewID == (if r.Err? || diff.ids == [] then old(viewID) else root.value.viewID)
      ensures old(Valid()) && (error.Some? || diff.ids == []) ==> Valid()
      ensures old(Valid()) ==>
        forall t :: Avl(t) && Checksum() == Some(Id(t)) ==> Valid() && Model() == ToMap(Contents(t))
      ensures error.None? && diff.ids != [] ==> Current()
    {
      ghost var before := root;
      var r := AvlDiff.ApplyDiff(root, kv.disk.nodes, diff);
      if r.Err? {
        forall t | Avl(t) && Checksum() == Some(Id(t))
          ensures Contents(root.value) == Contents(t)
        {
          IdDetermines(root.value, t);
          SameTreeSame(root.value, t);
        }
        return Some(r.error);
      }
      if diff.ids != [] {
        viewID := r.value.value.viewID;
        root := r.value;
        AcceptedIsDurable(before, kv.disk.nodes, diff);
      }
      forall t | Avl(t) && Checksum() == Some(Id(t))
        ensures Avl(root.value) && Contents(root.value) == Contents(t)
      {
        IdDetermines(root.value, t);
        SameTreeSame(root.value, t);
      }
      error := None;
    }
  }

  /** Commit a tree, open its store anew and read: the answers are those of the tree before. */
  method ReadAfterReopen(t: Tree, cacheSize: nat, key: Key) returns (reopened: Tree, value: Option<Value>)
    requires t.Valid()
    modifies t`root, t.kv`disk
    ensures fresh(reopened) && reopened.Valid() && reopened.kv == t.kv && reopened.Checksum() == old(t.Checksum())
    ensures reopened.Model() == old(t.Model())
    ensures value == if key in old(t.Model()) then Some(old(t.Model())[key]) else None
  {
    t.Commit();
    var cache := new NodeLRU(cacheSize);
    if t.root.Some? {
      assert t.kv.disk.root == Some(Id(t.root.value)) && Avl(t.root.value);
    }
    reopened := new Tree.Open(t.kv, cache);
    value := reopened.Lookup(key);
  }

  /** What collapsing a block does with a tree: snapshot it, set the height, write. The tree itself is not touched. */
  method WriteToSnapshot(t: Tree, height: nat, key: Key, value: Value) returns (snapshot: Tree)
    requires t.Valid() && (t.root.Some? ==> t.root.value.viewID <= height)
    ensures fresh(snapshot) && snapshot.Valid() && snapshot.Current() && snapshot.viewID == height
    ensures snapshot.Model() == t.Model()[key := value]
  {
    snapshot := t.Snapshot();
    snapshot.SetViewID(height);
    snapshot.Insert(key, value);
  }

  /** What serving a sync request does: snapshot the tree and dump its difference from a view. */
  method DumpSnapshot(t: Tree, prevView: nat) returns (diff: Diff)
    requires t.Valid() && t.root.Some?
    ensures diff == Dump(t.root.value, prevView)
  {
    var snapshot := t.Snapshot();
    diff := snapshot.DumpDiff(prevView);
  }

  lemma {:induction false} InnerHasTwo(n: Node)
    requires Exact(n)
    ensures n.Inner? <==> AvlNode.Size(n) > 1
  {
    SizeCounts(n);
    if n.Inner? {
      SizeCounts(n.left);
      SizeCounts(n.right);
    }
  }
}
