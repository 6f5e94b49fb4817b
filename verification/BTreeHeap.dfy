/** The nodes of the B-tree as the objects they are: linked by pointers and changed in place. */
module BTreeHeap {
  import opened Bytes
  import opened SortedSeq
  import opened BTreeNode
  import opened BTreeSet
  import opened BTreeDelete

  /** Everything below the nodes of a list. */
  ghost function Union<V>(cs: seq<TreeNode<V>>): set<TreeNode<V>>
    reads cs
  {
    set i, o | 0 <= i < |cs| && o in cs[i].repr :: o
  }

  /** Trees of the given height that share no node, and their values. */
  ghost predicate Forest<V>(cs: seq<TreeNode<V>>, vs: seq<Node<V>>, height: nat)
    reads cs, Union(cs)
    decreases height, 1
  {
    && |cs| == |vs|
    && (forall i, j :: 0 <= i < j < |cs| ==> cs[i].repr !! cs[j].repr)
    && (forall i :: 0 <= i < |cs| ==> cs[i].repr <= Union(cs) && cs[i].Valid(height) && cs[i].value == vs[i])
  }

  ghost predicate Rooted<V>(cs: seq<TreeNode<V>>)
    reads cs
  {
    forall c :: c in cs ==> c in Union(cs)
  }

  class TreeNode<V> {
    /** The used parts of the two fixed arrays. */
    var items: seq<Entry<V>>
    var children: seq<TreeNode<V>>

    /** This node and everything below it, and the tree they make up. */
    ghost var repr: set<TreeNode<V>>
    ghost var value: Node<V>

    /** A tree of the given height; every node below this one is reached on one way only. */
    ghost predicate Valid(height: nat)
      reads this, repr
      decreases height, 0
    {
      && this in repr && value.items == items
      && if height == 0 then children == [] && value.children == [] && repr == {this}
         else
           && |children| == |items| + 1 == |value.children|
           && (forall c :: c in children ==> c in repr)
           && Rooted(children) && this !in Union(children) && repr == {this} + Union(children)
           && Forest(children, value.children, height - 1)
    }

    constructor (items: seq<Entry<V>>, children: seq<TreeNode<V>>, ghost value: Node<V>)
      ensures this.items == items && this.children == children && this.value == value
      ensures repr == {this} + Union(children)
    {
      this.items, this.children, this.value := items, children, value;
      repr := {this} + Union(children);
    }
  }

  lemma InUnion<V>(cs: seq<TreeNode<V>>, i: nat)
    requires i < |cs|
    ensures cs[i].repr <= Union(cs)
  {
  }

  lemma UnionSlice<V>(cs: seq<TreeNode<V>>, lo: nat, hi: nat)
    requires lo <= hi <= |cs|
    ensures Union(cs[lo..hi]) <= Union(cs)
  {
    forall o | o in Union(cs[lo..hi])
      ensures o in Union(cs)
    {
      var i :| 0 <= i < hi - lo && o in cs[lo..hi][i].repr;
      assert cs[lo..hi][i] == cs[lo + i];
    }
  }

  lemma {:induction false} ForestIn<V>(cs: seq<TreeNode<V>>, vs: seq<Node<V>>, height: nat)
    requires Forest(cs, vs, height)
    ensures Rooted(cs)
  {
    forall c | c in cs
      ensures c in Union(cs)
    {
      var i :| 0 <= i < |cs| && cs[i] == c;
      assert c.Valid(height);
    }
  }

  lemma {:induction false} ForestSlice<V>(cs: seq<TreeNode<V>>, vs: seq<Node<V>>, height: nat, lo: nat, hi: nat)
    requires Forest(cs, vs, height) && lo <= hi <= |cs|
    ensures Forest(cs[lo..hi], vs[lo..hi], height) && Union(cs[lo..hi]) <= Union(cs)
  {
    hide Union, TreeNode.Valid;
    UnionSlice(cs, lo, hi);
    var ds, ws := cs[lo..hi], vs[lo..hi];
    forall i | 0 <= i < |ds|
      ensures ds[i].repr <= Union(ds) && ds[i].Valid(height) && ds[i].value == ws[i]
    {
      assert ds[i] == cs[lo + i] && ws[i] == vs[lo + i];
      InUnion(ds, i);
    }
    forall i, j | 0 <= i < j < |ds|
      ensures ds[i].repr !! ds[j].repr
    {
      assert ds[i] == cs[lo + i] && ds[j] == cs[lo + j];
    }
  }

  lemma {:induction false} ForestApart<V>(cs: seq<TreeNode<V>>, vs: seq<Node<V>>, height: nat, k: nat)
    requires Forest(cs, vs, height) && k <= |cs|
    ensures Union(cs[..k]) !! Union(cs[k..])
  {
    hide TreeNode.Valid;
    var a, b := cs[..k], cs[k..];
    forall o | o in Union(a)
      ensures o !in Union(b)
    {
      var i :| 0 <= i < |a| && o in a[i].repr;
      forall j | 0 <= j < |b|
        ensures o !in b[j].repr
      {
        assert a[i] == cs[i] && b[j] == cs[k + j];
      }
    }
  }

  /** A list of trees is cut in two. */
  lemma {:induction false} ForestCut<V>(cs: seq<TreeNode<V>>, vs: seq<Node<V>>, height: nat, k: nat)
    requires Forest(cs, vs, height) && k <= |cs|
    ensures Forest(cs[..k], vs[..k], height) && Forest(cs[k..], vs[k..], height)
    ensures Union(cs[..k]) + Union(cs[k..]) <= Union(cs) && Union(cs[..k]) !! Union(cs[k..])
    ensures Rooted(cs) && Rooted(cs[..k]) && Rooted(cs[k..])
  {
    hide Union, Forest;
    ForestLength(cs, vs, height);
    assert cs[..k] == cs[0..k] && vs[..k] == vs[0..k];
    assert cs[k..] == cs[k..|cs|] && vs[k..] == vs[k..|cs|];
    ForestSlice(cs, vs, height, 0, k);
    ForestSlice(cs, vs, height, k, |cs|);
    ForestApart(cs, vs, height, k);
    ForestIn(cs, vs, height);
    ForestIn(cs[..k], vs[..k], height);
    ForestIn(cs[k..], vs[k..], height);
  }

  lemma {:induction false} ForestLength<V>(cs: seq<TreeNode<V>>, vs: seq<Node<V>>, height: nat)
    requires Forest(cs, vs, height)
    ensures |cs| == |vs|
  {
  }

  lemma UnionJoin<V>(a: seq<TreeNode<V>>, b: seq<TreeNode<V>>)
    ensures Union(a + b) == Union(a) + Union(b)
  {
    forall o | o in Union(a) + Union(b)
      ensures o in Union(a + b)
    {
      if o in Union(a) {
        var i :| 0 <= i < |a| && o in a[i].repr;
        assert (a + b)[i] == a[i];
      } else {
        var i :| 0 <= i < |b| && o in b[i].repr;
        assert (a + b)[|a| + i] == b[i];
      }
    }
  }

  lemma {:induction false} ForestJoin<V>(
      a: seq<TreeNode<V>>, va: seq<Node<V>>, b: seq<TreeNode<V>>, vb: seq<Node<V>>, height: nat)
    requires Forest(a, va, height) && Forest(b, vb, height) && Union(a) !! Union(b)
    ensures Forest(a + b, va + vb, height) && Union(a + b) == Union(a) + Union(b)
  {
    hide Union, TreeNode.Valid;
    UnionJoin(a, b);
    var cs, vs := a + b, va + vb;
    forall i | 0 <= i < |cs|
      ensures cs[i].repr <= Union(cs) && cs[i].Valid(height) && cs[i].value == vs[i]
    {
      InUnion(cs, i);
    }
    forall i, j | 0 <= i < j < |cs|
      ensures cs[i].repr !! cs[j].repr
    {
      if i < |a| <= j {
        InUnion(a, i);
        InUnion(b, j - |a|);
      }
    }
  }

  lemma {:induction false} ForestOne<V>(c: TreeNode<V>, height: nat)
    requires c.Valid(height)
    ensures Forest([c], [c.value], height) && Union([c]) == c.repr
  {
    assert [c][0] == c;
  }

  /** The trees left of child i, child i, and the trees right of it. */
  lemma {:induction false} ForestAround<V>(cs: seq<TreeNode<V>>, vs: seq<Node<V>>, height: nat, i: nat)
    requires Forest(cs, vs, height) && i < |cs|
    ensures |vs| == |cs| && cs[i].Valid(height) && cs[i].value == vs[i]
    ensures Forest(cs[..i], vs[..i], height) && Forest(cs[i + 1..], vs[i + 1..], height)
    ensures Union(cs) == Union(cs[..i]) + cs[i].repr + Union(cs[i + 1..])
    ensures Union(cs[..i]) !! cs[i].repr !! Union(cs[i + 1..])
    ensures Rooted(cs) && Rooted(cs[..i]) && Rooted(cs[i + 1..])
  {
    hide Union, Forest, Rooted, TreeNode.Valid;
    ForestLength(cs, vs, height);
    ForestCut(cs, vs, height, i);
    var ds, ws := cs[i..], vs[i..];
    ForestCut(ds, ws, height, 1);
    assert ds[..1] == [cs[i]] && ws[..1] == [vs[i]] && ds[1..] == cs[i + 1..] && ws[1..] == vs[i + 1..];
    OneForest(cs[i], vs[i], height);
    UnionJoin([cs[i]], cs[i + 1..]);
    assert [cs[i]] + cs[i + 1..] == ds;
    UnionJoin(cs[..i], ds);
    assert cs[..i] + ds == cs;
  }

  lemma {:induction false} OneForest<V>(c: TreeNode<V>, v: Node<V>, height: nat)
    requires Forest([c], [v], height)
    ensures c.Valid(height) && c.value == v && Union([c]) == c.repr
  {
    assert [c][0] == c && [v][0] == v;
  }

  /** The reverse, with another tree in the middle. */
  lemma {:induction false} ForestAgain<V>(
      a: seq<TreeNode<V>>, va: seq<Node<V>>, c: TreeNode<V>, b: seq<TreeNode<V>>, vb: seq<Node<V>>, height: nat)
    requires Forest(a, va, height) && c.Valid(height) && Forest(b, vb, height)
    requires Union(a) !! c.repr !! Union(b)
    ensures Forest(a + [c] + b, va + [c.value] + vb, height)
    ensures Union(a + [c] + b) == Union(a) + c.repr + Union(b)
  {
    hide Union, Forest, TreeNode.Valid;
    ForestOne(c, height);
    ForestJoin(a, va, [c], [c.value], height);
    ForestJoin(a + [c], va + [c.value], b, vb, height);
  }

  lemma {:induction false} ForestPair<V>(
      a: seq<TreeNode<V>>, va: seq<Node<V>>, c: TreeNode<V>, d: TreeNode<V>, b: seq<TreeNode<V>>, vb: seq<Node<V>>,
      height: nat)
    requires Forest(a, va, height) && c.Valid(height) && d.Valid(height) && Forest(b, vb, height)
    requires Union(a) !! c.repr !! d.repr !! Union(b)
    ensures Forest(a + [c, d] + b, va + [c.value, d.value] + vb, height)
    ensures Union(a + [c, d] + b) == Union(a) + c.repr + d.repr + Union(b) && Rooted(a + [c, d] + b)
  {
    hide Union, Forest, Rooted, TreeNode.Valid;
    ForestOne(c, height);
    ForestOne(d, height);
    ForestJoin([c], [c.value], [d], [d.value], height);
    assert [c] + [d] == [c, d] && [c.value] + [d.value] == [c.value, d.value];
    ForestJoin(a, va, [c, d], [c.value, d.value], height);
    ForestJoin(a + [c, d], va + [c.value, d.value], b, vb, height);
    ForestIn(a + [c, d] + b, va + [c.value, d.value] + vb, height);
  }

  /** Two neighbours and the trees on both sides of them. */
  lemma {:induction false} ForestTwo<V>(cs: seq<TreeNode<V>>, vs: seq<Node<V>>, height: nat, j: nat)
    requires Forest(cs, vs, height) && j + 1 < |cs|
    ensures |vs| == |cs| && cs[j].Valid(height) && cs[j].value == vs[j]
    ensures cs[j + 1].Valid(height) && cs[j + 1].value == vs[j + 1]
    ensures Forest(cs[..j], vs[..j], height) && Forest(cs[j + 2..], vs[j + 2..], height)
    ensures Union(cs) == Union(cs[..j]) + cs[j].repr + cs[j + 1].repr + Union(cs[j + 2..])
    ensures Union(cs[..j]) !! cs[j].repr !! cs[j + 1].repr !! Union(cs[j + 2..])
    ensures Rooted(cs) && Rooted(cs[..j]) && Rooted(cs[j + 2..])
  {
    hide Union, Forest, Rooted, TreeNode.Valid;
    ForestAround(cs, vs, height, j);
    var ds, ws := cs[j + 1..], vs[j + 1..];
    ForestAround(ds, ws, height, 0);
    assert ds[0] == cs[j + 1] && ws[0] == vs[j + 1];
    assert ds[..0] == [] && ds[0 + 1..] == cs[j + 2..] && ws[0 + 1..] == vs[j + 2..];
    EmptyUnion(ds[..0]);
  }

  /** Brings the ghost fields of a node in line with its items and children. */
  ghost method Relink<V>(n: TreeNode<V>, vs: seq<Node<V>>, height: nat)
    requires height > 0 && |n.children| == |n.items| + 1 == |vs|
    requires Forest(n.children, vs, height - 1) && Rooted(n.children) && n !in Union(n.children)
    modifies n`repr, n`value
    ensures n.Valid(height) && n.value == Node(n.items, vs) && n.repr == {n} + Union(n.children)
  {
    hide Forest, Union;
    n.repr := {n} + Union(n.children);
    n.value := Node(n.items, vs);
  }

  /** The upper half of a full node moves to a new node. */
  method SplitNode<V>(n: TreeNode<V>, height: nat) returns (right: TreeNode<V>, median: Entry<V>)
    requires n.Valid(height) && Shape(n.value, height) && |n.items| == MAX_ITEMS
    modifies n
    ensures n.Valid(height) && right.Valid(height) && fresh(right)
    ensures n.repr + right.repr <= old(n.repr) + {right} && n.repr !! right.repr
    ensures (n.value, median, right.value) == Split(old(n.value))
  {
    hide Forest, Union;
    ghost var cs, vs := n.children, n.value.children;
    median := n.items[HALF];
    if height == 0 {
      right := new TreeNode(n.items[HALF + 1..], [], Slice(n.value, HALF + 1, MAX_ITEMS));
      EmptyUnion(right.children);
    } else {
      ForestCut(cs, vs, height - 1, HALF + 1);
      right := new TreeNode(n.items[HALF + 1..], n.children[HALF + 1..], Slice(n.value, HALF + 1, MAX_ITEMS));
      assert right.value.children == vs[HALF + 1..];
      n.children := n.children[..HALF + 1];
      n.repr := {n} + Union(n.children);
    }
    n.items := n.items[..HALF];
    n.value := Slice(n.value, 0, HALF);
    assert height > 0 ==> n.value.children == vs[..HALF + 1];
  }

  lemma EmptyUnion<V>(cs: seq<TreeNode<V>>)
    requires cs == []
    ensures Union(cs) == {}
  {
  }

  /** Child i of a node has been changed. */
  ghost method Touch<V>(n: TreeNode<V>, i: nat, height: nat, v: Node<V>)
    requires height > 0 && i < |n.children| && n.items == v.items && |v.children| == |n.children| == |n.items| + 1
    requires var a, b := n.children[..i], n.children[i + 1..];
      && Forest(a, v.children[..i], height - 1) && Forest(b, v.children[i + 1..], height - 1)
      && n !in Union(a) && n !in Union(b) && n !in n.children[i].repr
      && n.children[i].Valid(height - 1) && Union(a) !! n.children[i].repr !! Union(b)
    modifies n`repr, n`value
    ensures n.Valid(height) && n.value == v.(children := v.children[i := n.children[i].value])
    ensures n.repr == {n} + Union(n.children[..i]) + n.children[i].repr + Union(n.children[i + 1..])
  {
    hide Forest, Union, Rooted;
    var a, c, b := n.children[..i], n.children[i], n.children[i + 1..];
    var vs := v.children[..i] + [c.value] + v.children[i + 1..];
    ForestAgain(a, v.children[..i], c, b, v.children[i + 1..], height - 1);
    assert a + [c] + b == n.children;
    ForestIn(n.children, vs, height - 1);
    assert vs == v.children[i := c.value];
    Relink(n, vs, height);
  }

  method SetNode<V>(n: TreeNode<V>, key: Key, value: V, height: nat) returns (prev: Option<V>)
    requires n.Valid(height) && Shape(n.value, height) && Sorted(Flat(n.value))
    modifies n.repr
    ensures n.Valid(height) && fresh(n.repr - old(n.repr))
    ensures (n.value, prev) == Set(old(n.value), key, value, height)
    decreases height
  {
    hide Forest, Union, Rooted, Flat;
    ghost var v := n.value;
    ItemsSorted(v);
    var i, found := BinaryFind(n.items, key);
    if found || height == 0 {
      prev := SetHere(n, i, found, key, value, height);
      return;
    }
    ChildSorted(v, i);
    prev := SetChild(n, i, key, value, height, v);
    if prev.Some? {
      return;
    }
    if |n.children[i].items| == MAX_ITEMS {
      AdoptSplit(n, i, height);
    }
  }

  /** The key is there, or this is a leaf. */
  method SetHere<V>(n: TreeNode<V>, i: nat, found: bool, key: Key, value: V, height: nat) returns (prev: Option<V>)
    requires n.Valid(height) && Shape(n.value, height) && (i, found) == Find(n.items, key) && (found || height == 0)
    modifies n
    ensures n.Valid(height) && n.repr == old(n.repr)
    ensures (n.value, prev) == Set(old(n.value), key, value, height)
  {
    hide Forest, Union, Flat;
    if found {
      prev := Some(n.items[i].value);
      n.items := n.items[i := Entry(key, value)];
    } else {
      prev := None;
      n.items := n.items[..i] + [Entry(key, value)] + n.items[i..];
    }
    n.value := n.value.(items := n.items);
  }

  method SetChild<V>(n: TreeNode<V>, i: nat, key: Key, value: V, height: nat, ghost v: Node<V>)
    returns (prev: Option<V>)
    requires height > 0 && n.Valid(height) && v == n.value && i < |v.children|
    requires Shape(v.children[i], height - 1) && Sorted(Flat(v.children[i]))
    modifies n.repr
    ensures n.Valid(height) && fresh(n.repr - old(n.repr)) && i < |n.children|
    ensures prev == Set(v.children[i], key, value, height - 1).1
    ensures n.value == v.(children := v.children[i := Set(v.children[i], key, value, height - 1).0])
    ensures n.children[i].items == n.value.children[i].items
    decreases height, 0
  {
    hide Forest, Union, Flat, Set, Shape;
    ghost var cs := n.children;
    ForestAround(cs, v.children, height - 1, i);
    prev := SetNode(n.children[i], key, value, height - 1);
    Touch(n, i, height, v);
  }

  /** Child i is full: it is split and its new neighbour put next to it. */
  method AdoptSplit<V>(n: TreeNode<V>, i: nat, height: nat)
    requires height > 0 && n.Valid(height) && i < |n.children|
    requires Shape(n.value.children[i], height - 1) && |n.value.children[i].items| == MAX_ITEMS
    modifies n.repr
    ensures n.Valid(height) && fresh(n.repr - old(n.repr))
    ensures n.value == Adopt(old(n.value), i, old(n.value).children[i])
  {
    hide Forest, Union, Shape, Split, Slice;
    ghost var v, cs := n.value, n.children;
    ForestAround(cs, v.children, height - 1, i);
    var c := n.children[i];
    var right, median := SplitNode(c, height - 1);
    ghost var a, b, va, vb := cs[..i], cs[i + 1..], v.children[..i], v.children[i + 1..];
    ForestPair(a, va, c, right, b, vb, height - 1);
    n.children := n.children[..i + 1] + [right] + n.children[i + 1..];
    n.items := n.items[..i] + [median] + n.items[i..];
    assert n.children == a + [c, right] + b;
    Relink(n, va + [c.value, right.value] + vb, height);
  }

  /** left + item + right in one node */
  method MergeNodes<V>(l: TreeNode<V>, e: Entry<V>, r: TreeNode<V>, height: nat)
    requires l.Valid(height) && r.Valid(height) && l.repr !! r.repr
    modifies l
    ensures l.Valid(height) && l.repr <= old(l.repr) + r.repr && l.value == Merge(old(l.value), e, r.value)
  {
    hide Forest, Union;
    ghost var vl, vr := l.value, r.value;
    if height > 0 {
      ForestJoin(l.children, vl.children, r.children, vr.children, height - 1);
      ForestIn(l.children + r.children, vl.children + vr.children, height - 1);
    }
    l.items := l.items + [e] + r.items;
    l.children := l.children + r.children;
    if height > 0 {
      Relink(l, vl.children + vr.children, height);
    } else {
      l.value := Node(l.items, []);
    }
  }

  /** The last item of the left node goes up, the separator comes down in front of the right node. */
  method MoveRightNodes<V>(l: TreeNode<V>, e: Entry<V>, r: TreeNode<V>, height: nat) returns (up: Entry<V>)
    requires l.Valid(height) && r.Valid(height) && l.repr !! r.repr && l.items != [] && Alike(l.value, r.value)
    modifies l, r
    ensures l.Valid(height) && r.Valid(height) && l.repr !! r.repr && l.repr + r.repr <= old(l.repr) + old(r.repr)
    ensures Moved(l.value, up, r.value) == MoveRight(old(l.value), e, old(r.value))
  {
    hide Forest, Union;
    ghost var vl, vr := l.value.children, r.value.children;
    var m := |l.items| - 1;
    up := l.items[m];
    if height == 0 {
      r.items := [e] + r.items;
      l.items := l.items[..m];
      l.value, r.value := Node(l.items, []), Node(r.items, []);
    } else {
      ForestCut(l.children, vl, height - 1, m + 1);
      assert l.children[m + 1..] == [l.children[m + 1]] && vl[m + 1..] == [vl[m + 1]];
      ForestJoin([l.children[m + 1]], [vl[m + 1]], r.children, vr, height - 1);
      ForestIn([l.children[m + 1]] + r.children, [vl[m + 1]] + vr, height - 1);
      r.items := [e] + r.items;
      r.children := [l.children[m + 1]] + r.children;
      l.items := l.items[..m];
      l.children := l.children[..m + 1];
      Relink(r, [vl[m + 1]] + vr, height);
      Relink(l, vl[..m + 1], height);
    }
  }

  /** The first item of the right node goes up, the separator comes down behind the left node. */
  method MoveLeftNodes<V>(l: TreeNode<V>, e: Entry<V>, r: TreeNode<V>, height: nat) returns (up: Entry<V>)
    requires l.Valid(height) && r.Valid(height) && l.repr !! r.repr && r.items != [] && Alike(l.value, r.value)
    modifies l, r
    ensures l.Valid(height) && r.Valid(height) && l.repr !! r.repr && l.repr + r.repr <= old(l.repr) + old(r.repr)
    ensures Moved(l.value, up, r.value) == MoveLeft(old(l.value), e, old(r.value))
  {
    hide Forest, Union;
    ghost var vl, vr := l.value.children, r.value.children;
    up := r.items[0];
    if height == 0 {
      l.items := l.items + [e];
      r.items := r.items[1..];
      l.value, r.value := Node(l.items, []), Node(r.items, []);
    } else {
      ForestCut(r.children, vr, height - 1, 1);
      assert r.children[..1] == [r.children[0]] && vr[..1] == [vr[0]];
      ForestJoin(l.children, vl, [r.children[0]], [vr[0]], height - 1);
      ForestIn(l.children + [r.children[0]], vl + [vr[0]], height - 1);
      l.items := l.items + [e];
      l.children := l.children + [r.children[0]];
      r.items := r.items[1..];
      r.children := r.children[1..];
      Relink(l, vl + [vr[0]], height);
      Relink(r, vr[1..], height);
    }
  }

  /** Children j and j + 1 are merged into one. */
  method MergeAt<V>(n: TreeNode<V>, j: nat, height: nat)
    requires height > 0 && n.Valid(height) && j < |n.items|
    modifies n.repr
    ensures n.Valid(height) && n.repr <= old(n.repr)
    ensures var v := old(n.value);
      n.value == WithPair(v, j, Merged(Merge(v.children[j], v.items[j], v.children[j + 1])))
  {
    hide Forest, Union, Merge;
    ghost var v, cs := n.value, n.children;
    ForestTwo(cs, v.children, height - 1, j);
    ghost var a, b, va, vb := cs[..j], cs[j + 2..], v.children[..j], v.children[j + 2..];
    var l := n.children[j];
    MergeNodes(l, n.items[j], n.children[j + 1], height - 1);
    ForestAgain(a, va, l, b, vb, height - 1);
    n.items := n.items[..j] + n.items[j + 1..];
    n.children := n.children[..j + 1] + n.children[j + 2..];
    assert n.children == a + [l] + b;
    ForestIn(n.children, va + [l.value] + vb, height - 1);
    Relink(n, va + [l.value] + vb, height);
  }

  /** An item moves from child j to child j + 1 or the other way. */
  method MoveAt<V>(n: TreeNode<V>, j: nat, toRight: bool, height: nat)
    requires height > 0 && n.Valid(height) && j < |n.items|
    requires n.value.children[j].items != [] && n.value.children[j + 1].items != []
    requires Alike(n.value.children[j], n.value.children[j + 1])
    modifies n.repr
    ensures n.Valid(height) && n.repr <= old(n.repr)
    ensures var v := old(n.value);
      n.value == WithPair(v, j, if toRight then MoveRight(v.children[j], v.items[j], v.children[j + 1])
                                else MoveLeft(v.children[j], v.items[j], v.children[j + 1]))
  {
    hide Forest, Union, Alike, MoveRight, MoveLeft;
    ghost var v, cs := n.value, n.children;
    ForestTwo(cs, v.children, height - 1, j);
    ghost var a, b, va, vb := cs[..j], cs[j + 2..], v.children[..j], v.children[j + 2..];
    var l, r := n.children[j], n.children[j + 1];
    var up;
    if toRight {
      up := MoveRightNodes(l, n.items[j], r, height - 1);
    } else {
      up := MoveLeftNodes(l, n.items[j], r, height - 1);
    }
    ForestPair(a, va, l, r, b, vb, height - 1);
    n.items := n.items[j := up];
    assert n.children == a + [l, r] + b;
    assert va + [l.value, r.value] + vb == v.children[j := l.value][j + 1 := r.value];
    Relink(n, va + [l.value, r.value] + vb, height);
  }

  /** Two neighbours, one of them too small. */
  method EvenNodes<V>(n: TreeNode<V>, j: nat, height: nat)
    requires height > 0 && n.Valid(height) && j < |n.items|
    requires n.value.children[j].items != [] && n.value.children[j + 1].items != []
    requires Alike(n.value.children[j], n.value.children[j + 1])
    modifies n.repr
    ensures n.Valid(height) && n.repr <= old(n.repr)
    ensures var v := old(n.value); n.value == WithPair(v, j, Even(v.children[j], v.items[j], v.children[j + 1]))
  {
    hide Forest, Union, Rooted, Alike, Merge, MoveRight, MoveLeft, WithPair;
    ForestTwo(n.children, n.value.children, height - 1, j);
    var left, right := |n.children[j].items|, |n.children[j + 1].items|;
    if left + right + 1 < MAX_ITEMS {
      MergeAt(n, j, height);
    } else {
      MoveAt(n, j, left > right, height);
    }
  }

  /** The end of delete: a child that has become too small is evened out with a neighbour. */
  method RefillNode<V>(n: TreeNode<V>, at: nat, height: nat)
    requires n.Valid(height) && ShortAt(n.value, at, height)
    modifies n.repr
    ensures n.Valid(height) && n.repr <= old(n.repr) && n.value == Refill(old(n.value), at, height)
  {
    hide Forest, Union, Rooted, Even, WithPair, Shape;
    ghost var v := n.value;
    ForestAround(n.children, v.children, height - 1, at);
    if |n.children[at].items| >= MIN_ITEMS {
      return;
    }
    var j := if at == |n.items| then at - 1 else at;
    EvenShape(v.children[j], v.items[j], v.children[j + 1], height - 1);
    EvenNodes(n, j, height);
  }

  /** delete(true, nil, height): takes out the largest entry. */
  method DeleteMaxNode<V>(n: TreeNode<V>, height: nat) returns (e: Entry<V>)
    requires n.Valid(height) && Shape(n.value, height) && n.items != []
    modifies n.repr
    ensures n.Valid(height) && n.repr <= old(n.repr) && (n.value, e) == DeleteMax(old(n.value), height)
    decreases height
  {
    hide Forest, Union, Refill;
    ghost var v, cs := n.value, n.children;
    var m := |n.items|;
    if height == 0 {
      e := n.items[m - 1];
      n.items := n.items[..m - 1];
      n.value := n.value.(items := n.items);
      return;
    }
    ForestAround(cs, v.children, height - 1, m);
    e := DeleteMaxNode(n.children[m], height - 1);
    Touch(n, m, height, v);
    RefillNode(n, m, height);
  }

  method DeleteNode<V>(n: TreeNode<V>, key: Key, height: nat) returns (prev: Option<Entry<V>>)
    requires n.Valid(height) && Shape(n.value, height) && n.items != [] && Sorted(Flat(n.value))
    modifies n.repr
    ensures n.Valid(height) && n.repr <= old(n.repr) && (n.value, prev) == Delete(old(n.value), key, height)
    decreases height
  {
    hide Forest, Union, Rooted, Flat, Refill;
    ghost var v := n.value;
    ItemsSorted(v);
    var i, found := BinaryFind(n.items, key);
    if height == 0 {
      prev := DeleteHere(n, i, found, key);
    } else if found {
      prev := Some(n.items[i]);
      ReplaceByMax(n, i, height);
      RefillNode(n, i, height);
    } else {
      ChildSorted(v, i);
      prev := DeleteChild(n, i, key, height, v);
      if prev.Some? {
        RefillNode(n, i, height);
      } else {
        assert v.children[i := v.children[i]] == v.children;
      }
    }
  }

  method DeleteHere<V>(n: TreeNode<V>, i: nat, found: bool, key: Key) returns (prev: Option<Entry<V>>)
    requires n.Valid(0) && Shape(n.value, 0) && n.items != [] && (i, found) == Find(n.items, key)
    modifies n
    ensures n.Valid(0) && n.repr == old(n.repr) && (n.value, prev) == Delete(old(n.value), key, 0)
  {
    if !found {
      return None;
    }
    prev := Some(n.items[i]);
    n.items := n.items[..i] + n.items[i + 1..];
    n.value := n.value.(items := n.items);
  }

  /** Item i of an inner node gives way to the largest entry of the child before it. */
  method ReplaceByMax<V>(n: TreeNode<V>, i: nat, height: nat)
    requires height > 0 && n.Valid(height) && Shape(n.value, height) && i < |n.items|
    modifies n.repr
    ensures n.Valid(height) && n.repr <= old(n.repr)
    ensures var v := old(n.value); var (child, e) := DeleteMax(v.children[i], height - 1);
      n.value == Node(v.items[i := e], v.children[i := child])
  {
    hide Forest, Union, DeleteMax;
    ghost var v := n.value;
    ForestAround(n.children, v.children, height - 1, i);
    var e := DeleteMaxNode(n.children[i], height - 1);
    n.items := n.items[i := e];
    Touch(n, i, height, v.(items := n.items));
  }

  method DeleteChild<V>(n: TreeNode<V>, i: nat, key: Key, height: nat, ghost v: Node<V>)
    returns (prev: Option<Entry<V>>)
    requires height > 0 && n.Valid(height) && v == n.value && i < |v.children|
    requires Shape(v.children[i], height - 1) && v.children[i].items != [] && Sorted(Flat(v.children[i]))
    modifies n.repr
    ensures n.Valid(height) && n.repr <= old(n.repr)
    ensures var (child, p) := Delete(v.children[i], key, height - 1);
      prev == p && n.value == v.(children := v.children[i := child])
    decreases height, 0
  {
    hide Forest, Union, Flat, Delete, Shape;
    ForestAround(n.children, v.children, height - 1, i);
    prev := DeleteNode(n.children[i], key, height - 1);
    Touch(n, i, height, v);
  }

  /** get: find in this node or descend. */
  method GetNode<V>(n: TreeNode<V>, key: Key, height: nat) returns (value: Option<V>)
    requires n.Valid(height) && Shape(n.value, height) && Sorted(Flat(n.value))
    ensures value == Get(Flat(n.value), key)
    decreases height
  {
    hide Forest, Union, Rooted, Flat, Get;
    ItemsSorted(n.value);
    var i, found := BinaryFind(n.items, key);
    if found {
      SetFoundFlat(n.value, key, n.items[i].value, i);
      return Some(n.items[i].value);
    }
    if height == 0 {
      AbsentInLeaf(n.value, key, i);
      return None;
    }
    GetChild(n.value, key, i);
    ChildSorted(n.value, i);
    ForestAround(n.children, n.value.children, height - 1, i);
    value := GetNode(n.children[i], key, height - 1);
  }

  lemma {:induction false} AbsentInLeaf<V>(n: Node<V>, key: Key, i: nat)
    requires n.children == [] && Sorted(Flat(n)) && Find(n.items, key) == (i, false)
    ensures Get(Flat(n), key) == None
  {
    RemovePlace(n.items, key);
  }
}
