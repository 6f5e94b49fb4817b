/** Deletion from the B-tree: delete with its merge and borrow cases (internal/btree/btree.go). */
module BTreeDelete {
  import opened Bytes
  import opened SortedSeq
  import opened BTreeNode
  import opened BTreeSet

  function RemoveAt<T>(s: seq<T>, i: nat): seq<T>
    requires i < |s|
  {
    s[..i] + s[i + 1..]
  }

  /** Two neighbours and the item between them are replaced by one node or by another such pair. */
  datatype Pair<V> = Merged(node: Node<V>) | Moved(left: Node<V>, item: Entry<V>, right: Node<V>)

  /** Both are leaves, or both have children. */
  predicate Alike<V>(l: Node<V>, r: Node<V>) {
    if l.children == [] then r.children == []
    else |l.children| == |l.items| + 1 && |r.children| == |r.items| + 1
  }

  /** left + item + right in one node */
  function Merge<V>(l: Node<V>, e: Entry<V>, r: Node<V>): Node<V> {
    Node(l.items + [e] + r.items, l.children + r.children)
  }

  /** The last item of the left node goes up, the separator comes down in front of the right node. */
  function MoveRight<V>(l: Node<V>, e: Entry<V>, r: Node<V>): Pair<V>
    requires l.items != [] && Alike(l, r)
  {
    var m := |l.items| - 1;
    Moved(Node(l.items[..m], if l.children == [] then [] else l.children[..m + 1]),
          l.items[m],
          Node([e] + r.items, if l.children == [] then [] else [l.children[m + 1]] + r.children))
  }

  /** The first item of the right node goes up, the separator comes down behind the left node. */
  function MoveLeft<V>(l: Node<V>, e: Entry<V>, r: Node<V>): Pair<V>
    requires r.items != [] && Alike(l, r)
  {
    Moved(Node(l.items + [e], if l.children == [] then [] else l.children + [r.children[0]]),
          r.items[0],
          Node(r.items[1..], if l.children == [] then [] else r.children[1..]))
  }

  /** The three cases of delete for a child that has become too small, and its neighbour. */
  function Even<V>(l: Node<V>, e: Entry<V>, r: Node<V>): Pair<V>
    requires l.items != [] && r.items != [] && Alike(l, r)
  {
    if |l.items| + |r.items| + 1 < MAX_ITEMS then Merged(Merge(l, e, r))
    else if |l.items| > |r.items| then MoveRight(l, e, r)
    else MoveLeft(l, e, r)
  }

  function PairFlat<V>(p: Pair<V>): seq<Entry<V>> {
    match p
    case Merged(m) => Flat(m)
    case Moved(l, e, r) => Flat(l) + [e] + Flat(r)
  }

  /** All three outcomes hold the same entries: they are the same node cut in different places, or not at all. */
  lemma {:induction false} EvenFlat<V>(l: Node<V>, e: Entry<V>, r: Node<V>)
    requires l.items != [] && r.items != [] && Alike(l, r)
    ensures PairFlat(Even(l, e, r)) == Flat(l) + [e] + Flat(r)
  {
    hide Flat, Merge, MoveRight, MoveLeft;
    var m := Merge(l, e, r);
    MergeCut(l, e, r);
    if |l.items| + |r.items| + 1 < MAX_ITEMS {
    } else if |l.items| > |r.items| {
      MoveRightIsCut(l, e, r);
      Cut(m, |l.items| - 1);
    } else {
      MoveLeftIsCut(l, e, r);
      Cut(m, |l.items| + 1);
    }
  }

  lemma {:induction false} MergeCut<V>(l: Node<V>, e: Entry<V>, r: Node<V>)
    requires Alike(l, r)
    ensures Flat(Merge(l, e, r)) == Flat(l) + [e] + Flat(r)
  {
    hide Flat;
    var m, k := Merge(l, e, r), |l.items|;
    Cut(m, k);
    assert Slice(m, 0, k) == l && m.items[k] == e && Slice(m, k + 1, |m.items|) == r;
  }

  /** The pair is the node cut at item k. */
  ghost predicate IsCut<V>(p: Pair<V>, n: Node<V>, k: nat) {
    && k < |n.items| && (n.children == [] || |n.children| == |n.items| + 1)
    && p == Moved(Slice(n, 0, k), n.items[k], Slice(n, k + 1, |n.items|))
  }

  lemma JoinCut<T>(a: seq<T>, b: seq<T>, k: nat)
    requires k <= |a|
    ensures (a + b)[0..k] == a[..k] && (a + b)[k..|a| + |b|] == a[k..] + b
  {
  }

  lemma JoinCutRight<T>(a: seq<T>, b: seq<T>, k: nat)
    requires k <= |b|
    ensures (a + b)[0..|a| + k] == a + b[..k] && (a + b)[|a| + k..|a| + |b|] == b[k..]
  {
  }

  lemma MoveRightIsCut<V>(l: Node<V>, e: Entry<V>, r: Node<V>)
    requires l.items != [] && Alike(l, r)
    ensures IsCut(MoveRight(l, e, r), Merge(l, e, r), |l.items| - 1)
  {
    var m, k := Merge(l, e, r), |l.items| - 1;
    assert m.items == l.items + ([e] + r.items);
    JoinCut(l.items, [e] + r.items, k);
    JoinCut(l.items, [e] + r.items, k + 1);
    assert l.items[k + 1..] == [];
    if l.children != [] {
      JoinCut(l.children, r.children, k + 1);
      assert l.children[k + 1..] == [l.children[k + 1]];
    }
  }

  lemma MoveLeftIsCut<V>(l: Node<V>, e: Entry<V>, r: Node<V>)
    requires r.items != [] && Alike(l, r)
    ensures IsCut(MoveLeft(l, e, r), Merge(l, e, r), |l.items| + 1)
  {
    var m, k := Merge(l, e, r), |l.items| + 1;
    JoinCutRight(l.items + [e], r.items, 0);
    JoinCutRight(l.items + [e], r.items, 1);
    assert r.items[..0] == [];
    if l.children != [] {
      JoinCutRight(l.children, r.children, 1);
      assert r.children[..1] == [r.children[0]];
    }
  }

  predicate PairShape<V>(p: Pair<V>, height: nat) {
    match p
    case Merged(m) => Shape(m, height) && Sized(m)
    case Moved(l, _, r) => Shape(l, height) && Sized(l) && Shape(r, height) && Sized(r)
  }

  /** If one of two neighbours is one item short and the other is not, both are of legal size afterwards. */
  lemma {:induction false} EvenShape<V>(l: Node<V>, e: Entry<V>, r: Node<V>, height: nat)
    requires Shape(l, height) && Shape(r, height)
    requires (Sized(l) && |r.items| == MIN_ITEMS - 1) || (|l.items| == MIN_ITEMS - 1 && Sized(r))
    ensures Alike(l, r) && PairShape(Even(l, e, r), height)
  {
  }

  function WithPair<V>(n: Node<V>, j: nat, p: Pair<V>): Node<V>
    requires |n.children| == |n.items| + 1 && j < |n.items|
  {
    match p
    case Merged(m) => Node(RemoveAt(n.items, j), n.children[..j] + [m] + n.children[j + 2..])
    case Moved(l, e, r) => Node(n.items[j := e], n.children[j := l][j + 1 := r])
  }

  /** All children but j and j + 1 are as they should be. */
  predicate SoundAround<V>(n: Node<V>, j: nat, height: nat) {
    && height > 0 && |n.children| == |n.items| + 1 && j < |n.items|
    && forall c :: 0 <= c < |n.children| && c != j && c != j + 1 ==>
         Shape(n.children[c], height - 1) && Sized(n.children[c])
  }

  lemma {:induction false} WithPairShape<V>(n: Node<V>, j: nat, p: Pair<V>, height: nat)
    requires SoundAround(n, j, height) && PairShape(p, height - 1)
    ensures Shape(WithPair(n, j, p), height)
    ensures |n.items| - 1 <= |WithPair(n, j, p).items| <= |n.items|
  {
    var r := WithPair(n, j, p);
    if p.Merged? {
      forall c | 0 <= c < |r.children| ensures Shape(r.children[c], height - 1) && Sized(r.children[c]) {
        if c > j { assert r.children[c] == n.children[c + 1]; }
      }
    }
  }

  lemma {:induction false} WithMergedFlat<V>(n: Node<V>, j: nat, m: Node<V>)
    requires |n.children| == |n.items| + 1 && j < |n.items|
    ensures Flat(WithPair(n, j, Merged(m)))
         == Lefts(n.items[..j], n.children[..j]) + Flat(m) + Rights(n.items[j + 1..], n.children[j + 2..])
  {
    var r := WithPair(n, j, Merged(m));
    Focus(r, j);
    assert r.items[..j] == n.items[..j] && r.children[..j] == n.children[..j] && r.children[j] == m;
    assert r.items[j..] == n.items[j + 1..] && r.children[j + 1..] == n.children[j + 2..];
  }

  /** A pair stands in its parent like the node it could be merged into. */
  lemma WithPairFlat<V>(n: Node<V>, j: nat, p: Pair<V>)
    requires |n.children| == |n.items| + 1 && j < |n.items|
    ensures Flat(WithPair(n, j, p))
         == Lefts(n.items[..j], n.children[..j]) + PairFlat(p) + Rights(n.items[j + 1..], n.children[j + 2..])
  {
    match p
    case Merged(m) => WithMergedFlat(n, j, m);
    case Moved(l, e, r) =>
      var base := WithPair(n, j, Merged(l));
      assert base.items[..j] == n.items[..j] && base.children[..j] == n.children[..j];
      assert base.items[j..] == n.items[j + 1..] && base.children[j + 1..] == n.children[j + 2..];
      TwoChildrenFlat(base, j, l, e, r, PairFlat(p));
      assert WithPair(n, j, p) ==
        Node(InsertAt(base.items, j, e), base.children[..j] + [l, r] + base.children[j + 1..]);
  }

  /** A node whose child i may be one item short. */
  predicate ShortAt<V>(n: Node<V>, i: nat, height: nat) {
    && height > 0 && |n.children| == |n.items| + 1 && i <= |n.items| && n.items != []
    && Shape(n.children[i], height - 1) && (Sized(n.children[i]) || |n.children[i].items| == MIN_ITEMS - 1)
    && forall c :: 0 <= c < |n.children| && c != i ==> Shape(n.children[c], height - 1) && Sized(n.children[c])
  }

  /** The end of delete: a child that has become too small is evened out with the next one, or the one before. */
  function Refill<V>(n: Node<V>, i: nat, height: nat): Node<V>
    requires ShortAt(n, i, height)
  {
    if |n.children[i].items| >= MIN_ITEMS then n
    else
      var j := if i == |n.items| then i - 1 else i;
      EvenShape(n.children[j], n.items[j], n.children[j + 1], height - 1);
      WithPair(n, j, Even(n.children[j], n.items[j], n.children[j + 1]))
  }

  lemma {:induction false} RefillShape<V>(n: Node<V>, i: nat, height: nat)
    requires ShortAt(n, i, height)
    ensures Shape(Refill(n, i, height), height)
    ensures |n.items| - 1 <= |Refill(n, i, height).items| <= |n.items|
  {
    if |n.children[i].items| < MIN_ITEMS {
      var j := if i == |n.items| then i - 1 else i;
      assert SoundAround(n, j, height);
      EvenInShape(n, j, n.children[j], n.items[j], n.children[j + 1], height);
    } else {
      assert Shape(n, height);
    }
  }

  lemma {:induction false} EvenInShape<V>(n: Node<V>, j: nat, l: Node<V>, e: Entry<V>, r: Node<V>, height: nat)
    requires SoundAround(n, j, height) && Shape(l, height - 1) && Shape(r, height - 1)
    requires (Sized(l) && |r.items| == MIN_ITEMS - 1) || (|l.items| == MIN_ITEMS - 1 && Sized(r))
    ensures Alike(l, r) && Shape(WithPair(n, j, Even(l, e, r)), height)
    ensures |n.items| - 1 <= |WithPair(n, j, Even(l, e, r)).items| <= |n.items|
  {
    EvenShape(l, e, r, height - 1);
    WithPairShape(n, j, Even(l, e, r), height);
  }

  lemma {:induction false} RefillFlat<V>(n: Node<V>, i: nat, height: nat)
    requires ShortAt(n, i, height)
    ensures Flat(Refill(n, i, height)) == Flat(n)
  {
    hide Flat, WithPair, Even;
    if |n.children[i].items| < MIN_ITEMS {
      var j := if i == |n.items| then i - 1 else i;
      var l, e, r := n.children[j], n.items[j], n.children[j + 1];
      EvenShape(l, e, r, height - 1);
      EvenKeepsFlat(n, j, l, e, r);
    }
  }

  lemma {:induction false} EvenKeepsFlat<V>(n: Node<V>, j: nat, l: Node<V>, e: Entry<V>, r: Node<V>)
    requires |n.children| == |n.items| + 1 && j < |n.items|
    requires l == n.children[j] && e == n.items[j] && r == n.children[j + 1]
    requires l.items != [] && r.items != [] && Alike(l, r)
    ensures Flat(WithPair(n, j, Even(l, e, r))) == Flat(n)
  {
    EvenFlat(l, e, r);
    WithPairFlat(n, j, Even(l, e, r));
    WithPairFlat(n, j, Moved(l, e, r));
    assert WithPair(n, j, Moved(l, e, r)) == n;
  }

  /** delete(max = true): the node without its largest entry, and that entry. */
  function DeleteMax<V>(n: Node<V>, height: nat): (r: (Node<V>, Entry<V>))
    requires Shape(n, height) && n.items != []
    ensures Shape(r.0, height) && |n.items| - 1 <= |r.0.items| <= |n.items|
    decreases height
  {
    var m := |n.items|;
    if height == 0 then (n.(items := n.items[..m - 1]), n.items[m - 1])
    else
      var (child, e) := DeleteMax(n.children[m], height - 1);
      var n' := n.(children := n.children[m := child]);
      assert ShortAt(n', m, height);
      RefillShape(n', m, height);
      (Refill(n', m, height), e)
  }

  /** delete(max = false): the node without the key, and the entry that went. */
  function Delete<V>(n: Node<V>, key: Key, height: nat): (r: (Node<V>, Option<Entry<V>>))
    requires Shape(n, height) && n.items != []
    ensures Shape(r.0, height) && |n.items| - 1 <= |r.0.items| <= |n.items|
    ensures r.1.None? ==> r.0 == n
    decreases height
  {
    var (i, found) := Find(n.items, key);
    if height == 0 then
      if found then (n.(items := RemoveAt(n.items, i)), Some(n.items[i])) else (n, None)
    else if found then
      var (child, e) := DeleteMax(n.children[i], height - 1);
      var n' := Node(n.items[i := e], n.children[i := child]);
      assert ShortAt(n', i, height);
      RefillShape(n', i, height);
      (Refill(n', i, height), Some(n.items[i]))
    else
      var (child, prev) := Delete(n.children[i], key, height - 1);
      if prev.None? then (n, prev)
      else
        var n' := n.(children := n.children[i := child]);
        assert ShortAt(n', i, height);
        RefillShape(n', i, height);
        (Refill(n', i, height), prev)
  }

  /** The largest entry goes, and everything else stays. */
  lemma {:induction false} DeleteMaxFlat<V>(n: Node<V>, height: nat)
    requires Shape(n, height) && n.items != []
    ensures Flat(n) == Flat(DeleteMax(n, height).0) + [DeleteMax(n, height).1]
    decreases height
  {
    var m := |n.items|;
    if height == 0 {
      assert n.items == n.items[..m - 1] + [n.items[m - 1]];
    } else {
      var (child, e) := DeleteMax(n.children[m], height - 1);
      var n' := n.(children := n.children[m := child]);
      DeleteMaxFlat(n.children[m], height - 1);
      assert ShortAt(n', m, height);
      RefillFlat(n', m, height);
      LastChildFlat(n, child, e);
    }
  }

  lemma LastChildFlat<V>(n: Node<V>, child: Node<V>, e: Entry<V>)
    requires |n.children| == |n.items| + 1 && Flat(n.children[|n.items|]) == Flat(child) + [e]
    ensures Flat(n) == Flat(n.(children := n.children[|n.items| := child])) + [e]
  {
    var m := |n.items|;
    var n' := n.(children := n.children[m := child]);
    assert n'.children[..m] == n.children[..m];
    var a := Lefts(n.items, n.children[..m]);
    assert a + (Flat(child) + [e]) == (a + Flat(child)) + [e];
  }

  lemma {:induction false} RemovePlace<V>(items: seq<Entry<V>>, key: Key)
    requires Sorted(items)
    ensures var (i, found) := Find(items, key);
      && Remove(items, key) == (if found then RemoveAt(items, i) else items)
      && Get(items, key) == (if found then Some(items[i].value) else None)
  {
    var (i, found) := Find(items, key);
    FindPlace(items, key);
    if found {
      assert items == items[..i] + [items[i]] + items[i + 1..];
      PutFound(items[..i], items[i], items[i + 1..], items[i].value);
    } else if |items| > 0 {
      assert items == items[..i] + items[i..];
      PutBetween(items[..i], items[i..], key, items[0].value);
    }
  }

  /** An item of an inner node is replaced by the largest entry of the child before it. */
  lemma PredecessorFlat<V>(n: Node<V>, i: nat, child: Node<V>, e: Entry<V>)
    requires |n.children| == |n.items| + 1 && i < |n.items| && Sorted(Flat(n))
    requires Flat(n.children[i]) == Flat(child) + [e]
    ensures Flat(Node(n.items[i := e], n.children[i := child])) == Remove(Flat(n), n.items[i].key)
    ensures Get(Flat(n), n.items[i].key) == Some(n.items[i].value)
  {
    var a := Lefts(n.items[..i], n.children[..i]);
    var c := Flat(n.children[i + 1]) + Rights(n.items[i + 1..], n.children[i + 2..]);
    ItemFlat(n, i);
    var n' := Node(n.items[i := e], n.children[i := child]);
    ItemFlat(n', i);
    assert n'.items[..i] == n.items[..i] && n'.children[..i] == n.children[..i];
    assert n'.items[i + 1..] == n.items[i + 1..] && n'.children[i + 2..] == n.children[i + 2..];
    var b := a + Flat(n.children[i]);
    SortedAround(b, n.items[i], c);
    PutFound(b, n.items[i], c, n.items[i].value);
    assert b == a + Flat(child) + [e];
  }

  /** The entries of an inner node around item i. */
  lemma {:induction false} ItemFlat<V>(n: Node<V>, i: nat)
    requires |n.children| == |n.items| + 1 && i < |n.items|
    ensures Flat(n) == (Lefts(n.items[..i], n.children[..i]) + Flat(n.children[i])) + [n.items[i]]
                       + (Flat(n.children[i + 1]) + Rights(n.items[i + 1..], n.children[i + 2..]))
  {
    Focus(n, i);
    var rs, ds := n.items[i..], n.children[i + 1..];
    assert rs[1..] == n.items[i + 1..] && ds[1..] == n.children[i + 2..];
    var a, b, c, d := Lefts(n.items[..i], n.children[..i]), Flat(n.children[i]), [n.items[i]], Flat(n.children[i + 1]);
    var f := Rights(n.items[i + 1..], n.children[i + 2..]);
    assert Rights(rs, ds) == c + d + f;
    assert a + b + (c + d + f) == (a + b) + c + (d + f);
  }

  lemma ReplacedFlat<V>(n: Node<V>, height: nat, i: nat, child: Node<V>, e: Entry<V>)
    requires height > 0 && Shape(n, height) && Sorted(Flat(n)) && i < |n.items|
    requires Shape(child, height - 1) && (Sized(child) || |child.items| == MIN_ITEMS - 1)
    requires Flat(n.children[i]) == Flat(child) + [e]
    ensures ShortAt(Node(n.items[i := e], n.children[i := child]), i, height)
    ensures Flat(Refill(Node(n.items[i := e], n.children[i := child]), i, height)) == Remove(Flat(n), n.items[i].key)
    ensures Get(Flat(n), n.items[i].key) == Some(n.items[i].value)
  {
    PredecessorFlat(n, i, child, e);
    RefillFlat(Node(n.items[i := e], n.children[i := child]), i, height);
  }

  lemma {:induction false} DeleteFoundFlat<V>(n: Node<V>, key: Key, height: nat, i: nat)
    requires height > 0 && Shape(n, height) && n.items != [] && Sorted(Flat(n)) && Find(n.items, key) == (i, true)
    ensures Flat(Delete(n, key, height).0) == Remove(Flat(n), key)
    ensures Get(Flat(n), key) == Some(n.items[i].value)
  {
    hide Flat, Remove, Find, Refill;
    var (child, e) := DeleteMax(n.children[i], height - 1);
    DeleteMaxFlat(n.children[i], height - 1);
    ReplacedFlat(n, height, i, child, e);
  }

  lemma ShrunkFlat<V>(n: Node<V>, key: Key, height: nat, i: nat, child: Node<V>)
    requires height > 0 && Shape(n, height) && n.items != [] && Sorted(Flat(n)) && Find(n.items, key) == (i, false)
    requires Shape(child, height - 1) && (Sized(child) || |child.items| == MIN_ITEMS - 1)
    requires Flat(child) == Remove(Flat(n.children[i]), key)
    ensures ShortAt(n.(children := n.children[i := child]), i, height)
    ensures Flat(Refill(n.(children := n.children[i := child]), i, height)) == Remove(Flat(n), key)
  {
    hide Flat, Lefts, Rights, Remove, Refill, Find;
    RefillFlat(n.(children := n.children[i := child]), i, height);
    Between(n, key, i);
    var a, b, c := Lefts(n.items[..i], n.children[..i]), Flat(n.children[i]), Rights(n.items[i..], n.children[i + 1..]);
    RemoveMiddle(a, b, c, key);
    OneChildFlat(n, i, child);
  }

  lemma NotShort<V>(n: Node<V>, i: nat, height: nat)
    requires ShortAt(n, i, height) && Sized(n.children[i])
    ensures Refill(n, i, height) == n
  {
  }

  /** delete in an inner node, given what it does in the child. */
  lemma DeleteBelowFlat<V>(n: Node<V>, key: Key, height: nat, i: nat, child: Node<V>)
    requires height > 0 && Shape(n, height) && n.items != [] && Sorted(Flat(n)) && Find(n.items, key) == (i, false)
    requires n.children[i] == child && Shape(child, height - 1) && Sized(child)
    requires Flat(Delete(child, key, height - 1).0) == Remove(Flat(child), key)
    ensures Flat(Delete(n, key, height).0) == Remove(Flat(n), key)
  {
    hide Flat, Remove, Find, Refill, ShortAt;
    var (c, prev) := Delete(child, key, height - 1);
    ShrunkFlat(n, key, height, i, c);
    if prev.None? {
      assert n.(children := n.children[i := c]) == n;
      NotShort(n, i, height);
    }
  }

  /** delete acts as removal from the ordered entries. */
  lemma {:induction false} DeleteFlat<V>(n: Node<V>, key: Key, height: nat)
    requires Shape(n, height) && n.items != [] && Sorted(Flat(n))
    ensures Flat(Delete(n, key, height).0) == Remove(Flat(n), key)
    decreases height
  {
    var (i, found) := Find(n.items, key);
    if height == 0 {
      RemovePlace(n.items, key);
    } else if found {
      DeleteFoundFlat(n, key, height, i);
    } else {
      ChildSorted(n, i);
      DeleteFlat(n.children[i], key, height - 1);
      DeleteBelowFlat(n, key, height, i, n.children[i]);
    }
  }

  /** delete returns the entry that went, if any. */
  lemma {:induction false} DeletePrev<V>(n: Node<V>, key: Key, height: nat)
    requires Shape(n, height) && n.items != [] && Sorted(Flat(n))
    ensures Delete(n, key, height).1 == (match Get(Flat(n), key) case Some(v) => Some(Entry(key, v)) case None => None)
    decreases height
  {
    var (i, found) := Find(n.items, key);
    if height == 0 {
      RemovePlace(n.items, key);
    } else if found {
      DeleteFoundFlat(n, key, height, i);
    } else {
      ChildSorted(n, i);
      DeletePrev(n.children[i], key, height - 1);
      GetChild(n, key, i);
    }
  }
}
