/** Insertion into the B-tree: set and split (internal/btree/btree.go). */
module BTreeSet {
  import opened Bytes
  import opened SortedSeq
  import opened BTreeNode

  const HALF: nat := MAX_ITEMS / 2

  /** A full node becomes two nodes of 15 items around its median. */
  function Split<V>(n: Node<V>): (Node<V>, Entry<V>, Node<V>)
    requires |n.items| == MAX_ITEMS && (n.children == [] || |n.children| == |n.items| + 1)
  {
    (Slice(n, 0, HALF), n.items[HALF], Slice(n, HALF + 1, MAX_ITEMS))
  }

  function InsertAt<T>(s: seq<T>, i: nat, x: T): seq<T>
    requires i <= |s|
  {
    s[..i] + [x] + s[i..]
  }

  /** What a parent does with a child it has just changed: take it back, split if it is full. */
  function Adopt<V>(n: Node<V>, i: nat, child: Node<V>): Node<V>
    requires |n.children| == |n.items| + 1 && i <= |n.items|
    requires child.children == [] || |child.children| == |child.items| + 1
  {
    if |child.items| == MAX_ITEMS then
      var (left, median, right) := Split(child);
      Node(InsertAt(n.items, i, median), n.children[..i] + [left, right] + n.children[i + 1..])
    else n.(children := n.children[i := child])
  }

  /** The node after the call, and the value it replaced. */
  function Set<V>(n: Node<V>, key: Key, value: V, height: nat): (r: (Node<V>, Option<V>))
    requires Shape(n, height)
    ensures Shape(r.0, height) && |n.items| <= |r.0.items| <= |n.items| + 1
    ensures r.1.Some? ==> |r.0.items| == |n.items|
    decreases height
  {
    var (i, found) := Find(n.items, key);
    if found then (n.(items := n.items[i := Entry(key, value)]), Some(n.items[i].value))
    else if height == 0 then (n.(items := InsertAt(n.items, i, Entry(key, value))), None)
    else
      var (child, prev) := Set(n.children[i], key, value, height - 1);
      if prev.Some? then (n.(children := n.children[i := child]), prev)
      else
        AdoptShape(n, i, child, height);
        (Adopt(n, i, child), prev)
  }

  lemma AdoptShape<V>(n: Node<V>, i: nat, child: Node<V>, height: nat)
    requires height > 0 && Shape(n, height) && i <= |n.items|
    requires Shape(child, height - 1) && MIN_ITEMS <= |child.items| <= MAX_ITEMS
    ensures child.children == [] || |child.children| == |child.items| + 1
    ensures Shape(Adopt(n, i, child), height)
    ensures |Adopt(n, i, child).items| == |n.items| + (if |child.items| == MAX_ITEMS then 1 else 0)
  {
    hide Slice;
    if |child.items| == MAX_ITEMS {
      SliceShape(child, 0, HALF, height - 1);
      SliceShape(child, HALF + 1, MAX_ITEMS, height - 1);
      var (left, median, right) := Split(child);
      TwoChildrenShape(n, i, left, median, right, height);
    }
  }

  lemma TwoChildrenShape<V>(n: Node<V>, i: nat, left: Node<V>, median: Entry<V>, right: Node<V>, height: nat)
    requires height > 0 && Shape(n, height) && i <= |n.items|
    requires Shape(left, height - 1) && Sized(left) && Shape(right, height - 1) && Sized(right)
    ensures Shape(Node(InsertAt(n.items, i, median), n.children[..i] + [left, right] + n.children[i + 1..]), height)
  {
    hide Sized;
    var r := Node(InsertAt(n.items, i, median), n.children[..i] + [left, right] + n.children[i + 1..]);
    forall j | 0 <= j < |r.children| ensures Shape(r.children[j], height - 1) && Sized(r.children[j]) {
      if j > i + 1 { assert r.children[j] == n.children[j - 1]; }
    }
  }

  lemma {:induction false} SliceShape<V>(n: Node<V>, lo: nat, hi: nat, height: nat)
    requires Shape(n, height) && lo <= hi <= |n.items|
    ensures n.children == [] || |n.children| == |n.items| + 1
    ensures Shape(Slice(n, lo, hi), height) && |Slice(n, lo, hi).items| == hi - lo
  {
  }

  lemma TwoChildrenFlat<V>(n: Node<V>, i: nat, left: Node<V>, median: Entry<V>, right: Node<V>, mid: seq<Entry<V>>)
    requires |n.children| == |n.items| + 1 && i <= |n.items| && mid == Flat(left) + [median] + Flat(right)
    ensures Flat(Node(InsertAt(n.items, i, median), n.children[..i] + [left, right] + n.children[i + 1..]))
         == Lefts(n.items[..i], n.children[..i]) + mid + Rights(n.items[i..], n.children[i + 1..])
  {
    hide Flat, Lefts, Rights;
    var r := Node(InsertAt(n.items, i, median), n.children[..i] + [left, right] + n.children[i + 1..]);
    Focus(r, i);
    RightsStep(r.items, r.children, i);
    assert r.items[..i] == n.items[..i] && r.items[i] == median && r.items[i + 1..] == n.items[i..];
    assert r.children[..i] == n.children[..i] && r.children[i] == left;
    assert r.children[i + 1] == right && r.children[i + 2..] == n.children[i + 1..];
    var a, b := Lefts(n.items[..i], n.children[..i]), Rights(n.items[i..], n.children[i + 1..]);
    assert a + Flat(left) + ([median] + Flat(right) + b) == a + mid + b;
  }

  lemma OneChildFlat<V>(n: Node<V>, i: nat, child: Node<V>)
    requires |n.children| == |n.items| + 1 && i <= |n.items|
    ensures Flat(n.(children := n.children[i := child]))
         == Lefts(n.items[..i], n.children[..i]) + Flat(child) + Rights(n.items[i..], n.children[i + 1..])
  {
    hide Flat, Lefts, Rights;
    var r := n.(children := n.children[i := child]);
    Focus(r, i);
    assert r.children[..i] == n.children[..i] && r.children[i + 1..] == n.children[i + 1..];
  }

  /** Giving a parent a changed child changes the parent's entries in that place only, split or not. */
  lemma {:induction false} AdoptFlat<V>(n: Node<V>, i: nat, child: Node<V>)
    requires |n.children| == |n.items| + 1 && i <= |n.items|
    requires child.children == [] || |child.children| == |child.items| + 1
    ensures Flat(Adopt(n, i, child))
         == Lefts(n.items[..i], n.children[..i]) + Flat(child) + Rights(n.items[i..], n.children[i + 1..])
  {
    if |child.items| == MAX_ITEMS {
      var (left, median, right) := Split(child);
      Cut(child, HALF);
      TwoChildrenFlat(n, i, left, median, right, Flat(child));
    } else {
      OneChildFlat(n, i, child);
    }
  }

  lemma ItemIsEntry<V>(n: Node<V>, i: nat) returns (k: nat)
    requires i < |n.items| && (n.children == [] || |n.children| == |n.items| + 1)
    ensures k < |Flat(n)| && Flat(n)[k] == n.items[i]
  {
    Cut(n, i);
    k := |Flat(Slice(n, 0, i))|;
  }

  lemma {:induction false} ItemsOrdered<V>(n: Node<V>, i: nat, j: nat)
    requires Sorted(Flat(n)) && (n.children == [] || |n.children| == |n.items| + 1) && i < j < |n.items|
    ensures Less(n.items[i].key, n.items[j].key)
  {
    hide Flat, Lefts, Rights;
    Cut(n, j);
    var l := Slice(n, 0, j);
    var rest := [n.items[j]] + Flat(Slice(n, j + 1, |n.items|));
    assert Flat(n) == Flat(l) + rest && rest[0] == n.items[j];
    SortedParts(Flat(l), rest);
    var k := ItemIsEntry(l, i);
    assert l.items[i] == n.items[i];
  }

  /** The items of a node are in order. */
  lemma {:induction false} ItemsSorted<V>(n: Node<V>)
    requires Sorted(Flat(n)) && (n.children == [] || |n.children| == |n.items| + 1)
    ensures Sorted(n.items)
  {
    forall i, j | 0 <= i < j < |n.items| ensures Less(n.items[i].key, n.items[j].key) {
      ItemsOrdered(n, i, j);
    }
  }

  lemma {:induction false} LeftsEnd<V>(items: seq<Entry<V>>, children: seq<Node<V>>)
    requires |items| == |children| && items != []
    ensures Lefts(items, children) != [] && Lefts(items, children)[|Lefts(items, children)| - 1] == items[|items| - 1]
  {
  }

  /** A key that find places at i is above everything left of child i and below everything right of it. */
  lemma {:induction false} Between<V>(n: Node<V>, key: Key, i: nat)
    requires |n.children| == |n.items| + 1 && Sorted(Flat(n)) && Find(n.items, key) == (i, false)
    ensures Flat(n)
         == Lefts(n.items[..i], n.children[..i]) + Flat(n.children[i]) + Rights(n.items[i..], n.children[i + 1..])
    ensures Below(Lefts(n.items[..i], n.children[..i]), key) && Sorted(Flat(n.children[i]))
    ensures Above(key, Rights(n.items[i..], n.children[i + 1..]))
  {
    hide Flat, Find;
    ItemsSorted(n);
    FindPlace(n.items, key);
    Focus(n, i);
    var a, b, c := Lefts(n.items[..i], n.children[..i]), Flat(n.children[i]), Rights(n.items[i..], n.children[i + 1..]);
    SortedParts(a + b, c);
    SortedParts(a, b);
    if i > 0 {
      LeftsEnd(n.items[..i], n.children[..i]);
      BelowLast(a, key);
    }
    if i < |n.items| {
      AboveFirst(key, c);
    }
  }

  /** Replacing the value of an item that is there, in any node. */
  lemma SetFoundFlat<V>(n: Node<V>, key: Key, value: V, i: nat)
    requires Sorted(Flat(n)) && (n.children == [] || |n.children| == |n.items| + 1)
    requires i < |n.items| && n.items[i].key == key
    ensures Flat(n.(items := n.items[i := Entry(key, value)])) == Put(Flat(n), key, value)
    ensures Get(Flat(n), key) == Some(n.items[i].value)
  {
    var e := Entry(key, value);
    ReplaceItemFlat(n, i, e);
    Cut(n, i);
    var a, b := Flat(Slice(n, 0, i)), Flat(Slice(n, i + 1, |n.items|));
    SortedAround(a, n.items[i], b);
    PutFound(a, n.items[i], b, value);
  }

  lemma ReplaceItemFlat<V>(n: Node<V>, i: nat, e: Entry<V>)
    requires i < |n.items| && (n.children == [] || |n.children| == |n.items| + 1)
    ensures Flat(n.(items := n.items[i := e])) == Flat(Slice(n, 0, i)) + [e] + Flat(Slice(n, i + 1, |n.items|))
  {
    var r := n.(items := n.items[i := e]);
    Cut(r, i);
    assert Slice(r, 0, i) == Slice(n, 0, i) && Slice(r, i + 1, |n.items|) == Slice(n, i + 1, |n.items|);
  }

  lemma {:induction false} PutPlace<V>(items: seq<Entry<V>>, key: Key, value: V, i: nat)
    requires Sorted(items) && Find(items, key) == (i, false)
    ensures Put(items, key, value) == InsertAt(items, i, Entry(key, value))
    ensures Get(items, key) == None
  {
    FindPlace(items, key);
    PutBetween(items[..i], items[i..], key, value);
    assert items == items[..i] + items[i..];
  }

  lemma SetChildFlat<V>(n: Node<V>, key: Key, value: V, height: nat, i: nat, child: Node<V>)
    requires height > 0 && Shape(n, height) && Sorted(Flat(n)) && Find(n.items, key) == (i, false)
    requires Shape(child, height - 1) && MIN_ITEMS <= |child.items| <= MAX_ITEMS
    requires Flat(child) == Put(Flat(n.children[i]), key, value)
    ensures child.children == [] || |child.children| == |child.items| + 1
    ensures Flat(Adopt(n, i, child)) == Put(Flat(n), key, value)
    ensures Flat(n.(children := n.children[i := child])) == Put(Flat(n), key, value)
    ensures Get(Flat(n), key) == Get(Flat(n.children[i]), key)
  {
    hide Flat, Put, Get, Adopt, Lefts, Rights, Find;
    Between(n, key, i);
    var a, b, c := Lefts(n.items[..i], n.children[..i]), Flat(n.children[i]), Rights(n.items[i..], n.children[i + 1..]);
    UpdateMiddle(a, b, c, key, value);
    OneChildFlat(n, i, child);
    AdoptShape(n, i, child, height);
    AdoptFlat(n, i, child);
  }

  lemma {:induction false} LeafInsertFlat<V>(n: Node<V>, key: Key, value: V, i: nat)
    requires n.children == [] && Sorted(Flat(n)) && Find(n.items, key) == (i, false)
    ensures Flat(n.(items := InsertAt(n.items, i, Entry(key, value)))) == Put(Flat(n), key, value)
    ensures Get(Flat(n), key) == None
  {
    PutPlace(n.items, key, value, i);
  }

  /** set in an inner node, given what it does in the child. */
  lemma SetInnerFlat<V>(n: Node<V>, key: Key, value: V, height: nat, i: nat, child: Node<V>)
    requires height > 0 && Shape(n, height) && Sorted(Flat(n)) && Find(n.items, key) == (i, false)
    requires n.children[i] == child && Shape(child, height - 1) && Sized(child)
    requires Flat(Set(child, key, value, height - 1).0) == Put(Flat(child), key, value)
    ensures Flat(Set(n, key, value, height).0) == Put(Flat(n), key, value)
  {
    hide Flat, Put, Adopt, Find;
    var (c, prev) := Set(child, key, value, height - 1);
    SetChildFlat(n, key, value, height, i, c);
    assert Set(n, key, value, height)
        == (if prev.Some? then n.(children := n.children[i := c]) else Adopt(n, i, c), prev);
  }

  lemma {:induction false} ChildSorted<V>(n: Node<V>, i: nat)
    requires |n.children| == |n.items| + 1 && Sorted(Flat(n)) && i <= |n.items|
    ensures Sorted(Flat(n.children[i]))
  {
    Focus(n, i);
    var a, b, c := Lefts(n.items[..i], n.children[..i]), Flat(n.children[i]), Rights(n.items[i..], n.children[i + 1..]);
    SortedParts(a + b, c);
    SortedParts(a, b);
  }

  /** set where it does not descend. */
  lemma {:induction false} SetHereFlat<V>(n: Node<V>, key: Key, value: V, height: nat)
    requires Shape(n, height) && Sorted(Flat(n)) && (height == 0 || Find(n.items, key).1)
    ensures Flat(Set(n, key, value, height).0) == Put(Flat(n), key, value)
    ensures Set(n, key, value, height).1 == Get(Flat(n), key)
  {
    var (i, found) := Find(n.items, key);
    if found {
      SetFoundFlat(n, key, value, i);
    } else {
      LeafInsertFlat(n, key, value, i);
    }
  }

  /** set acts as an update of the ordered entries. */
  lemma {:induction false} SetFlat<V>(n: Node<V>, key: Key, value: V, height: nat)
    requires Shape(n, height) && Sorted(Flat(n))
    ensures Flat(Set(n, key, value, height).0) == Put(Flat(n), key, value)
    decreases height
  {
    var (i, found) := Find(n.items, key);
    if height == 0 || found {
      SetHereFlat(n, key, value, height);
    } else {
      ChildSorted(n, i);
      SetFlat(n.children[i], key, value, height - 1);
      SetInnerFlat(n, key, value, height, i, n.children[i]);
    }
  }

  /** set returns the value it replaced. */
  lemma {:induction false} SetPrev<V>(n: Node<V>, key: Key, value: V, height: nat)
    requires Shape(n, height) && Sorted(Flat(n))
    ensures Set(n, key, value, height).1 == Get(Flat(n), key)
    decreases height
  {
    var (i, found) := Find(n.items, key);
    if height == 0 || found {
      SetHereFlat(n, key, value, height);
    } else {
      ChildSorted(n, i);
      SetPrev(n.children[i], key, value, height - 1);
      GetChild(n, key, i);
    }
  }

  lemma {:induction false} GetChild<V>(n: Node<V>, key: Key, i: nat)
    requires |n.children| == |n.items| + 1 && Sorted(Flat(n)) && Find(n.items, key) == (i, false)
    ensures Get(Flat(n), key) == Get(Flat(n.children[i]), key)
  {
    Between(n, key, i);
    var a, b, c := Lefts(n.items[..i], n.children[..i]), Flat(n.children[i]), Rights(n.items[i..], n.children[i + 1..]);
    GetMiddle(a, b, c, key);
  }

}
