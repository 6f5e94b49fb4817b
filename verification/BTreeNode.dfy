/**
 * Nodes of the in-memory B-tree (internal/btree/btree.go) as values: the used part of the item and child arrays.
 * A node holds at most 30 items between operations and splits when it reaches 31.
 */
module BTreeNode {
  import opened Bytes
  import opened SortedSeq

  const MAX_ITEMS: nat := 31
  const MIN_ITEMS: nat := MAX_ITEMS * 40 / 100

  datatype Node<V> = Node(items: seq<Entry<V>>, children: seq<Node<V>>)

  /** Everything below a node, from left to right. */
  function Flat<V>(n: Node<V>): seq<Entry<V>>
    decreases n, 0
  {
    if |n.children| != |n.items| + 1 then n.items
    else Lefts(n.items, n.children[..|n.items|]) + Flat(n.children[|n.items|])
  }

  /** child item child item ... */
  function Lefts<V>(items: seq<Entry<V>>, children: seq<Node<V>>): seq<Entry<V>>
    requires |items| == |children|
    decreases children, 1
  {
    if items == [] then []
    else Lefts(items[..|items| - 1], children[..|items| - 1]) + Flat(children[|items| - 1]) + [items[|items| - 1]]
  }

  /** item child item child ... */
  function Rights<V>(items: seq<Entry<V>>, children: seq<Node<V>>): seq<Entry<V>>
    requires |items| == |children|
    decreases children, 1
  {
    if items == [] then [] else [items[0]] + Flat(children[0]) + Rights(items[1..], children[1..])
  }

  /** A node between the root and its parent's limits. */
  predicate Sized<V>(n: Node<V>) {
    MIN_ITEMS <= |n.items| < MAX_ITEMS
  }

  /** All leaves are height levels down and every node but this one holds 12 to 30 items. */
  predicate Shape<V>(n: Node<V>, height: nat) {
    if height == 0 then n.children == []
    else
      && |n.children| == |n.items| + 1
      && forall i :: 0 <= i < |n.children| ==> Shape(n.children[i], height - 1) && Sized(n.children[i])
  }

  lemma LeftsStep<V>(items: seq<Entry<V>>, children: seq<Node<V>>, i: nat)
    requires i < |items| && i < |children|
    ensures Lefts(items[..i + 1], children[..i + 1])
         == Lefts(items[..i], children[..i]) + Flat(children[i]) + [items[i]]
  {
    var ls, cs := items[..i + 1], children[..i + 1];
    assert ls[..i] == items[..i] && cs[..i] == children[..i];
  }

  lemma RightsStep<V>(items: seq<Entry<V>>, children: seq<Node<V>>, i: nat)
    requires i < |items| && |children| == |items| + 1
    ensures Rights(items[i..], children[i + 1..])
         == [items[i]] + Flat(children[i + 1]) + Rights(items[i + 1..], children[i + 2..])
  {
    var rs, ds := items[i..], children[i + 1..];
    assert rs[1..] == items[i + 1..] && ds[1..] == children[i + 2..];
  }

  lemma {:induction false} FocusLast<V>(n: Node<V>, i: nat)
    requires |n.children| == |n.items| + 1 && i == |n.items|
    ensures Flat(n)
         == Lefts(n.items[..i], n.children[..i]) + Flat(n.children[i]) + Rights(n.items[i..], n.children[i + 1..])
  {
    assert n.items[..i] == n.items && n.items[i..] == [] && n.children[i + 1..] == [];
  }

  /** The subtree left of child i, child i, and the subtree right of it. */
  lemma {:induction false} Focus<V>(n: Node<V>, i: nat)
    requires |n.children| == |n.items| + 1 && i <= |n.items|
    ensures Flat(n)
         == Lefts(n.items[..i], n.children[..i]) + Flat(n.children[i]) + Rights(n.items[i..], n.children[i + 1..])
    decreases |n.items| - i
  {
    hide Flat, Lefts, Rights;
    if i == |n.items| {
      FocusLast(n, i);
    } else {
      Focus(n, i + 1);
      LeftsStep(n.items, n.children, i);
      RightsStep(n.items, n.children, i);
      var a, b := Lefts(n.items[..i], n.children[..i]), Flat(n.children[i]);
      var c, d := [n.items[i]], Flat(n.children[i + 1]);
      var e := Rights(n.items[i + 1..], n.children[i + 2..]);
      assert (a + b + c) + d + e == a + b + (c + d + e);
    }
  }

  /** The items lo..hi of a node with the children around them. */
  function Slice<V>(n: Node<V>, lo: nat, hi: nat): Node<V>
    requires lo <= hi <= |n.items| && (n.children == [] || |n.children| == |n.items| + 1)
  {
    Node(n.items[lo..hi], if n.children == [] then [] else n.children[lo..hi + 1])
  }

  lemma CutLeft<V>(n: Node<V>, i: nat)
    requires i < |n.items| && |n.children| == |n.items| + 1
    ensures Flat(Slice(n, 0, i)) == Lefts(n.items[..i], n.children[..i]) + Flat(n.children[i])
  {
    var l := Slice(n, 0, i);
    assert l.children[..i] == n.children[..i] && l.items == n.items[..i] && l.children[i] == n.children[i];
  }

  lemma {:induction false} FirstFlat<V>(n: Node<V>)
    requires |n.children| == |n.items| + 1
    ensures Flat(n) == Flat(n.children[0]) + Rights(n.items, n.children[1..])
  {
    hide Flat, Rights;
    Focus(n, 0);
    assert n.items[..0] == [] && n.children[..0] == [] && n.items[0..] == n.items;
  }

  lemma CutRight<V>(n: Node<V>, i: nat)
    requires i < |n.items| && |n.children| == |n.items| + 1
    ensures Rights(n.items[i..], n.children[i + 1..]) == [n.items[i]] + Flat(Slice(n, i + 1, |n.items|))
  {
    hide Flat, Lefts, Rights;
    var r := Slice(n, i + 1, |n.items|);
    FirstFlat(r);
    RightsStep(n.items, n.children, i);
    assert r.items == n.items[i + 1..] && r.children[0] == n.children[i + 1] && r.children[1..] == n.children[i + 2..];
  }

  lemma {:induction false} LeafFlat<V>(n: Node<V>)
    requires n.children == []
    ensures Flat(n) == n.items
  {
  }

  lemma CutLeaf<V>(n: Node<V>, i: nat)
    requires i < |n.items| && n.children == []
    ensures Flat(n) == Flat(Slice(n, 0, i)) + [n.items[i]] + Flat(Slice(n, i + 1, |n.items|))
  {
    assert n.items == n.items[0..i] + [n.items[i]] + n.items[i + 1..|n.items|];
  }

  /** A node is cut in two at any of its items. */
  lemma Cut<V>(n: Node<V>, i: nat)
    requires i < |n.items| && (n.children == [] || |n.children| == |n.items| + 1)
    ensures Flat(n) == Flat(Slice(n, 0, i)) + [n.items[i]] + Flat(Slice(n, i + 1, |n.items|))
  {
    hide Flat, Lefts, Rights, Slice;
    if n.children == [] {
      CutLeaf(n, i);
    } else {
      Focus(n, i);
      CutLeft(n, i);
      CutRight(n, i);
      var a, b := Lefts(n.items[..i], n.children[..i]), Flat(n.children[i]);
      var c := Flat(Slice(n, i + 1, |n.items|));
      assert a + b + ([n.items[i]] + c) == (a + b) + [n.items[i]] + c;
    }
  }

  /** Node.find by its meaning: the place of the key among the items and whether it is there. */
  function Find<V>(items: seq<Entry<V>>, key: Key): (r: (nat, bool))
    ensures r.0 <= |items| && (r.1 ==> r.0 < |items| && items[r.0].key == key)
  {
    if items == [] || Less(key, items[0].key) then (0, false)
    else if key == items[0].key then (0, true)
    else
      var (i, found) := Find(items[1..], key);
      (i + 1, found)
  }

  lemma {:induction false} FindPlace<V>(items: seq<Entry<V>>, key: Key)
    requires Sorted(items)
    ensures var (i, found) := Find(items, key);
      && Below(items[..i], key)
      && (if found then Above(key, items[i + 1..]) else Above(key, items[i..]))
  {
    if items == [] {
    } else if Less(key, items[0].key) {
      AboveFirst(key, items);
    } else if key == items[0].key {
    } else {
      LessTotal(key, items[0].key);
      FindPlace(items[1..], key);
      var (i, found) := Find(items[1..], key);
      assert items[..i + 1] == [items[0]] + items[1..][..i];
    }
  }

  /** The binary search of find. */
  method BinaryFind<V>(items: seq<Entry<V>>, key: Key) returns (index: nat, found: bool)
    requires Sorted(items)
    ensures (index, found) == Find(items, key)
  {
    var i, j := 0, |items|;
    while i < j
      invariant 0 <= i <= j <= |items|
      invariant forall k :: 0 <= k < i ==> Leq(items[k].key, key)
      invariant forall k :: j <= k < |items| ==> Less(key, items[k].key)
    {
      var h := i + (j - i) / 2;
      LessTotal(key, items[h].key);
      if Leq(items[h].key, key) {
        forall k | 0 <= k < h ensures Leq(items[k].key, key) {
          if items[h].key != key { LessTransitive(items[k].key, items[h].key, key); }
        }
        i := h + 1;
      } else {
        forall k | h <= k < |items| ensures Less(key, items[k].key) {
          if k > h { LessTransitive(key, items[h].key, items[k].key); }
        }
        j := h;
      }
    }
    if i > 0 && Leq(key, items[i - 1].key) {
      index, found := i - 1, true;
    } else {
      index, found := i, false;
    }
    BinaryFindEnds(items, key, i);
  }

  lemma {:induction false} BinaryFindEnds<V>(items: seq<Entry<V>>, key: Key, i: nat)
    requires Sorted(items) && i <= |items|
    requires forall k :: 0 <= k < i ==> Leq(items[k].key, key)
    requires forall k :: i <= k < |items| ==> Less(key, items[k].key)
    ensures Find(items, key) == if i > 0 && Leq(key, items[i - 1].key) then (i - 1, true) else (i, false)
  {
    if i > 0 && Leq(key, items[i - 1].key) {
      if Less(key, items[i - 1].key) { LessAsymmetric(key, items[i - 1].key); }
      FindUnique(items, key, i - 1, true);
    } else {
      if i > 0 { BelowLast(items[..i], key); }
      FindUnique(items, key, i, false);
    }
  }

  lemma {:induction false} FindUnique<V>(items: seq<Entry<V>>, key: Key, index: nat, found: bool)
    requires Sorted(items) && index <= |items|
    requires forall k :: 0 <= k < index ==> Less(items[k].key, key)
    requires if found then index < |items| && items[index].key == key else Above(key, items[index..])
    ensures Find(items, key) == (index, found)
    decreases |items|
  {
    if items != [] {
      LessIrreflexive(key);
      if index == 0 {
        if !found { assert Less(key, items[index..][0].key); }
      } else {
        LessAsymmetric(items[0].key, key);
        assert !found ==> items[1..][index - 1..] == items[index..];
        FindUnique(items[1..], key, index - 1, found);
      }
    }
  }
}
