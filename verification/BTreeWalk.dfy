/** The parts of a B-tree node that its traversals (internal/btree/btree.go) pass through. */
module BTreeWalk {
  import opened Bytes
  import opened SortedSeq
  import opened Traversal
  import opened BTreeNode
  import opened BTreeSet

  function Reversed<E>(s: seq<E>): (r: seq<E>)
    ensures |r| == |s| && forall i :: 0 <= i < |s| ==> r[i] == s[|s| - 1 - i]
  {
    if s == [] then [] else [s[|s| - 1]] + Reversed(s[..|s| - 1])
  }

  lemma {:induction false} ReversedConcat<E>(a: seq<E>, b: seq<E>)
    ensures Reversed(a + b) == Reversed(b) + Reversed(a)
  {
  }

  lemma {:induction false} FeedCons<S, E>(s: S, e: E, rest: seq<E>, cb: Callback<S, E>)
    ensures Feed(s, [e] + rest, cb) == (var (s', more) := cb(s, e); if more then Feed(s', rest, cb) else (s', false))
  {
    assert ([e] + rest)[1..] == rest;
  }

  /** The entries of a node from item i on, without the child before it. */
  function Tail<V>(n: Node<V>, i: nat): seq<Entry<V>>
    requires i <= |n.items|
  {
    if |n.children| == |n.items| + 1 then Rights(n.items[i..], n.children[i + 1..]) else n.items[i..]
  }

  /** The entries of a node up to item i, without that item and the child before it. */
  function Head<V>(n: Node<V>, i: nat): seq<Entry<V>>
    requires i <= |n.items|
  {
    if |n.children| == |n.items| + 1 then Lefts(n.items[..i], n.children[..i]) else n.items[..i]
  }

  /** The entries of child i, if there are children. */
  function Middle<V>(n: Node<V>, i: nat): seq<Entry<V>>
    requires i <= |n.items|
  {
    if |n.children| == |n.items| + 1 then Flat(n.children[i]) else []
  }

  lemma {:induction false} Parts<V>(n: Node<V>, i: nat)
    requires i <= |n.items|
    ensures Flat(n) == Head(n, i) + Middle(n, i) + Tail(n, i)
  {
    if |n.children| == |n.items| + 1 {
      Focus(n, i);
    } else {
      assert n.items == n.items[..i] + [] + n.items[i..];
    }
  }

  lemma {:induction false} Ends<V>(n: Node<V>)
    ensures Head(n, 0) == [] && Tail(n, |n.items|) == []
  {
  }

  lemma TailStep<V>(n: Node<V>, i: nat)
    requires i < |n.items|
    ensures Tail(n, i) == [n.items[i]] + (Middle(n, i + 1) + Tail(n, i + 1))
  {
    if |n.children| == |n.items| + 1 {
      var rs, ds := n.items[i..], n.children[i + 1..];
      assert rs[1..] == n.items[i + 1..] && ds[1..] == n.children[i + 2..];
    }
  }

  lemma HeadStep<V>(n: Node<V>, i: nat)
    requires i < |n.items|
    ensures Head(n, i + 1) == Head(n, i) + Middle(n, i) + [n.items[i]]
    ensures Reversed(Head(n, i + 1)) == [n.items[i]] + (Reversed(Middle(n, i)) + Reversed(Head(n, i)))
  {
    if |n.children| == |n.items| + 1 {
      var ls, cs := n.items[..i + 1], n.children[..i + 1];
      assert ls[..i] == n.items[..i] && cs[..i] == n.children[..i];
    } else {
      assert n.items[..i + 1] == n.items[..i] + [n.items[i]];
    }
    ReversedConcat(Head(n, i), Middle(n, i));
    ReversedConcat(Head(n, i) + Middle(n, i), [n.items[i]]);
  }

  lemma {:induction false} ReversedParts<V>(n: Node<V>, i: nat)
    requires i <= |n.items|
    ensures Reversed(Flat(n)) == Reversed(Tail(n, i)) + Reversed(Middle(n, i)) + Reversed(Head(n, i))
  {
    Parts(n, i);
    ReversedConcat(Head(n, i), Middle(n, i));
    ReversedConcat(Head(n, i) + Middle(n, i), Tail(n, i));
  }

  lemma {:induction false} BoundsOf<V>(a: seq<Entry<V>>, b: seq<Entry<V>>, c: seq<Entry<V>>, key: Key)
    requires Below(a, key) && Above(key, c)
    ensures AtLeast(a + b + c, key) == AtLeast(b, key) + c
    ensures AtMost(a + b + c, key) == a + AtMost(b, key)
  {
    AtLeastConcat(a + b, c, key);
    AtLeastConcat(a, b, key);
    AtMostConcat(a + b, c, key);
    AtMostConcat(a, b, key);
    BoundsBelow(a, key);
    BoundsAbove(c, key);
    assert [] + AtLeast(b, key) == AtLeast(b, key);
    assert a + AtMost(b, key) + [] == a + AtMost(b, key);
  }

  lemma {:induction false} BoundsAt<V>(a: seq<Entry<V>>, e: Entry<V>, c: seq<Entry<V>>)
    requires Sorted(a + [e] + c)
    ensures AtLeast(a + [e] + c, e.key) == [e] + c
    ensures AtMost(a + [e] + c, e.key) == a + [e]
  {
    SortedAround(a, e, c);
    BoundsOf(a, [e], c, e.key);
    assert [e][1..] == [];
  }

  /** Around item i, which has the key. */
  lemma {:induction false} FoundParts<V>(n: Node<V>, i: nat)
    requires i < |n.items| && Sorted(Flat(n))
    ensures AtLeast(Flat(n), n.items[i].key) == Tail(n, i)
    ensures AtMost(Flat(n), n.items[i].key) == Head(n, i + 1)
  {
    Parts(n, i);
    TailStep(n, i);
    HeadStep(n, i);
    FoundBounds(Flat(n), Head(n, i), Middle(n, i), n.items[i], Middle(n, i + 1) + Tail(n, i + 1));
  }

  lemma {:induction false} FoundBounds<V>(
      all: seq<Entry<V>>, a: seq<Entry<V>>, b: seq<Entry<V>>, e: Entry<V>, c: seq<Entry<V>>)
    requires Sorted(all) && all == a + b + ([e] + c)
    ensures AtLeast(all, e.key) == [e] + c
    ensures AtMost(all, e.key) == a + b + [e]
  {
    assert all == (a + b) + [e] + c;
    BoundsAt(a + b, e, c);
  }

  /** Around the place where a key would be. */
  lemma {:induction false} NotFoundParts<V>(n: Node<V>, pivot: Key, height: nat, i: nat)
    requires Shape(n, height) && Sorted(Flat(n)) && Find(n.items, pivot) == (i, false)
    ensures AtLeast(Flat(n), pivot) == AtLeast(Middle(n, i), pivot) + Tail(n, i)
    ensures AtMost(Flat(n), pivot) == Head(n, i) + AtMost(Middle(n, i), pivot)
  {
    Parts(n, i);
    Apart(n, pivot, height, i);
    BoundsOf(Head(n, i), Middle(n, i), Tail(n, i), pivot);
  }

  lemma {:induction false} Apart<V>(n: Node<V>, pivot: Key, height: nat, i: nat)
    requires Shape(n, height) && Sorted(Flat(n)) && Find(n.items, pivot) == (i, false)
    ensures Below(Head(n, i), pivot) && Above(pivot, Tail(n, i))
  {
    if height == 0 {
      FindPlace(n.items, pivot);
    } else {
      Between(n, pivot, i);
    }
  }
}
