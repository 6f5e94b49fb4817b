/** The least-recently-used cache in front of the node store (avl/lru.node.go). */
module AvlCache {
  import opened SortedSeq
  import opened AvlNode

  ghost predicate NoDuplicates(s: seq<Digest>) {
    forall i, j :: 0 <= i < j < |s| ==> s[i] != s[j]
  }

  function KeySet(s: seq<Digest>): set<Digest> {
    set d | d in s
  }

  function Without(s: seq<Digest>, d: Digest): (r: seq<Digest>)
    ensures d !in r && |r| <= |s| && forall e :: e != d ==> (e in s <==> e in r)
  {
    if s == [] then [] else (if s[0] == d then [] else [s[0]]) + Without(s[1..], d)
  }

  lemma {:induction false} WithoutAbsent(s: seq<Digest>, d: Digest)
    ensures d !in s ==> Without(s, d) == s
  {
    if s != [] { WithoutAbsent(s[1..], d); }
  }

  lemma {:induction false} WithoutNoDuplicates(s: seq<Digest>, d: Digest)
    requires NoDuplicates(s)
    ensures NoDuplicates(Without(s, d))
    ensures d in s ==> |Without(s, d)| == |s| - 1
  {
    if s != [] {
      assert s[0] !in s[1..];
      WithoutNoDuplicates(s[1..], d);
      WithoutAbsent(s[1..], d);
    }
  }

  lemma DistinctCount(s: seq<Digest>, keys: set<Digest>)
    requires NoDuplicates(s) && keys == KeySet(s)
    ensures |keys| == |s|
    decreases |s|
  {
    if s == [] {
    } else {
      DistinctCount(s[1..], keys - {s[0]});
    }
  }

  function Take(s: seq<Digest>, n: nat): seq<Digest> {
    if |s| <= n then s else s[..n]
  }

  /** The table restricted to the keys of a list. */
  ghost predicate Shadows(table: map<Digest, Node>, keys: seq<Digest>, whole: map<Digest, Node>) {
    && table.Keys == KeySet(keys)
    && forall d :: d in table ==> d in whole && table[d] == whole[d]
  }

  /** What the eviction loop keeps: a prefix of the list no shorter than the capacity, and the table over it. */
  ghost predicate Evicting(
      keys: seq<Digest>, table: map<Digest, Node>, all: seq<Digest>, whole: map<Digest, Node>, size: nat)
  {
    && keys <= all && NoDuplicates(keys) && (keys == all || |keys| >= size)
    && |table| == |keys| && Shadows(table, keys, whole)
  }

  lemma DropBack(keys: seq<Digest>, table: map<Digest, Node>, all: seq<Digest>, whole: map<Digest, Node>, size: nat)
    requires Evicting(keys, table, all, whole, size) && |table| > size && keys != []
    ensures Evicting(keys[..|keys| - 1], table - {keys[|keys| - 1]}, all, whole, size)
  {
    DropLast(keys);
    assert (table - {keys[|keys| - 1]}).Keys == table.Keys - {keys[|keys| - 1]};
  }

  lemma StartEvicting(all: seq<Digest>, whole: map<Digest, Node>, size: nat)
    requires NoDuplicates(all) && whole.Keys == KeySet(all)
    ensures Evicting(all, whole, all, whole, size)
  {
    DistinctCount(all, whole.Keys);
  }

  lemma EndEvicting(keys: seq<Digest>, table: map<Digest, Node>, all: seq<Digest>, whole: map<Digest, Node>, size: nat)
    requires Evicting(keys, table, all, whole, size) && |table| <= size
    ensures NoDuplicates(keys) && keys == Take(all, size) && Shadows(table, keys, whole)
  {
  }

  lemma StillListed(keys: seq<Digest>, table: map<Digest, Node>, all: seq<Digest>, whole: map<Digest, Node>, size: nat)
    requires Evicting(keys, table, all, whole, size) && |table| > size
    ensures keys != []
  {
  }

  lemma DropLast(keys: seq<Digest>)
    requires NoDuplicates(keys) && keys != []
    ensures KeySet(keys[..|keys| - 1]) == KeySet(keys) - {keys[|keys| - 1]}
  {
    var kept, back := keys[..|keys| - 1], keys[|keys| - 1];
    assert forall d :: d in keys <==> d in kept || d == back;
  }

  class NodeLRU {
    const size: nat
    var elements: map<Digest, Node>
    /** Most recently used first. */
    var access: seq<Digest>

    /** The list and the table hold the same keys, within capacity, and every node sits under its own ID. */
    ghost predicate Valid()
      reads this
    {
      && NoDuplicates(access) && |access| <= size
      && elements.Keys == KeySet(access)
      && forall d :: d in elements ==> Id(elements[d]) == d
    }

    constructor (size: nat)
      ensures Valid() && this.size == size && access == []
    {
      this.size := size;
      elements, access := map[], [];
    }

    /** A hit returns what was put under the key and makes it the most recent one; nothing else changes. */
    method Load(key: Digest) returns (n: Option<Node>)
      requires Valid()
      modifies this
      ensures Valid() && elements == old(elements)
      ensures n == if key in elements then Some(elements[key]) else None
      ensures access == if n.Some? then [key] + Without(old(access), key) else old(access)
    {
      if key in elements {
        WithoutNoDuplicates(access, key);
        n := Some(elements[key]);
        access := [key] + Without(access, key);
      } else {
        n := None;
      }
    }

    /** The key becomes the most recent one, and the keys kept are the most recent ones that fit. */
    method Put(key: Digest, val: Node)
      requires Valid() && Id(val) == key
      modifies this
      ensures Valid()
      ensures access == Take([key] + Without(old(access), key), size)
      ensures forall d :: d in elements ==> elements[d] == if d == key then val else old(elements)[d]
    {
      WithoutNoDuplicates(access, key);
      elements := elements[key := val];
      access := [key] + Without(access, key);
      Evict();
    }

    /** Drop the least recently used keys while there are too many. */
    method Evict()
      requires NoDuplicates(access) && elements.Keys == KeySet(access)
      modifies this
      ensures NoDuplicates(access) && access == Take(old(access), size)
      ensures Shadows(elements, access, old(elements))
    {
      hide Evicting, Shadows, NoDuplicates, Take;
      ghost var all, table := access, elements;
      StartEvicting(all, table, size);
      while |elements| > size
        invariant Evicting(access, elements, all, table, size)
        decreases |access|
      {
        StillListed(access, elements, all, table, size);
        DropBack(access, elements, all, table, size);
        elements := elements - {access[|access| - 1]};
        access := access[..|access| - 1];
      }
      EndEvicting(access, elements, all, table, size);
    }

    method Remove(key: Digest)
      requires Valid()
      modifies this
      ensures Valid() && elements == old(elements) - {key} && access == Without(old(access), key)
    {
      WithoutNoDuplicates(access, key);
      WithoutAbsent(access, key);
      if key in elements {
        elements := elements - {key};
        access := Without(access, key);
      }
    }
  }
}
