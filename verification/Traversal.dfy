/**
 * Traversals that hand entries to a callback until it returns false. A callback is a state transformer: it maps its
 * state and the entry it is shown to its next state and to whether it wants more.
 */
module Traversal {
  import opened Bytes
  import opened SortedSeq

  type Callback<!S, !E> = (S, E) -> (S, bool)

  /** Show the elements of a list to a callback, in order, up to and including the first that makes it stop. */
  function Feed<S, E>(s: S, list: seq<E>, cb: Callback<S, E>): (S, bool) {
    if list == [] then (s, true)
    else
      var (s', more) := cb(s, list[0]);
      if more then Feed(s', list[1..], cb) else (s', false)
  }

  lemma {:induction false} FeedConcat<S, E>(s: S, a: seq<E>, b: seq<E>, cb: Callback<S, E>)
    ensures Feed(s, a + b, cb) == (var (s', more) := Feed(s, a, cb); if more then Feed(s', b, cb) else (s', false))
    decreases |a|
  {
    if a == [] {
      assert a + b == b;
    } else {
      assert (a + b)[1..] == a[1..] + b;
      var (s', more) := cb(s, a[0]);
      if more { FeedConcat(s', a[1..], b, cb); }
    }
  }

  lemma FeedOne<S, E>(s: S, e: E, cb: Callback<S, E>)
    ensures Feed(s, [e], cb) == cb(s, e)
  {
    var (s', more) := cb(s, e);
    assert [e][1..] == [];
    if more { assert Feed(s', [e][1..], cb) == (s', true); }
  }

  /** The entries at or above a key. */
  function AtLeast<V>(s: seq<Entry<V>>, key: Key): seq<Entry<V>> {
    if s == [] then []
    else (if Leq(key, s[0].key) then [s[0]] else []) + AtLeast(s[1..], key)
  }

  /** The entries at or below a key. */
  function AtMost<V>(s: seq<Entry<V>>, key: Key): seq<Entry<V>> {
    if s == [] then []
    else (if Leq(s[0].key, key) then [s[0]] else []) + AtMost(s[1..], key)
  }

  /** The entries whose key starts with a prefix, without it. */
  function WithPrefix<V>(s: seq<Entry<V>>, prefix: Key): seq<Entry<V>> {
    if s == [] then []
    else
      (if HasPrefix(s[0].key, prefix) then [Entry(s[0].key[|prefix|..], s[0].value)] else [])
      + WithPrefix(s[1..], prefix)
  }

  lemma {:induction false} AtLeastConcat<V>(a: seq<Entry<V>>, b: seq<Entry<V>>, key: Key)
    ensures AtLeast(a + b, key) == AtLeast(a, key) + AtLeast(b, key)
    decreases |a|
  {
    if a == [] {
      assert a + b == b;
    } else {
      assert (a + b)[1..] == a[1..] + b;
      AtLeastConcat(a[1..], b, key);
    }
  }

  lemma {:induction false} AtMostConcat<V>(a: seq<Entry<V>>, b: seq<Entry<V>>, key: Key)
    ensures AtMost(a + b, key) == AtMost(a, key) + AtMost(b, key)
    decreases |a|
  {
    if a == [] {
      assert a + b == b;
    } else {
      assert (a + b)[1..] == a[1..] + b;
      AtMostConcat(a[1..], b, key);
    }
  }

  lemma {:induction false} BoundsBelow<V>(s: seq<Entry<V>>, key: Key)
    requires Below(s, key)
    ensures AtLeast(s, key) == [] && AtMost(s, key) == s
    decreases |s|
  {
    if s != [] {
      LessAsymmetric(s[0].key, key);
      BoundsBelow(s[1..], key);
    }
  }

  lemma {:induction false} BoundsAbove<V>(s: seq<Entry<V>>, key: Key)
    requires Above(key, s)
    ensures AtLeast(s, key) == s && AtMost(s, key) == []
    decreases |s|
  {
    if s != [] {
      LessAsymmetric(key, s[0].key);
      BoundsAbove(s[1..], key);
    }
  }

  /** The callback IteratePrefix builds around the caller's. */
  function PrefixCallback<S, V>(prefix: Key, cb: Callback<S, Entry<V>>): Callback<S, Entry<V>> {
    (s: S, e: Entry<V>) =>
      if HasPrefix(e.key, prefix) then cb(s, Entry(e.key[|prefix|..], e.value)) else (s, false)
  }

  lemma {:induction false} NoneWithPrefix<V>(s: seq<Entry<V>>, prefix: Key)
    requires Sorted(s) && s != [] && Leq(prefix, s[0].key) && !HasPrefix(s[0].key, prefix)
    ensures WithPrefix(s, prefix) == []
    decreases |s|
  {
    if |s| > 1 {
      PrefixContiguous(prefix, s[0].key, s[1].key);
      if prefix != s[0].key { LessTransitive(prefix, s[0].key, s[1].key); }
      NoneWithPrefix(s[1..], prefix);
    }
  }

  /**
   * Starting at the prefix and stopping at the first key without it misses nothing: the caller's callback sees
   * exactly the entries with the prefix.
   */
  lemma {:induction false} PrefixScan<S, V>(s: S, list: seq<Entry<V>>, prefix: Key, cb: Callback<S, Entry<V>>)
    requires Sorted(list)
    ensures Feed(s, AtLeast(list, prefix), PrefixCallback(prefix, cb)).0 == Feed(s, WithPrefix(list, prefix), cb).0
    decreases |list|
  {
    if list != [] {
      var e := list[0];
      var wrapped := PrefixCallback(prefix, cb);
      var rest := AtLeast(list[1..], prefix);
      if !Leq(prefix, e.key) {
        if HasPrefix(e.key, prefix) { PrefixIsBelow(prefix, e.key); }
        assert AtLeast(list, prefix) == rest && WithPrefix(list, prefix) == WithPrefix(list[1..], prefix);
        PrefixScan(s, list[1..], prefix, cb);
      } else if HasPrefix(e.key, prefix) {
        var stripped := Entry(e.key[|prefix|..], e.value);
        FeedConcat(s, [e], rest, wrapped);
        FeedOne(s, e, wrapped);
        FeedConcat(s, [stripped], WithPrefix(list[1..], prefix), cb);
        FeedOne(s, stripped, cb);
        PrefixScan(cb(s, stripped).0, list[1..], prefix, cb);
      } else {
        NoneWithPrefix(list, prefix);
        FeedConcat(s, [e], rest, wrapped);
        FeedOne(s, e, wrapped);
      }
    }
  }
}
