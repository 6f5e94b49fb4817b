/** Association lists kept in strictly ascending key order: the plain map both trees are compared with. */
module SortedSeq {
  import opened Bytes

  datatype Option<+T> = None | Some(value: T)

  /** What the map holds for all the keys, in order, or None if one is unknown. */
  function LookupAll<K, V>(m: map<K, V>, keys: seq<K>): (r: Option<seq<V>>)
    ensures r.Some? <==> forall k :: k in keys ==> k in m
    ensures r.Some? ==>
      |r.value| == |keys| && forall i :: 0 <= i < |keys| ==> keys[i] in m && r.value[i] == m[keys[i]]
  {
    if keys == [] then Some([])
    else
      var rest := LookupAll(m, keys[1..]);
      if keys[0] !in m || rest.None? then None else Some([m[keys[0]]] + rest.value)
  }

  datatype Entry<+V> = Entry(key: Key, value: V)

  ghost predicate Sorted<V>(s: seq<Entry<V>>) {
    forall i, j :: 0 <= i < j < |s| ==> Less(s[i].key, s[j].key)
  }

  /** Every key of s is strictly below k. */
  ghost predicate Below<V>(s: seq<Entry<V>>, k: Key) {
    forall i :: 0 <= i < |s| ==> Less(s[i].key, k)
  }

  /** Every key of s is strictly above k. */
  ghost predicate Above<V>(k: Key, s: seq<Entry<V>>) {
    forall i :: 0 <= i < |s| ==> Less(k, s[i].key)
  }

  function Put<V>(s: seq<Entry<V>>, k: Key, v: V): seq<Entry<V>> {
    if s == [] then [Entry(k, v)]
    else if k == s[0].key then [Entry(k, v)] + s[1..]
    else if Less(k, s[0].key) then [Entry(k, v)] + s
    else [s[0]] + Put(s[1..], k, v)
  }

  function Remove<V>(s: seq<Entry<V>>, k: Key): seq<Entry<V>> {
    if s == [] then []
    else if k == s[0].key then s[1..]
    else [s[0]] + Remove(s[1..], k)
  }

  function Get<V>(s: seq<Entry<V>>, k: Key): Option<V> {
    if s == [] then None
    else if k == s[0].key then Some(s[0].value)
    else Get(s[1..], k)
  }

  /** The map an association list stands for. */
  function ToMap<V>(s: seq<Entry<V>>): map<Key, V> {
    if s == [] then map[] else ToMap(s[1..])[s[0].key := s[0].value]
  }

  lemma SortedConcat<V>(a: seq<Entry<V>>, b: seq<Entry<V>>)
    requires Sorted(a) && Sorted(b)
    requires a != [] && b != [] ==> Less(a[|a| - 1].key, b[0].key)
    ensures Sorted(a + b)
  {
    forall i, j | 0 <= i < j < |a + b|
      ensures Less((a + b)[i].key, (a + b)[j].key)
    {
      if i < |a| <= j {
        var last, first := a[|a| - 1].key, b[0].key;
        if i < |a| - 1 { LessTransitive(a[i].key, last, first); }
        if j > |a| { LessTransitive(a[i].key, first, b[j - |a|].key); }
      }
    }
  }

  lemma SortedParts<V>(a: seq<Entry<V>>, b: seq<Entry<V>>)
    requires Sorted(a + b)
    ensures Sorted(a) && Sorted(b)
    ensures forall i, j :: 0 <= i < |a| && 0 <= j < |b| ==> Less(a[i].key, b[j].key)
  {
    forall i, j | 0 <= i < j < |a| ensures Less(a[i].key, a[j].key) {
      assert Less((a + b)[i].key, (a + b)[j].key);
    }
    forall i, j | 0 <= i < j < |b| ensures Less(b[i].key, b[j].key) {
      assert Less((a + b)[|a| + i].key, (a + b)[|a| + j].key);
    }
    forall i, j | 0 <= i < |a| && 0 <= j < |b| ensures Less(a[i].key, b[j].key) {
      assert Less((a + b)[i].key, (a + b)[|a| + j].key);
    }
  }

  lemma BelowLast<V>(a: seq<Entry<V>>, k: Key)
    requires Sorted(a) && a != [] && Less(a[|a| - 1].key, k)
    ensures Below(a, k)
  {
    forall i | 0 <= i < |a| ensures Less(a[i].key, k) {
      if i < |a| - 1 { LessTransitive(a[i].key, a[|a| - 1].key, k); }
    }
  }

  lemma AboveFirst<V>(k: Key, b: seq<Entry<V>>)
    requires Sorted(b) && b != [] && Less(k, b[0].key)
    ensures Above(k, b)
  {
    forall i | 0 <= i < |b| ensures Less(k, b[i].key) {
      if i > 0 { LessTransitive(k, b[0].key, b[i].key); }
    }
  }

  /** Updating a list whose key belongs to its right part leaves the left part alone. */
  lemma {:induction false} RightPart<V>(a: seq<Entry<V>>, b: seq<Entry<V>>, k: Key, v: V)
    requires Below(a, k)
    ensures Put(a + b, k, v) == a + Put(b, k, v)
    ensures Remove(a + b, k) == a + Remove(b, k)
    ensures Get(a + b, k) == Get(b, k)
  {
    if a == [] {
      assert a + b == b;
    } else {
      LessAsymmetric(a[0].key, k);
      assert (a + b)[1..] == a[1..] + b;
      RightPart(a[1..], b, k, v);
      assert [a[0]] + (a[1..] + Put(b, k, v)) == a + Put(b, k, v);
      assert [a[0]] + (a[1..] + Remove(b, k)) == a + Remove(b, k);
    }
  }

  lemma {:induction false} AbsentAbove<V>(s: seq<Entry<V>>, k: Key)
    requires Above(k, s)
    ensures Get(s, k) == None && Remove(s, k) == s
  {
    if s != [] {
      LessAsymmetric(k, s[0].key);
      AbsentAbove(s[1..], k);
    }
  }

  /** Updating a list whose key is below its right part leaves the right part alone. */
  lemma {:induction false} LeftPart<V>(a: seq<Entry<V>>, b: seq<Entry<V>>, k: Key, v: V)
    requires Above(k, b)
    ensures Put(a + b, k, v) == Put(a, k, v) + b
    ensures Remove(a + b, k) == Remove(a, k) + b
    ensures Get(a + b, k) == Get(a, k)
  {
    if a == [] {
      assert a + b == b;
      AbsentAbove(b, k);
      if b != [] { LessAsymmetric(k, b[0].key); }
    } else {
      assert (a + b)[1..] == a[1..] + b;
      LeftPart(a[1..], b, k, v);
      assert [a[0]] + (Put(a[1..], k, v) + b) == ([a[0]] + Put(a[1..], k, v)) + b;
      assert [a[0]] + (Remove(a[1..], k) + b) == ([a[0]] + Remove(a[1..], k)) + b;
      assert [Entry(k, v)] + (a + b) == ([Entry(k, v)] + a) + b;
    }
  }

  lemma {:induction false} PutSorted<V>(s: seq<Entry<V>>, k: Key, v: V)
    requires Sorted(s)
    ensures Sorted(Put(s, k, v)) && Put(s, k, v) != []
    ensures Put(s, k, v)[0].key == (if s == [] || Less(k, s[0].key) then k else s[0].key)
    ensures |Put(s, k, v)| == |s| + (if Get(s, k).None? then 1 else 0)
  {
    if s != [] {
      LessTotal(k, s[0].key);
      if k == s[0].key {
        LessIrreflexive(k);
        SortedConcat([Entry(k, v)], s[1..]);
      } else if Less(k, s[0].key) {
        AboveFirst(k, s);
        AbsentAbove(s, k);
        SortedConcat([Entry(k, v)], s);
      } else {
        PutSorted(s[1..], k, v);
        SortedConcat([s[0]], Put(s[1..], k, v));
      }
    }
  }

  lemma {:induction false} RemoveSorted<V>(s: seq<Entry<V>>, k: Key)
    requires Sorted(s)
    ensures Sorted(Remove(s, k))
    ensures |Remove(s, k)| == |s| - (if Get(s, k).Some? then 1 else 0)
    ensures Remove(s, k) != [] ==> s != [] && Leq(s[0].key, Remove(s, k)[0].key)
  {
    if s != [] && k != s[0].key {
      RemoveSorted(s[1..], k);
      var r := Remove(s[1..], k);
      if r != [] && s[1].key != r[0].key { LessTransitive(s[0].key, s[1].key, r[0].key); }
      SortedConcat([s[0]], r);
    }
  }

  lemma {:induction false} GetIsMap<V>(s: seq<Entry<V>>, k: Key)
    ensures Get(s, k) == if k in ToMap(s) then Some(ToMap(s)[k]) else None
  {
    if s != [] { GetIsMap(s[1..], k); }
  }

  lemma {:induction false} PutIsMap<V>(s: seq<Entry<V>>, k: Key, v: V)
    ensures ToMap(Put(s, k, v)) == ToMap(s)[k := v]
  {
    if s != [] {
      if k == s[0].key {
        assert ([Entry(k, v)] + s[1..])[1..] == s[1..];
      } else if Less(k, s[0].key) {
        assert ([Entry(k, v)] + s)[1..] == s;
      } else {
        PutIsMap(s[1..], k, v);
        assert ([s[0]] + Put(s[1..], k, v))[1..] == Put(s[1..], k, v);
      }
    }
  }

  lemma {:induction false} RemoveIsMap<V>(s: seq<Entry<V>>, k: Key)
    requires Sorted(s)
    ensures ToMap(Remove(s, k)) == ToMap(s) - {k}
  {
    if s != [] {
      if k == s[0].key {
        AbsentAbove(s[1..], k);
        GetIsMap(s[1..], k);
      } else {
        RemoveIsMap(s[1..], k);
        assert ([s[0]] + Remove(s[1..], k))[1..] == Remove(s[1..], k);
      }
    }
  }

  /** The list and its map have the same number of keys. */
  lemma {:induction false} MapSize<V>(s: seq<Entry<V>>)
    requires Sorted(s)
    ensures |ToMap(s)| == |s|
  {
    if s != [] {
      AbsentAbove(s[1..], s[0].key);
      GetIsMap(s[1..], s[0].key);
      MapSize(s[1..]);
    }
  }

  lemma {:induction false} PutFront<V>(c: seq<Entry<V>>, key: Key, value: V)
    requires Above(key, c)
    ensures Put(c, key, value) == [Entry(key, value)] + c
  {
    if c != [] { LessAsymmetric(key, c[0].key); }
  }

  /** Updating a key between two parts of a list. */
  lemma {:induction false} PutBetween<V>(a: seq<Entry<V>>, c: seq<Entry<V>>, key: Key, value: V)
    requires Below(a, key) && Above(key, c)
    ensures Put(a + c, key, value) == a + [Entry(key, value)] + c
    ensures Get(a + c, key) == None && Remove(a + c, key) == a + c
  {
    hide Put, Get, Remove;
    RightPart(a, c, key, value);
    AbsentAbove(c, key);
    PutFront(c, key, value);
    assert a + ([Entry(key, value)] + c) == a + [Entry(key, value)] + c;
  }

  /** Updating the key of an entry that stands after smaller ones. */
  lemma {:induction false} PutFound<V>(a: seq<Entry<V>>, e: Entry<V>, b: seq<Entry<V>>, value: V)
    requires Below(a, e.key)
    ensures Put(a + [e] + b, e.key, value) == a + [Entry(e.key, value)] + b
    ensures Get(a + [e] + b, e.key) == Some(e.value) && Remove(a + [e] + b, e.key) == a + b
  {
    var c := [e] + b;
    assert a + [e] + b == a + c && c[1..] == b;
    RightPart(a, c, e.key, value);
  }

  /** Updating a key that belongs to the middle part of a list. */
  lemma {:induction false} UpdateMiddle<V>(a: seq<Entry<V>>, b: seq<Entry<V>>, c: seq<Entry<V>>, key: Key, value: V)
    requires Below(a, key) && Above(key, c)
    ensures Put(a + b + c, key, value) == a + Put(b, key, value) + c
    ensures Remove(a + b + c, key) == a + Remove(b, key) + c
    ensures Get(a + b + c, key) == Get(b, key)
  {
    hide Put, Get, Remove;
    LeftPart(a + b, c, key, value);
    RightPart(a, b, key, value);
  }

  lemma {:induction false} GetMiddle<V>(a: seq<Entry<V>>, b: seq<Entry<V>>, c: seq<Entry<V>>, key: Key)
    requires Below(a, key) && Above(key, c)
    ensures Get(a + b + c, key) == Get(b, key)
    decreases |a| + |b|
  {
    if a != [] {
      LessAsymmetric(a[0].key, key);
      assert (a + b + c)[1..] == a[1..] + b + c;
      GetMiddle(a[1..], b, c, key);
    } else if b != [] {
      assert (a + b + c)[1..] == a + b[1..] + c;
      GetMiddle(a, b[1..], c, key);
    } else {
      assert a + b + c == c;
      AbsentAbove(c, key);
    }
  }

  lemma {:induction false} RemoveMiddle<V>(a: seq<Entry<V>>, b: seq<Entry<V>>, c: seq<Entry<V>>, key: Key)
    requires Below(a, key) && Above(key, c)
    ensures Remove(a + b + c, key) == a + Remove(b, key) + c
    decreases |a| + |b|
  {
    if a != [] {
      LessAsymmetric(a[0].key, key);
      assert (a + b + c)[1..] == a[1..] + b + c;
      RemoveMiddle(a[1..], b, c, key);
      assert [a[0]] + (a[1..] + Remove(b, key) + c) == a + Remove(b, key) + c;
    } else if b != [] {
      assert (a + b + c)[1..] == a + b[1..] + c;
      RemoveMiddle(a, b[1..], c, key);
      assert [b[0]] + (a + Remove(b[1..], key) + c) == a + ([b[0]] + Remove(b[1..], key)) + c;
    } else {
      assert a + b + c == c;
      AbsentAbove(c, key);
    }
  }

  /** Everything before an entry of an ordered list is below it, everything after is above. */
  lemma SortedAround<V>(a: seq<Entry<V>>, e: Entry<V>, b: seq<Entry<V>>)
    requires Sorted(a + [e] + b)
    ensures Sorted(a) && Sorted(b) && Below(a, e.key) && Above(e.key, b)
  {
    SortedParts(a + [e], b);
    SortedParts(a, [e]);
    assert (a + [e])[|a|] == e;
  }
}
