/** Byte strings under the order of Go's bytes.Compare. */
module Bytes {
  newtype byte = x: int | 0 <= x < 256

  type Key = seq<byte>

  const TWO64: nat := 0x1_0000_0000_0000_0000

  /** The two strings agree below i, and at i the first one ends or has the smaller byte. */
  predicate LessAt(a: Key, b: Key, i: nat) {
    i < |b| && i <= |a| && a[..i] == b[..i] && (i == |a| || a[i] < b[i])
  }

  /** bytes.Compare(a, b) < 0 */
  predicate Less(a: Key, b: Key) {
    exists i: nat | i < |b| :: LessAt(a, b, i)
  }

  /** bytes.Compare(a, b) <= 0 */
  predicate Leq(a: Key, b: Key) {
    a == b || Less(a, b)
  }

  lemma LessIrreflexive(a: Key)
    ensures !Less(a, a)
  {
  }

  lemma LessTransitive(a: Key, b: Key, c: Key)
    requires Less(a, b) && Less(b, c)
    ensures Less(a, c)
  {
    var i: nat :| i < |b| && LessAt(a, b, i);
    var j: nat :| j < |c| && LessAt(b, c, j);
    var m := if i < j then i else j;
    assert a[..m] == a[..i][..m] && b[..m] == b[..i][..m] == b[..j][..m] && c[..m] == c[..j][..m];
    assert m < i ==> a[m] == a[..i][m] == b[..i][m] == b[m];
    assert m < j ==> b[m] == b[..j][m] == c[..j][m] == c[m];
    assert LessAt(a, c, m);
  }

  lemma LessAsymmetric(a: Key, b: Key)
    requires Less(a, b)
    ensures a != b && !Less(b, a)
  {
    LessIrreflexive(a);
    if Less(b, a) {
      LessTransitive(a, b, a);
    }
  }

  /** The first place where two strings differ, or the end of the shorter one. */
  function CommonPrefix(a: Key, b: Key): (i: nat)
    ensures i <= |a| && i <= |b| && a[..i] == b[..i]
    ensures i < |a| && i < |b| ==> a[i] != b[i]
  {
    if a == [] || b == [] || a[0] != b[0] then 0
    else
      var i := CommonPrefix(a[1..], b[1..]);
      assert a[..i + 1] == [a[0]] + a[1..][..i];
      assert b[..i + 1] == [b[0]] + b[1..][..i];
      i + 1
  }

  lemma LessTotal(a: Key, b: Key)
    ensures Less(a, b) || a == b || Less(b, a)
  {
    var i := CommonPrefix(a, b);
    if i < |b| && (i == |a| || a[i] < b[i]) {
      assert LessAt(a, b, i);
    } else if i < |a| {
      assert LessAt(b, a, i);
    } else {
      assert a == a[..i] && b == b[..i];
    }
  }

  /** bytes.HasPrefix(k, p) */
  predicate HasPrefix(k: Key, p: Key) {
    p <= k
  }

  /**
   * The strings that start with a prefix are contiguous in the order and begin at the prefix itself:
   * once a string at or above the prefix lacks it, every larger one does too.
   */
  lemma PrefixContiguous(p: Key, a: Key, b: Key)
    requires Leq(p, a) && !HasPrefix(a, p) && Less(a, b)
    ensures !HasPrefix(b, p)
  {
    var i: nat :| i < |a| && LessAt(p, a, i);
    var j: nat :| j < |b| && LessAt(a, b, j);
  }

  lemma PrefixIsBelow(p: Key, k: Key)
    requires HasPrefix(k, p)
    ensures Leq(p, k)
  {
    if p != k {
      assert LessAt(p, k, |p|);
    }
  }
}
