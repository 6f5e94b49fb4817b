/** The cuckoo filter over transaction IDs (internal/cuckoo/filter.go). */
module Cuckoo {
  import opened Bytes

  const NUM_BUCKETS: nat := 524288
  const MAX_ATTEMPTS: nat := 500

  /** A bucket number. */
  type Index = i: nat | i < NUM_BUCKETS

  /** The first two big-endian words of a transaction ID; the rest of it is not used. */
  datatype TxId = TxId(word0: nat, word1: nat)

  /** A one-byte fingerprint. */
  type Print = x: nat | x < 256

  /** Four slots; zero is an empty one. */
  type Bucket = b: seq<Print> | |b| == 4 witness [0, 0, 0, 0]

  /** Exclusive or, bit by bit from the lowest. */
  function Xor(a: nat, b: nat): nat
    decreases a + b
  {
    if a == 0 && b == 0 then 0 else 2 * Xor(a / 2, b / 2) + Parity(a, b)
  }

  function Parity(a: nat, b: nat): (bit: nat)
    ensures bit < 2
  {
    (a + b) % 2
  }

  /** Bob Jenkins' integer hash on 64-bit words. */
  function Jenkins(x: nat): nat {
    var a := (x + 0x7ed55d16 + x * 4096) % TWO64;
    var b := Xor(Xor(a, 0xc761c23c), a / 524288);
    var c := (b + 0x165667b1 + b * 32) % TWO64;
    var d := Xor((c + 0xd3a2646c) % TWO64, c * 512 % TWO64);
    var e := (d + 0xfd7046c5 + d * 8) % TWO64;
    Xor(Xor(e, 0xb55a4f09), e / 65536)
  }

  function Other(i: Index, jump: nat): Index {
    Xor(i, jump) % NUM_BUCKETS
  }

  /** The other bucket of a fingerprint. */
  function Alt(i: Index, fp: Print): Index {
    Other(i, Jenkins(fp))
  }

  lemma {:induction false} XorBits(a: nat, b: nat)
    ensures Xor(a, b) == 2 * Xor(a / 2, b / 2) + Parity(a, b)
    ensures Xor(a, b) / 2 == Xor(a / 2, b / 2)
  {
  }

  lemma ParityUndone(x: nat, a: nat, b: nat)
    requires x % 2 == Parity(a, b)
    ensures Parity(x, b) == a % 2
  {
  }

  lemma {:induction false} XorUndone(a: nat, b: nat)
    ensures Xor(Xor(a, b), b) == a
    decreases a + b
  {
    if a != 0 || b != 0 {
      var x := Xor(a, b);
      XorBits(a, b);
      XorUndone(a / 2, b / 2);
      XorBits(x, b);
      ParityUndone(x, a, b);
    }
  }

  /** The low k bits of a number. */
  function Low(k: nat, x: nat): nat {
    if k == 0 then 0 else 2 * Low(k - 1, x / 2) + x % 2
  }

  lemma LowBits(k: nat, x: nat)
    requires k > 0
    ensures Low(k, x) / 2 == Low(k - 1, x / 2) && Low(k, x) % 2 == x % 2
  {
  }

  lemma SameParity(x: nat, y: nat, j: nat)
    requires x % 2 == y % 2
    ensures Parity(x, j) == Parity(y, j)
  {
  }

  /** One bit of the argument that two numbers with the same lowest bit and the same rest are the same. */
  lemma SameLow(k: nat, x: nat, y: nat)
    requires k > 0 && x % 2 == y % 2 && Low(k - 1, x / 2) == Low(k - 1, y / 2)
    ensures Low(k, x) == Low(k, y)
  {
  }

  lemma {:induction false} XorSplits(a: nat, b: nat)
    ensures Xor(a, b) / 2 == Xor(a / 2, b / 2) && Xor(a, b) % 2 == Parity(a, b)
  {
    XorBits(a, b);
  }

  /** The low k bits of an exclusive or depend on the low k bits of its arguments alone. */
  lemma {:induction false} XorLow(k: nat, x: nat, j: nat)
    ensures Low(k, Xor(Low(k, x), j)) == Low(k, Xor(x, j))
  {
    if k != 0 {
      var low := Low(k, x);
      LowBits(k, x);
      XorLow(k - 1, x / 2, j / 2);
      XorSplits(x, j);
      XorSplits(low, j);
      SameParity(low, x, j);
      SameLow(k, Xor(low, j), Xor(x, j));
    }
  }

  function Pow2(k: nat): (p: nat)
    ensures p > 0
  {
    if k == 0 then 1 else 2 * Pow2(k - 1)
  }

  lemma BucketsArePow2()
    ensures Pow2(19) == NUM_BUCKETS
  {
    assert Pow2(5) == 32;
    assert Pow2(10) == 1024;
    assert Pow2(15) == 32768;
  }

  lemma Multiples(m: int, d: int)
    requires m > 0
    ensures d >= 1 ==> m * d >= m
    ensures d <= -1 ==> m * d <= -m
  {
    if d >= 1 {
      assert m * d == m + m * (d - 1);
    }
    if d <= -1 {
      assert m * d == -m + m * (d + 1);
    }
  }

  lemma Remainder(x: int, m: int, q: int, r: int)
    requires m > 0 && x == m * q + r && 0 <= r < m
    ensures x % m == r
  {
    var d := x / m - q;
    assert x == m * (x / m) + x % m;
    assert m * d == m * (x / m) - m * q;
    Multiples(m, d);
  }

  lemma RemainderOfHalf(x: nat, m: nat)
    requires m > 0
    ensures x % (2 * m) == 2 * (x / 2 % m) + x % 2
  {
    var q, r := x / 2 / m, x / 2 % m;
    assert x / 2 == m * q + r;
    assert (2 * m) * q == 2 * (m * q);
    Remainder(x, 2 * m, q, 2 * r + x % 2);
  }

  lemma {:induction false} LowIsRemainder(k: nat, x: nat)
    ensures Low(k, x) == x % Pow2(k)
  {
    if k != 0 {
      LowIsRemainder(k - 1, x / 2);
      RemainderOfHalf(x, Pow2(k - 1));
    }
  }

  lemma {:induction false} LowUndone(k: nat, i: nat, jump: nat)
    ensures Low(k, Xor(Low(k, Xor(i, jump)), jump)) == Low(k, i)
  {
    XorLow(k, Xor(i, jump), jump);
    XorUndone(i, jump);
  }

  /** With m for Pow2(k). */
  lemma {:induction false} RemainderUndone(k: nat, m: nat, i: nat, jump: nat)
    requires m == Pow2(k) && i < m
    ensures Xor(Xor(i, jump) % m, jump) % m == i
  {
    LowUndone(k, i, jump);
    LowIsRemainder(k, Xor(i, jump));
    LowIsRemainder(k, Xor(Xor(i, jump) % m, jump));
    LowIsRemainder(k, i);
    Remainder(i, m, 0, i);
  }

  lemma OtherInvolution(i: Index, jump: nat)
    ensures Other(Other(i, jump), jump) == i
  {
    BucketsArePow2();
    RemainderUndone(19, NUM_BUCKETS, i, jump);
  }

  /** Moving a fingerprint to its other bucket and back leaves it where it was. */
  lemma AltInvolution(i: Index, fp: Print)
    ensures Alt(Alt(i, fp), fp) == i
  {
    OtherInvolution(i, Jenkins(fp));
  }

  /** Never zero, so that it cannot be taken for an empty slot. */
  function Fingerprint(id: TxId): (fp: Print)
    ensures fp != 0
  {
    id.word0 % 255 + 1
  }

  function Home(id: TxId): Index {
    id.word1 % NUM_BUCKETS
  }

  const EMPTY: Bucket := [0, 0, 0, 0]

  type Buckets = f: seq<Bucket> | |f| == NUM_BUCKETS witness seq<Bucket>(NUM_BUCKETS, _ => EMPTY)

  function At(f: Buckets, i: Index): Bucket {
    f[i]
  }

  function Set(f: Buckets, i: Index, b: Bucket): Buckets {
    f[i := b]
  }

  lemma AtSet(f: Buckets, i: Index, b: Bucket, j: Index)
    ensures At(Set(f, i, b), j) == if i == j then b else At(f, j)
  {
  }

  /** Where else a fingerprint may be. The filter relies on nothing but that the move can be undone. */
  type Mover = (Index, Print) -> Index

  ghost predicate Involution(alt: Mover) {
    forall i, fp :: alt(alt(i, fp), fp) == i
  }

  lemma AltIsInvolution()
    ensures Involution(Alt)
  {
    forall i, fp ensures Alt(Alt(i, fp), fp) == i {
      AltInvolution(i, fp);
    }
  }

  /** How many slots of a bucket hold a value. */
  function Times(b: Bucket, fp: Print): (n: nat)
    ensures n <= 4
  {
    One(b[0] == fp) + One(b[1] == fp) + One(b[2] == fp) + One(b[3] == fp)
  }

  /** How often a fingerprint is stored in either of its buckets, counting from bucket i. */
  function Occurrences(alt: Mover, f: Buckets, fp: Print, i: Index): nat {
    Times(At(f, i), fp) + (if alt(i, fp) == i then 0 else Times(At(f, alt(i, fp)), fp))
  }

  /** The same fingerprint in the same pair of buckets. */
  predicate Same(alt: Mover, fp: Print, i: Index, fp': Print, i': Index) {
    fp == fp' && (i == i' || alt(i, fp) == i')
  }

  function One(b: bool): nat {
    if b then 1 else 0
  }

  /** Replacing one bucket changes the occurrences of the pairs it belongs to. */
  lemma SetOccurrences(alt: Mover, f: Buckets, i: Index, b: Bucket, fp: Print, k: Index)
    requires Involution(alt)
    ensures Occurrences(alt, Set(f, i, b), fp, k) ==
            Occurrences(alt, f, fp, k) + (if Same(alt, fp, i, fp, k) then Times(b, fp) - Times(At(f, i), fp) else 0)
  {
    AtSet(f, i, b, k);
    AtSet(f, i, b, alt(k, fp));
    assert alt(alt(k, fp), fp) == k && alt(alt(i, fp), fp) == i;
  }

  /** The first slot holding a value, or -1. */
  function IndexOf(b: Bucket, fp: Print): (i: int)
    ensures -1 <= i < 4
    ensures if i < 0 then Times(b, fp) == 0 else b[i] == fp
    ensures forall j :: 0 <= j < i ==> b[j] != fp
  {
    if b[0] == fp then 0
    else if b[1] == fp then 1
    else if b[2] == fp then 2
    else if b[3] == fp then 3
    else -1
  }

  /** Bucket.Insert and, with 0 for the new value, Bucket.Delete: overwrite the first slot that holds a value. */
  function Overwrite(b: Bucket, was: Print, now: Print): (r: (Bucket, bool))
    ensures r.1 <==> Times(b, was) > 0
    ensures r.1 ==> forall fp :: Times(r.0, fp) + One(fp == was) == Times(b, fp) + One(fp == now)
    ensures !r.1 ==> r.0 == b
  {
    var i := IndexOf(b, was);
    if i < 0 then (b, false) else (b[i := now], true)
  }

  lemma OverwriteSlot(b: Bucket, j: nat, now: Print)
    requires j < 4
    ensures forall fp :: Times(b[j := now], fp) + One(fp == b[j]) == Times(b, fp) + One(fp == now)
  {
  }

  function Used(b: Bucket): nat {
    4 - Times(b, 0)
  }

  /** The number of slots in use. */
  function NonZero(f: seq<Bucket>): nat {
    if f == [] then 0 else Used(f[0]) + NonZero(f[1..])
  }

  lemma {:induction false} NonZeroUpdate(f: seq<Bucket>, p: nat, b: Bucket)
    requires p < |f|
    ensures NonZero(f[p := b]) == NonZero(f) - Used(f[p]) + Used(b)
    decreases |f|
  {
    if p == 0 {
      assert f[0 := b][1..] == f[1..];
    } else {
      assert f[p := b][1..] == f[1..][p - 1 := b];
      NonZeroUpdate(f[1..], p - 1, b);
    }
  }

  /** Whether the filter reports an ID. */
  predicate Lookup(alt: Mover, f: Buckets, id: TxId) {
    var fp, a := Fingerprint(id), Home(id);
    IndexOf(At(f, a), fp) > -1 || IndexOf(At(f, alt(a, fp)), fp) > -1
  }

  /** An ID is reported exactly when its fingerprint occurs in its pair of buckets. */
  lemma LookupIsOccurrence(alt: Mover, f: Buckets, id: TxId)
    ensures Lookup(alt, f, id) <==> Occurrences(alt, f, Fingerprint(id), Home(id)) > 0
  {
    var fp, a := Fingerprint(id), Home(id);
    SlotHolds(At(f, a), fp);
    SlotHolds(At(f, alt(a, fp)), fp);
  }

  lemma SlotHolds(b: Bucket, fp: Print)
    ensures IndexOf(b, fp) > -1 <==> Times(b, fp) > 0
  {
  }

  /** The table after an eviction chain, the fingerprint last in hand, its bucket, and whether it found a place. */
  datatype Kicked = Kicked(f: Buckets, fp: Print, i: Index, placed: bool)

  /** One swap: the fingerprint in hand goes into slot j of bucket i, and what was there comes into hand. */
  function Swap(f: Buckets, i: Index, j: nat, fp: Print): (Buckets, Print)
    requires j < 4
  {
    (Set(f, i, At(f, i)[j := fp]), At(f, i)[j])
  }

  /** One round of the eviction loop: a swap, then an attempt to place what came out in its other bucket. */
  function Attempt(alt: Mover, f: Buckets, i: Index, fp: Print, j: nat): Kicked
    requires j < 4
  {
    var (f1, out) := Swap(f, i, j, fp);
    var i1 := alt(i, out);
    var (b, ok) := Overwrite(At(f1, i1), 0, out);
    Kicked(Set(f1, i1, b), out, i1, ok)
  }

  /** The eviction loop with so many attempts left; choose gives the random slot of each. */
  function Kick(alt: Mover, f: Buckets, i: Index, fp: Print, choose: nat -> nat, left: nat): Kicked
    requires forall n :: choose(n) < 4
    decreases left
  {
    if left == 0 then Kicked(f, fp, i, false)
    else
      var r := Attempt(alt, f, i, fp, choose(left));
      if r.placed then r else Kick(alt, r.f, r.i, r.fp, choose, left - 1)
  }

  lemma SwapOccurrences(alt: Mover, f: Buckets, i: Index, j: nat, fp: Print, x: Print, k: Index)
    requires Involution(alt) && j < 4
    ensures var (f1, out) := Swap(f, i, j, fp);
      Occurrences(alt, f1, x, k) + One(Same(alt, out, alt(i, out), x, k))
      == Occurrences(alt, f, x, k) + One(Same(alt, fp, i, x, k))
  {
    var b := At(f, i);
    SetOccurrences(alt, f, i, b[j := fp], x, k);
    OverwriteSlot(b, j, fp);
    assert Times(b[j := fp], x) + One(x == b[j]) == Times(b, x) + One(x == fp);
    assert alt(alt(i, x), x) == i;
  }

  lemma PlaceOccurrences(alt: Mover, f: Buckets, i: Index, fp: Print, x: Print, k: Index)
    requires Involution(alt) && x != 0 && Times(At(f, i), 0) > 0
    ensures Occurrences(alt, Set(f, i, Overwrite(At(f, i), 0, fp).0), x, k)
         == Occurrences(alt, f, x, k) + One(Same(alt, fp, i, x, k))
  {
    var b, b' := At(f, i), Overwrite(At(f, i), 0, fp).0;
    SetOccurrences(alt, f, i, b', x, k);
    assert Times(b', x) + One(x == 0) == Times(b, x) + One(x == fp);
  }

  /** What a chain does to the occurrences of a fingerprint x: nothing, but for the one in hand. */
  ghost predicate Conserves(alt: Mover, r: Kicked, f: Buckets, fp: Print, i: Index, x: Print, k: Index) {
    Occurrences(alt, r.f, x, k) + (if r.placed then 0 else One(Same(alt, r.fp, r.i, x, k)))
    == Occurrences(alt, f, x, k) + One(Same(alt, fp, i, x, k))
  }

  lemma SetSame(f: Buckets, i: Index)
    ensures Set(f, i, At(f, i)) == f
  {
  }

  lemma AttemptOccurrences(alt: Mover, f: Buckets, i: Index, fp: Print, j: nat, x: Print, k: Index)
    requires Involution(alt) && j < 4 && x != 0
    ensures Conserves(alt, Attempt(alt, f, i, fp, j), f, fp, i, x, k)
  {
    var (f1, out) := Swap(f, i, j, fp);
    var i1 := alt(i, out);
    SwapOccurrences(alt, f, i, j, fp, x, k);
    if Overwrite(At(f1, i1), 0, out).1 {
      PlaceOccurrences(alt, f1, i1, out, x, k);
    } else {
      SetSame(f1, i1);
    }
  }

  /** Whatever slots are chosen, an eviction chain only moves fingerprints between their two buckets. */
  lemma {:induction false} KickOccurrences(
      alt: Mover, f: Buckets, i: Index, fp: Print, choose: nat -> nat, left: nat, x: Print, k: Index)
    requires Involution(alt) && (forall n :: choose(n) < 4) && x != 0
    ensures Conserves(alt, Kick(alt, f, i, fp, choose, left), f, fp, i, x, k)
    decreases left
  {
    if left > 0 {
      var r := Attempt(alt, f, i, fp, choose(left));
      AttemptOccurrences(alt, f, i, fp, choose(left), x, k);
      if !r.placed {
        KickOccurrences(alt, r.f, r.i, r.fp, choose, left - 1, x, k);
      }
    }
  }

  lemma {:induction false} SetNonZero(f: Buckets, i: Index, b: Bucket)
    ensures NonZero(Set(f, i, b)) == NonZero(f) - Used(At(f, i)) + Used(b)
  {
    NonZeroUpdate(f, i, b);
  }

  lemma {:induction false} AttemptNonZero(alt: Mover, f: Buckets, i: Index, fp: Print, j: nat)
    requires j < 4 && fp != 0 && Times(At(f, i), 0) == 0
    ensures var r := Attempt(alt, f, i, fp, j);
      && r.fp != 0 && NonZero(r.f) == NonZero(f) + One(r.placed) && (!r.placed ==> Times(At(r.f, r.i), 0) == 0)
  {
    var b := At(f, i);
    var (f1, out) := Swap(f, i, j, fp);
    var i1 := alt(i, out);
    OverwriteSlot(b, j, fp);
    assert Times(b[j := fp], 0) + One(0 == b[j]) == Times(b, 0) + One(0 == fp);
    SetNonZero(f, i, b[j := fp]);
    var (b1, ok) := Overwrite(At(f1, i1), 0, out);
    SetNonZero(f1, i1, b1);
    if ok {
      assert Times(b1, 0) + One(0 == 0) == Times(At(f1, i1), 0) + One(0 == out);
    } else {
      SetSame(f1, i1);
    }
  }

  /** A chain keeps a fingerprint in hand and fills a slot only when it ends well. */
  ghost predicate Fills(r: Kicked, used: nat) {
    r.fp != 0 && NonZero(r.f) == used + One(r.placed)
  }

  lemma {:induction false} KickNonZero(alt: Mover, f: Buckets, i: Index, fp: Print, choose: nat -> nat, left: nat)
    requires (forall n :: choose(n) < 4) && fp != 0 && Times(At(f, i), 0) == 0
    ensures Fills(Kick(alt, f, i, fp, choose, left), NonZero(f))
    decreases left
  {
    if left > 0 {
      var r := FirstAttempt(alt, f, i, fp, choose, left);
      if !r.placed {
        KickNonZero(alt, r.f, r.i, r.fp, choose, left - 1);
      }
    }
  }

  lemma FirstAttempt(alt: Mover, f: Buckets, i: Index, fp: Print, choose: nat -> nat, left: nat) returns (r: Kicked)
    requires (forall n :: choose(n) < 4) && fp != 0 && Times(At(f, i), 0) == 0 && left > 0
    ensures Kick(alt, f, i, fp, choose, left) == if r.placed then r else Kick(alt, r.f, r.i, r.fp, choose, left - 1)
    ensures Fills(r, NonZero(f)) && (!r.placed ==> Times(At(r.f, r.i), 0) == 0)
  {
    r := Attempt(alt, f, i, fp, choose(left));
    AttemptNonZero(alt, f, i, fp, choose(left));
  }

  /** How an insertion ended; an exhausted one leaves a fingerprint without a place. */
  datatype Outcome = Duplicate | Inserted | Exhausted(fp: Print, i: Index)

  function Insert(alt: Mover, f: Buckets, id: TxId, coin: bool, choose: nat -> nat): (Buckets, Outcome)
    requires forall n :: choose(n) < 4
  {
    var fp, a := Fingerprint(id), Home(id);
    var b := alt(a, fp);
    if Lookup(alt, f, id) then (f, Duplicate)
    else
      var (ba, okA) := Overwrite(At(f, a), 0, fp);
      if okA then (Set(f, a, ba), Inserted)
      else
        var (bb, okB) := Overwrite(At(f, b), 0, fp);
        if okB then (Set(f, b, bb), Inserted)
        else
          var r := Kick(alt, f, if coin then b else a, fp, choose, MAX_ATTEMPTS);
          (r.f, if r.placed then Inserted else Exhausted(r.fp, r.i))
  }

  /** Every stored fingerprint is conserved: a success adds the new one, an exhausted insertion loses exactly one. */
  lemma InsertOccurrences(alt: Mover, f: Buckets, id: TxId, coin: bool, choose: nat -> nat, x: Print, k: Index)
    requires Involution(alt) && (forall n :: choose(n) < 4) && x != 0
    ensures var (f', outcome) := Insert(alt, f, id, coin, choose);
      var added := One(Same(alt, Fingerprint(id), Home(id), x, k));
      match outcome
      case Duplicate => f' == f && Occurrences(alt, f, Fingerprint(id), Home(id)) > 0
      case Inserted => Occurrences(alt, f', x, k) == Occurrences(alt, f, x, k) + added
      case Exhausted(fp, i) =>
        fp != 0 && Occurrences(alt, f', x, k) + One(Same(alt, fp, i, x, k)) == Occurrences(alt, f, x, k) + added
  {
    var fp, a := Fingerprint(id), Home(id);
    var b := alt(a, fp);
    assert alt(b, fp) == a;
    LookupIsOccurrence(alt, f, id);
    if Lookup(alt, f, id) {
    } else if Times(At(f, a), 0) > 0 {
      PlaceOccurrences(alt, f, a, fp, x, k);
    } else if Times(At(f, b), 0) > 0 {
      PlaceOccurrences(alt, f, b, fp, x, k);
    } else {
      KickOccurrences(alt, f, if coin then b else a, fp, choose, MAX_ATTEMPTS, x, k);
      KickNonZero(alt, f, if coin then b else a, fp, choose, MAX_ATTEMPTS);
    }
  }

  lemma {:induction false} InsertNonZero(alt: Mover, f: Buckets, id: TxId, coin: bool, choose: nat -> nat)
    requires forall n :: choose(n) < 4
    ensures var (f', outcome) := Insert(alt, f, id, coin, choose); NonZero(f') == NonZero(f) + One(outcome.Inserted?)
  {
    var fp, a := Fingerprint(id), Home(id);
    var b := alt(a, fp);
    var (ba, okA) := Overwrite(At(f, a), 0, fp);
    var (bb, okB) := Overwrite(At(f, b), 0, fp);
    if Lookup(alt, f, id) {
    } else if okA {
      assert Times(ba, 0) + One(0 == 0) == Times(At(f, a), 0) + One(0 == fp);
      SetNonZero(f, a, ba);
    } else if okB {
      assert Times(bb, 0) + One(0 == 0) == Times(At(f, b), 0) + One(0 == fp);
      SetNonZero(f, b, bb);
    } else {
      KickNonZero(alt, f, if coin then b else a, fp, choose, MAX_ATTEMPTS);
    }
  }

  /**
   * Unless the insertion is exhausted, every ID that was reported before is still reported, and so is the new one;
   * an exhausted one can make IDs go unreported only if they share the one fingerprint and bucket pair it lost.
   */
  lemma NoFalseNegatives(alt: Mover, f: Buckets, id: TxId, coin: bool, choose: nat -> nat, other: TxId)
    requires Involution(alt) && forall n :: choose(n) < 4
    ensures var (f', outcome) := Insert(alt, f, id, coin, choose);
      && (!outcome.Exhausted? ==> Lookup(alt, f', id))
      && (!outcome.Exhausted? && Lookup(alt, f, other) ==> Lookup(alt, f', other))
      && (outcome.Exhausted? && Lookup(alt, f, other) && !Lookup(alt, f', other) ==>
            Same(alt, outcome.fp, outcome.i, Fingerprint(other), Home(other)))
  {
    var (f', outcome) := Insert(alt, f, id, coin, choose);
    InsertOccurrences(alt, f, id, coin, choose, Fingerprint(id), Home(id));
    InsertOccurrences(alt, f, id, coin, choose, Fingerprint(other), Home(other));
    LookupIsOccurrence(alt, f, other);
    LookupIsOccurrence(alt, f', other);
    LookupIsOccurrence(alt, f', id);
    LookupIsOccurrence(alt, f, id);
  }

  function Delete(alt: Mover, f: Buckets, id: TxId): (Buckets, bool) {
    var fp, a := Fingerprint(id), Home(id);
    var (ba, okA) := Overwrite(At(f, a), fp, 0);
    if okA then (Set(f, a, ba), true)
    else
      var b := alt(a, fp);
      var (bb, okB) := Overwrite(At(f, b), fp, 0);
      (Set(f, b, bb), okB)
  }

  /** A deletion removes one copy of the ID's fingerprint if the ID was reported, and otherwise changes nothing. */
  lemma {:induction false} DeleteOccurrences(alt: Mover, f: Buckets, id: TxId, x: Print, k: Index)
    requires Involution(alt) && x != 0
    ensures var (f', ok) := Delete(alt, f, id);
      && (ok <==> Lookup(alt, f, id))
      && Occurrences(alt, f', x, k) + (if ok then One(Same(alt, Fingerprint(id), Home(id), x, k)) else 0)
         == Occurrences(alt, f, x, k)
      && NonZero(f') == NonZero(f) - One(ok)
  {
    var fp, a := Fingerprint(id), Home(id);
    var b := alt(a, fp);
    assert alt(b, fp) == a;
    LookupIsOccurrence(alt, f, id);
    var (ba, okA) := Overwrite(At(f, a), fp, 0);
    var (bb, okB) := Overwrite(At(f, b), fp, 0);
    if okA {
      RemoveOne(alt, f, a, fp, x, k);
    } else if okB {
      RemoveOne(alt, f, b, fp, x, k);
    } else {
      SetOccurrences(alt, f, b, bb, x, k);
      SetNonZero(f, b, bb);
    }
  }

  /**
   * Deleting one ID makes another one go unreported if and only if both have the same fingerprint in the same pair of
   * buckets and only one occurrence of it was left.
   */
  lemma DeleteHides(alt: Mover, f: Buckets, id: TxId, other: TxId)
    requires Involution(alt) && Lookup(alt, f, other)
    ensures var (f', ok) := Delete(alt, f, id);
      !Lookup(alt, f', other) <==>
        && Same(alt, Fingerprint(id), Home(id), Fingerprint(other), Home(other))
        && Occurrences(alt, f, Fingerprint(other), Home(other)) == 1
  {
    var (f', ok) := Delete(alt, f, id);
    var x, k := Fingerprint(other), Home(other);
    DeleteOccurrences(alt, f, id, x, k);
    LookupIsOccurrence(alt, f, other);
    LookupIsOccurrence(alt, f', other);
    LookupIsOccurrence(alt, f, id);
    if Same(alt, Fingerprint(id), Home(id), x, k) {
      SameOccurrences(alt, f, Fingerprint(id), Home(id), k);
    }
  }

  /** A fingerprint has the same occurrences counted from either of its buckets. */
  lemma SameOccurrences(alt: Mover, f: Buckets, fp: Print, i: Index, k: Index)
    requires Involution(alt) && Same(alt, fp, i, fp, k)
    ensures Occurrences(alt, f, fp, k) == Occurrences(alt, f, fp, i)
  {
    assert alt(alt(i, fp), fp) == i;
  }

  lemma {:induction false} RemoveOne(alt: Mover, f: Buckets, i: Index, fp: Print, x: Print, k: Index)
    requires Involution(alt) && x != 0 && fp != 0 && Overwrite(At(f, i), fp, 0).1
    ensures var f' := Set(f, i, Overwrite(At(f, i), fp, 0).0);
      && Occurrences(alt, f', x, k) + One(Same(alt, fp, i, x, k)) == Occurrences(alt, f, x, k)
      && NonZero(f') == NonZero(f) - 1
  {
    var b, b' := At(f, i), Overwrite(At(f, i), fp, 0).0;
    SetOccurrences(alt, f, i, b', x, k);
    SetNonZero(f, i, b');
    assert Times(b', x) + One(x == fp) == Times(b, x) + One(x == 0);
    assert Times(b', 0) + One(0 == fp) == Times(b, 0) + One(0 == 0);
  }

  class Filter {
    const alt: Mover
    const buckets: array<Bucket>
    var count: nat

    /** The counter is the number of slots in use. */
    ghost predicate Valid()
      reads this, buckets
    {
      Involution(alt) && buckets.Length == NUM_BUCKETS && count == NonZero(buckets[..])
    }

    ghost function View(): Buckets
      requires buckets.Length == NUM_BUCKETS
      reads this, buckets
    {
      buckets[..]
    }

    constructor ()
      ensures Valid() && fresh(buckets) && count == 0 && alt == Alt
      ensures forall i :: 0 <= i < NUM_BUCKETS ==> buckets[i] == EMPTY
    {
      AltIsInvolution();
      alt := Alt;
      buckets := new Bucket[NUM_BUCKETS](_ => EMPTY);
      count := 0;
      new;
      NoneUsed(buckets[..]);
    }

    method InsertId(id: TxId, coin: bool, choose: nat -> nat) returns (ok: bool)
      requires Valid() && forall n :: choose(n) < 4
      modifies this`count, buckets
      ensures Valid()
      ensures var (f, outcome) := Insert(alt, old(View()), id, coin, choose); View() == f && (ok <==> outcome.Inserted?)
      ensures count == old(count) + One(ok)
    {
      InsertNonZero(alt, View(), id, coin, choose);
      ok := Place(id, coin, choose);
      if ok {
        count := count + 1;
      }
    }

    /** The table part of Insert: not a duplicate, then bucket A, then bucket B, then evictions from one of them. */
    method Place(id: TxId, coin: bool, choose: nat -> nat) returns (ok: bool)
      requires buckets.Length == NUM_BUCKETS && forall n :: choose(n) < 4
      modifies buckets
      ensures var (f, outcome) := Insert(alt, old(View()), id, coin, choose); View() == f && (ok <==> outcome.Inserted?)
    {
      var fp, a := Fingerprint(id), Home(id);
      var b := alt(a, fp);
      if IndexOf(buckets[a], fp) > -1 || IndexOf(buckets[b], fp) > -1 {
        return false;
      }
      ok := InsertInto(a, fp);
      if ok {
        return;
      }
      ok := InsertInto(b, fp);
      if ok {
        return;
      }
      var i := a;
      if coin {
        i := b;
      }
      ok := Evict(i, fp, choose, MAX_ATTEMPTS);
    }

    /** Bucket.Insert on one bucket of the table. */
    method InsertInto(i: Index, fp: Print) returns (ok: bool)
      requires buckets.Length == NUM_BUCKETS
      modifies buckets
      ensures var (b, done) := Overwrite(At(old(View()), i), 0, fp); ok == done && View() == Set(old(View()), i, b)
      ensures !ok ==> View() == old(View())
    {
      var (b, done) := Overwrite(buckets[i], 0, fp);
      buckets[i] := b;
      ok := done;
    }

    /** The eviction loop. */
    method Evict(start: Index, first: Print, choose: nat -> nat, attempts: nat) returns (ok: bool)
      requires buckets.Length == NUM_BUCKETS && forall n :: choose(n) < 4
      modifies buckets
      ensures var r := Kick(alt, old(View()), start, first, choose, attempts); View() == r.f && ok == r.placed
    {
      var i, fp := start, first;
      ghost var r := Kick(alt, View(), start, first, choose, attempts);
      for left := attempts downto 0
        invariant Kick(alt, View(), i, fp, choose, left) == r
      {
        var out, done := Round(i, fp, choose(left + 1));
        i, fp := alt(i, out), out;
        if done {
          return true;
        }
      }
      return false;
    }

    /** One round of the eviction loop. */
    method Round(i: Index, fp: Print, j: nat) returns (out: Print, done: bool)
      requires buckets.Length == NUM_BUCKETS && j < 4
      modifies buckets
      ensures Attempt(alt, old(View()), i, fp, j) == Kicked(View(), out, alt(i, out), done)
    {
      ghost var f := View();
      out := buckets[i][j];
      buckets[i] := buckets[i][j := fp];
      assert View() == Swap(f, i, j, fp).0;
      done := InsertInto(alt(i, out), out);
    }

    method DeleteId(id: TxId) returns (ok: bool)
      requires Valid()
      modifies this`count, buckets
      ensures Valid() && (View(), ok) == Delete(alt, old(View()), id)
      ensures count == old(count) - One(ok)
    {
      DeleteOccurrences(alt, View(), id, 1, 0);
      var fp, a := Fingerprint(id), Home(id);
      var (ba, okA) := Overwrite(buckets[a], fp, 0);
      if okA {
        buckets[a] := ba;
        count := count - 1;
        return true;
      }
      var b := alt(a, fp);
      var (bb, okB) := Overwrite(buckets[b], fp, 0);
      buckets[b] := bb;
      if okB {
        count := count - 1;
      }
      ok := okB;
    }

    method LookupId(id: TxId) returns (found: bool)
      requires Valid()
      ensures found <==> Lookup(alt, View(), id)
    {
      var fp, a := Fingerprint(id), Home(id);
      found := IndexOf(buckets[a], fp) > -1 || IndexOf(buckets[alt(a, fp)], fp) > -1;
    }
  }

  lemma {:induction false} NoneUsed(f: seq<Bucket>)
    requires forall i :: 0 <= i < |f| ==> f[i] == EMPTY
    ensures NonZero(f) == 0
    decreases |f|
  {
    if f != [] { NoneUsed(f[1..]); }
  }
}
