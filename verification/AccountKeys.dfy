/** Where the state tree keeps accounts, and in which bytes (db.go). */
module AccountKeys {
  import opened Bytes
  import opened Accounts

  // Numbers as bytes.

  /** n bytes, the lowest first. */
  function LittleEndian(x: nat, n: nat): (r: seq<byte>)
    ensures |r| == n
  {
    if n == 0 then [] else [(x % 256) as byte] + LittleEndian(x / 256, n - 1)
  }

  function FromLittleEndian(s: seq<byte>): nat {
    if s == [] then 0 else s[0] as nat + 256 * FromLittleEndian(s[1..])
  }

  function Power256(n: nat): nat {
    if n == 0 then 1 else 256 * Power256(n - 1)
  }

  lemma {:induction false} LittleEndianReads(x: nat, n: nat)
    requires x < Power256(n)
    ensures FromLittleEndian(LittleEndian(x, n)) == x
  {
    if n > 0 {
      LittleEndianReads(x / 256, n - 1);
    }
  }

  lemma {:induction false} FromLittleEndianBound(s: seq<byte>)
    ensures FromLittleEndian(s) < Power256(|s|)
  {
    if s != [] {
      FromLittleEndianBound(s[1..]);
    }
  }

  lemma EightBytes()
    ensures Power256(8) == TWO64
  {
    assert Power256(4) == 256 * 256 * 256 * 256;
    assert Power256(8) == 256 * 256 * 256 * 256 * Power256(4);
  }

  /** PutUint64 in little-endian order. */
  function Pack64(x: Amount): (r: seq<byte>)
    ensures |r| == 8 && Unpack64(r) == x
  {
    EightBytes();
    LittleEndianReads(x, 8);
    LittleEndian(x, 8)
  }

  function Unpack64(s: seq<byte>): Amount
    requires |s| == 8
  {
    EightBytes();
    FromLittleEndianBound(s);
    FromLittleEndian(s)
  }

  /** A signed number as the unsigned one with the same bits. */
  function Unsigned(w: Word): Amount {
    if w < 0 then w + TWO64 else w
  }

  function Signed(x: Amount): Word {
    if x < TWO64 / 2 then x else x - TWO64
  }

  function PackWords(ws: seq<Word>): (r: seq<byte>)
    ensures |r| == 8 * |ws|
  {
    if ws == [] then [] else Pack64(Unsigned(ws[0])) + PackWords(ws[1..])
  }

  function UnpackWords(s: seq<byte>): seq<Word>
    requires |s| % 8 == 0
  {
    if s == [] then [] else [Signed(Unpack64(s[..8]))] + UnpackWords(s[8..])
  }

  lemma {:induction false} WordsReadBack(ws: seq<Word>)
    ensures UnpackWords(PackWords(ws)) == ws
  {
    if ws != [] {
      WordsReadBack(ws[1..]);
      var s := PackWords(ws);
      assert s[..8] == Pack64(Unsigned(ws[0])) && s[8..] == PackWords(ws[1..]);
    }
  }

  // Keys.

  const ACCOUNTS: byte := 1
  const ACCOUNTS_LEN: byte := 2

  const BALANCE: byte := 2
  const STAKE: byte := 3
  const REWARD: byte := 4
  const CODE: byte := 5
  const NUM_PAGES: byte := 6
  const PAGES: byte := 7
  const GAS: byte := 8
  const GLOBALS: byte := 9

  function AccountKey(field: byte, id: Id): Key {
    [ACCOUNTS, field] + id
  }

  function PageKey(id: Id, k: Amount): Key {
    [ACCOUNTS, PAGES] + Pack64(k) + id
  }

  /** The key belongs to the account: its last 32 bytes are the identifier. */
  predicate Owns(id: Id, key: Key) {
    |key| >= 34 && key[0] == ACCOUNTS && key[|key| - 32..] == id
  }

  /** No two entries share a key. */
  lemma KeysAreDistinct(field: byte, id: Id, field': byte, id': Id)
    ensures AccountKey(field, id) == AccountKey(field', id') <==> field == field' && id == id'
  {
    var k, k' := AccountKey(field, id), AccountKey(field', id');
    assert k[1] == field && k'[1] == field' && k[2..] == id && k'[2..] == id';
  }

  lemma PageKeysAreDistinct(id: Id, k: Amount, id': Id, k': Amount, field: byte)
    ensures PageKey(id, k) == PageKey(id', k') <==> id == id' && k == k'
    ensures PageKey(id, k) != AccountKey(field, id')
  {
    var p, p' := PageKey(id, k), PageKey(id', k');
    assert p[2..10] == Pack64(k) && p'[2..10] == Pack64(k') && p[10..] == id && p'[10..] == id';
    assert |p| == 42 && |AccountKey(field, id')| == 34;
  }

  lemma OwnersOfKeys(field: byte, id: Id, k: Amount, other: Id)
    ensures Owns(other, AccountKey(field, id)) <==> other == id
    ensures Owns(other, PageKey(id, k)) <==> other == id
  {
    var a, p := AccountKey(field, id), PageKey(id, k);
    assert a[|a| - 32..] == id && p[|p| - 32..] == id;
  }
}
