/** The mempool (transactions.go): buffered transactions, missing and finalised IDs, and the ordered index. */
module Mempool {
  import opened Bytes
  import opened SortedSeq
  import opened Traversal
  import BTree

  type TxId = Key

  datatype Tx = Tx(id: TxId, block: nat)

  datatype Block = Block(index: nat, id: Key, txs: seq<TxId>)

  /** The hash, the height an ID commits to, and the two limits from the configuration. */
  datatype Env = Env(hash: Key -> Key, heightOf: TxId -> nat, pruningLimit: nat, blockTxLimit: nat)

  ghost predicate Injective(hash: Key -> Key) {
    forall a, b :: hash(a) == hash(b) ==> a == b
  }

  /** ComputeIndex: the hash of the transaction ID followed by the block ID. */
  function IndexKey(env: Env, id: TxId, block: Key): Key {
    env.hash(id + block)
  }

  lemma IndexKeyInjective(env: Env, a: TxId, b: TxId, block: Key)
    requires Injective(env.hash) && IndexKey(env, a, block) == IndexKey(env, b, block)
    ensures a == b
  {
    assert a + block == b + block;
    assert a == (a + block)[..|a|] && b == (b + block)[..|b|];
  }

  /** The block height from which a transaction is too old, in 64-bit arithmetic. */
  function Expiry(env: Env, block: nat): nat {
    (block + env.pruningLimit) % TWO64
  }

  /** The state of the pool, with the index as its ordered entries. */
  datatype Pool = Pool(
    buffer: map<TxId, Tx>, missing: map<TxId, nat>, finalized: set<TxId>, index: seq<Entry<TxId>>, latest: Block)

  function Add(env: Env, p: Pool, tx: Tx): Pool {
    if p.latest.index >= Expiry(env, tx.block) then p.(missing := p.missing - {tx.id})
    else if tx.id in p.buffer then p
    else
      p.(index := if tx.id in p.finalized then p.index else Put(p.index, IndexKey(env, tx.id, p.latest.id), tx.id),
         buffer := p.buffer[tx.id := tx],
         missing := p.missing - {tx.id})
  }

  function MarkMissing(p: Pool, id: TxId): (Pool, bool) {
    if id in p.buffer then (p, false) else (p.(missing := p.missing[id := p.latest.index]), true)
  }

  /** One step of the scan that rebuilds the index for the next block. */
  function Reinsert(env: Env, p: Pool, next: Block, id: TxId, index: seq<Entry<TxId>>): seq<Entry<TxId>> {
    if id !in p.finalized && id in p.buffer && next.index < Expiry(env, p.buffer[id].block)
    then Put(index, IndexKey(env, id, next.id), id)
    else index
  }

  function Reindex(env: Env, p: Pool, next: Block, entries: seq<Entry<TxId>>): seq<Entry<TxId>> {
    if entries == [] then []
    else
      var n := |entries| - 1;
      Reinsert(env, p, next, entries[n].value, Reindex(env, p, next, entries[..n]))
  }

  function Stale(env: Env, p: Pool, next: Block): set<TxId> {
    set id | id in p.buffer && next.index >= Expiry(env, p.buffer[id].block)
  }

  function Reshuffle(env: Env, p: Pool, next: Block): Pool {
    var marked := p.(finalized := p.finalized + (set id | id in next.txs));
    var stale := Stale(env, p, next);
    Pool(p.buffer - stale,
         (map id | id in p.missing && next.index < (p.missing[id] + env.pruningLimit) % TWO64 :: p.missing[id]),
         marked.finalized - stale,
         Reindex(env, marked, next, p.index),
         next)
  }

  /** Transactions that may enter the next block, in index order, up to the limit. */
  function ProposeCallback(buffer: map<TxId, Tx>, height: nat, limit: nat): Callback<seq<TxId>, Entry<TxId>> {
    (s: seq<TxId>, e: Entry<TxId>) =>
      var s' := if e.value in buffer && buffer[e.value].block <= height + 1 then s + [e.value] else s;
      (s', |s'| < limit)
  }

  function Proposable(env: Env, p: Pool): seq<TxId> {
    var limit := if |p.index| < env.blockTxLimit then |p.index| else env.blockTxLimit;
    Feed([], p.index, ProposeCallback(p.buffer, p.latest.index, limit)).0
  }

  /** The index holds exactly the buffered transactions that are not final, each under its key for the latest block. */
  ghost predicate IndexExact(env: Env, p: Pool) {
    && Sorted(p.index)
    && (forall i :: 0 <= i < |p.index| ==>
          var e := p.index[i];
          e.value in p.buffer && e.value !in p.finalized && e.key == IndexKey(env, e.value, p.latest.id))
    && (forall id :: id in p.buffer && id !in p.finalized ==> Get(p.index, IndexKey(env, id, p.latest.id)) == Some(id))
  }

  ghost predicate Inv(env: Env, p: Pool) {
    && Injective(env.hash)
    && (forall id :: id in p.buffer ==> p.buffer[id] == Tx(id, env.heightOf(id)))
    && (forall id :: id in p.buffer ==> p.latest.index < Expiry(env, env.heightOf(id)))
    && p.missing.Keys !! p.buffer.Keys
    && IndexExact(env, p)
  }

  lemma {:induction false} PutEntries(s: seq<Entry<TxId>>, k: Key, v: TxId, i: nat)
    requires i < |Put(s, k, v)|
    ensures Put(s, k, v)[i] == Entry(k, v) || Put(s, k, v)[i] in s
    decreases |s|
  {
    if s != [] && k != s[0].key && !Less(k, s[0].key) && i > 0 {
      PutEntries(s[1..], k, v, i - 1);
    }
  }

  lemma {:induction false} PutGet(s: seq<Entry<TxId>>, k: Key, v: TxId, k': Key)
    ensures Get(Put(s, k, v), k') == if k' == k then Some(v) else Get(s, k')
  {
    PutIsMap(s, k, v);
    GetIsMap(Put(s, k, v), k');
    GetIsMap(s, k');
  }

  /** The ID commits to the height recorded in the transaction. */
  ghost predicate Genuine(env: Env, tx: Tx) {
    tx.block == env.heightOf(tx.id)
  }

  lemma AddInv(env: Env, p: Pool, tx: Tx)
    requires Inv(env, p) && Genuine(env, tx)
    ensures Inv(env, Add(env, p, tx))
  {
    var p' := Add(env, p, tx);
    if tx.id in p'.buffer && tx.id !in p.buffer && tx.id !in p.finalized {
      var key := IndexKey(env, tx.id, p.latest.id);
      PutSorted(p.index, key, tx.id);
      forall i | 0 <= i < |p'.index|
        ensures var e := p'.index[i];
          e.value in p'.buffer && e.value !in p'.finalized && e.key == IndexKey(env, e.value, p'.latest.id)
      {
        PutEntries(p.index, key, tx.id, i);
      }
      forall id | id in p'.buffer && id !in p'.finalized
        ensures Get(p'.index, IndexKey(env, id, p'.latest.id)) == Some(id)
      {
        PutGet(p.index, key, tx.id, IndexKey(env, id, p.latest.id));
        if IndexKey(env, id, p.latest.id) == key { IndexKeyInjective(env, id, tx.id, p.latest.id); }
      }
    }
  }

  /** The transaction stays in the index when the pool moves on to the next block. */
  predicate Survives(env: Env, p: Pool, next: Block, id: TxId) {
    id !in p.finalized && id in p.buffer && next.index < Expiry(env, p.buffer[id].block)
  }

  lemma {:induction false} ReindexEntries(env: Env, p: Pool, next: Block, entries: seq<Entry<TxId>>)
    ensures Sorted(Reindex(env, p, next, entries))
    ensures forall i :: 0 <= i < |Reindex(env, p, next, entries)| ==>
      var e := Reindex(env, p, next, entries)[i];
      Survives(env, p, next, e.value) && e.key == IndexKey(env, e.value, next.id)
    decreases |entries|
  {
    if entries != [] {
      var n := |entries| - 1;
      ReindexEntries(env, p, next, entries[..n]);
      var before, id := Reindex(env, p, next, entries[..n]), entries[n].value;
      if Survives(env, p, next, id) {
        PutSorted(before, IndexKey(env, id, next.id), id);
        forall i | 0 <= i < |Put(before, IndexKey(env, id, next.id), id)|
          ensures var e := Put(before, IndexKey(env, id, next.id), id)[i];
            Survives(env, p, next, e.value) && e.key == IndexKey(env, e.value, next.id)
        {
          PutEntries(before, IndexKey(env, id, next.id), id, i);
        }
      }
    }
  }

  lemma {:induction false} ReindexKeeps(env: Env, p: Pool, next: Block, entries: seq<Entry<TxId>>, k: nat)
    requires Injective(env.hash) && k < |entries| && Survives(env, p, next, entries[k].value)
    ensures Get(Reindex(env, p, next, entries), IndexKey(env, entries[k].value, next.id)) == Some(entries[k].value)
    decreases |entries|
  {
    var n, id := |entries| - 1, entries[k].value;
    var before, last := Reindex(env, p, next, entries[..n]), entries[n].value;
    if k < n {
      ReindexKeeps(env, p, next, entries[..n], k);
    }
    if Survives(env, p, next, last) {
      PutGet(before, IndexKey(env, last, next.id), last, IndexKey(env, id, next.id));
      if IndexKey(env, last, next.id) == IndexKey(env, id, next.id) { IndexKeyInjective(env, last, id, next.id); }
    }
  }

  /** An entry that Get finds is in the list. */
  lemma {:induction false} GetFinds(s: seq<Entry<TxId>>, key: Key) returns (k: nat)
    requires Get(s, key).Some?
    ensures k < |s| && s[k] == Entry(key, Get(s, key).value)
    decreases |s|
  {
    if s[0].key == key {
      k := 0;
    } else {
      var j := GetFinds(s[1..], key);
      k := j + 1;
    }
  }

  lemma ReshuffleIndex(env: Env, p: Pool, next: Block)
    requires Inv(env, p)
    ensures IndexExact(env, Reshuffle(env, p, next))
  {
    var marked := p.(finalized := p.finalized + (set id | id in next.txs));
    var p' := Reshuffle(env, p, next);
    ReindexEntries(env, marked, next, p.index);
    forall id | id in p'.buffer && id !in p'.finalized
      ensures Get(p'.index, IndexKey(env, id, next.id)) == Some(id)
    {
      assert Survives(env, marked, next, id);
      var k := GetFinds(p.index, IndexKey(env, id, p.latest.id));
      ReindexKeeps(env, marked, next, p.index, k);
    }
  }

  lemma ReshuffleInv(env: Env, p: Pool, next: Block)
    requires Inv(env, p)
    ensures Inv(env, Reshuffle(env, p, next))
  {
    ReshuffleIndex(env, p, next);
  }

  datatype Event = AddEvent(tx: Tx) | MissingEvent(id: TxId) | ReshuffleEvent(next: Block)

  function Apply(env: Env, p: Pool, e: Event): Pool {
    match e
    case AddEvent(tx) => Add(env, p, tx)
    case MissingEvent(id) => MarkMissing(p, id).0
    case ReshuffleEvent(next) => Reshuffle(env, p, next)
  }

  /** Transactions are genuine and heights never go down. */
  ghost predicate Proper(env: Env, p: Pool, e: Event) {
    match e
    case AddEvent(tx) => Genuine(env, tx)
    case MissingEvent(_) => true
    case ReshuffleEvent(next) => p.latest.index <= next.index
  }

  /** Every ID that some block of the run finalised is still marked, or has expired for good. */
  ghost predicate FinalForGood(env: Env, p: Pool, ever: set<TxId>) {
    forall id :: id in ever ==> id in p.finalized || p.latest.index >= Expiry(env, env.heightOf(id))
  }

  function Finalised(e: Event): set<TxId> {
    if e.ReshuffleEvent? then set id | id in e.next.txs else {}
  }

  lemma ApplyInv(env: Env, p: Pool, e: Event, ever: set<TxId>)
    requires Inv(env, p) && FinalForGood(env, p, ever) && Proper(env, p, e)
    ensures Inv(env, Apply(env, p, e)) && FinalForGood(env, Apply(env, p, e), ever + Finalised(e))
  {
    match e
    case AddEvent(tx) => AddInv(env, p, tx);
    case MissingEvent(id) =>
    case ReshuffleEvent(next) => ReshuffleInv(env, p, next);
  }

  /** The IDs of the index that may enter the next block, in index order. */
  function Eligible(p: Pool, entries: seq<Entry<TxId>>): seq<TxId> {
    if entries == [] then []
    else
      var id := entries[0].value;
      (if id in p.buffer && p.buffer[id].block <= p.latest.index + 1 then [id] else []) + Eligible(p, entries[1..])
  }

  function Take(s: seq<TxId>, n: nat): seq<TxId> {
    if |s| <= n then s else s[..n]
  }

  lemma {:induction false} FeedTakes(p: Pool, limit: nat, entries: seq<Entry<TxId>>, s: seq<TxId>)
    requires |s| < limit
    ensures Feed(s, entries, ProposeCallback(p.buffer, p.latest.index, limit)).0
         == Take(s + Eligible(p, entries), limit)
    decreases |entries|
  {
    if entries == [] {
      assert s + [] == s;
    } else {
      var (s', more) := ProposeCallback(p.buffer, p.latest.index, limit)(s, entries[0]);
      assert s' + Eligible(p, entries[1..]) == s + Eligible(p, entries);
      if more {
        FeedTakes(p, limit, entries[1..], s');
      }
    }
  }

  lemma {:induction false} EligibleIds(p: Pool, entries: seq<Entry<TxId>>)
    ensures |Eligible(p, entries)| <= |entries|
    ensures forall id :: id in Eligible(p, entries) ==>
      && id in p.buffer && p.buffer[id].block <= p.latest.index + 1
      && exists i :: 0 <= i < |entries| && entries[i].value == id
  {
    if entries != [] {
      EligibleIds(p, entries[1..]);
      forall id | id in Eligible(p, entries)
        ensures id in p.buffer && p.buffer[id].block <= p.latest.index + 1
        ensures exists i :: 0 <= i < |entries| && entries[i].value == id
      {
        if id in Eligible(p, entries[1..]) {
          var i :| 0 <= i < |entries[1..]| && entries[1..][i].value == id;
          assert entries[i + 1].value == id;
        } else {
          assert entries[0].value == id;
        }
      }
    }
  }

  function FirstEntry(p: Pool): seq<Entry<TxId>> {
    if p.index == [] then [] else [p.index[0]]
  }

  /**
   * ProposableIDs: the first eligible IDs in index order, as many as a block may hold. The scan compares after it
   * has appended, so a limit of zero is overstepped if and only if the very first entry is eligible.
   */
  lemma {:induction false} ProposableIsPrefix(env: Env, p: Pool)
    ensures Proposable(env, p) == Take(Eligible(p, p.index), env.blockTxLimit) <==>
      env.blockTxLimit > 0 || Eligible(p, FirstEntry(p)) == []
    ensures env.blockTxLimit == 0 ==> Proposable(env, p) == Eligible(p, FirstEntry(p))
    ensures Proposable(env, p) <= Eligible(p, p.index)
  {
    EligibleIds(p, p.index);
    var limit := if |p.index| < env.blockTxLimit then |p.index| else env.blockTxLimit;
    if p.index != [] {
      if limit > 0 {
        FeedTakes(p, limit, p.index, []);
        assert [] + Eligible(p, p.index) == Eligible(p, p.index);
      } else {
        assert FirstEntry(p)[1..] == [];
      }
    }
  }

  function Run(env: Env, p: Pool, events: seq<Event>): Pool {
    if events == [] then p else Apply(env, Run(env, p, events[..|events| - 1]), events[|events| - 1])
  }

  function EverFinalised(events: seq<Event>): set<TxId> {
    if events == [] then {} else EverFinalised(events[..|events| - 1]) + Finalised(events[|events| - 1])
  }

  ghost predicate ProperRun(env: Env, p: Pool, events: seq<Event>) {
    events == [] ||
    var fewer := events[..|events| - 1];
    ProperRun(env, p, fewer) && Proper(env, Run(env, p, fewer), events[|events| - 1])
  }

  function Empty(latest: Block): Pool {
    Pool(map[], map[], {}, [], latest)
  }

  lemma {:induction false} RunInv(env: Env, latest: Block, events: seq<Event>)
    requires Injective(env.hash) && ProperRun(env, Empty(latest), events)
    ensures Inv(env, Run(env, Empty(latest), events))
    ensures FinalForGood(env, Run(env, Empty(latest), events), EverFinalised(events))
    decreases |events|
  {
    if events != [] {
      var n := |events| - 1;
      RunInv(env, latest, events[..n]);
      ApplyInv(env, Run(env, Empty(latest), events[..n]), events[n], EverFinalised(events[..n]));
    }
  }

  /**
   * After any run of additions, missing marks and reshuffles with heights that never go down: what is proposable is
   * buffered, fresh and indexed, and an ID that some block of the run finalised is never proposable again, whether
   * or not its mark has been pruned since.
   */
  lemma {:induction false} NeverProposedAgain(env: Env, latest: Block, events: seq<Event>, id: TxId)
    requires Injective(env.hash) && ProperRun(env, Empty(latest), events)
    requires id in Proposable(env, Run(env, Empty(latest), events))
    ensures id !in EverFinalised(events)
    ensures var p := Run(env, Empty(latest), events);
      && id in p.buffer && id !in p.finalized && id !in p.missing
      && p.latest.index < Expiry(env, p.buffer[id].block) && p.buffer[id].block <= p.latest.index + 1
  {
    RunInv(env, latest, events);
    ProposableIsSafe(env, Run(env, Empty(latest), events), EverFinalised(events), id);
  }

  lemma ProposableIsSafe(env: Env, p: Pool, ever: set<TxId>, id: TxId)
    requires Inv(env, p) && FinalForGood(env, p, ever) && id in Proposable(env, p)
    ensures id !in ever
    ensures id in p.buffer && id !in p.finalized && id !in p.missing
    ensures p.latest.index < Expiry(env, p.buffer[id].block) && p.buffer[id].block <= p.latest.index + 1
  {
    ProposableIsPrefix(env, p);
    EligibleIds(p, p.index);
    assert id in Eligible(p, p.index);
    var i :| 0 <= i < |p.index| && p.index[i].value == id;
  }

  /** The missing IDs after some have been asked for: each unknown one is recorded at the height of the latest block. */
  function Missed(missing: map<TxId, nat>, buffer: map<TxId, Tx>, height: nat, ids: seq<TxId>): map<TxId, nat> {
    missing + (map id | id in ids && id !in buffer :: height)
  }

  lemma NoneMissed(missing: map<TxId, nat>, buffer: map<TxId, Tx>, height: nat)
    ensures Missed(missing, buffer, height, []) == missing
  {
  }

  lemma MissedStep(missing: map<TxId, nat>, buffer: map<TxId, Tx>, height: nat, ids: seq<TxId>, id: TxId)
    ensures Missed(missing, buffer, height, ids + [id]) ==
      if id in buffer then Missed(missing, buffer, height, ids) else Missed(missing, buffer, height, ids)[id := height]
  {
  }

  /** The keys under which the eligible IDs of a list are filed ascend. */
  lemma {:induction false} EligibleAscends(env: Env, p: Pool, entries: seq<Entry<TxId>>)
    requires Sorted(entries)
    requires forall i :: 0 <= i < |entries| ==> entries[i].key == IndexKey(env, entries[i].value, p.latest.id)
    ensures var ids := Eligible(p, entries);
      forall i, j :: 0 <= i < j < |ids| ==>
        Less(IndexKey(env, ids[i], p.latest.id), IndexKey(env, ids[j], p.latest.id))
    decreases |entries|
  {
    if entries != [] {
      var rest := entries[1..];
      EligibleAscends(env, p, rest);
      EligibleIds(p, rest);
      forall id | id in Eligible(p, rest)
        ensures Less(entries[0].key, IndexKey(env, id, p.latest.id))
      {
        var i :| 0 <= i < |rest| && rest[i].value == id;
        assert rest[i] == entries[i + 1];
      }
    }
  }

  /** What a node proposes is strictly ascending in the order that votes are checked for. */
  lemma ProposableAscends(env: Env, p: Pool)
    requires Inv(env, p)
    ensures var ids := Proposable(env, p);
      forall i :: 0 < i < |ids| ==>
        Less(IndexKey(env, ids[i - 1], p.latest.id), IndexKey(env, ids[i], p.latest.id))
  {
    EligibleAscends(env, p, p.index);
    ProposableIsPrefix(env, p);
  }

  class Transactions {
    const env: Env
    var buffer: map<TxId, Tx>
    var missing: map<TxId, nat>
    var finalized: set<TxId>
    var index: BTree.BTree<TxId>
    var latest: Block

    ghost function View(): Pool
      reads this, index
    {
      Pool(buffer, missing, finalized, index.Contents(), latest)
    }

    /** The index is an object of its own. */
    ghost predicate Indexed()
      reads this, index, index.footprint
    {
      index.Valid() && this !in index.footprint
    }

    ghost predicate Valid()
      reads this, index, index.footprint
    {
      Indexed() && Inv(env, View())
    }

    constructor (env: Env, latest: Block)
      requires Injective(env.hash)
      ensures Valid() && fresh(index.footprint) && this.env == env && View() == Empty(latest)
    {
      this.env := env;
      buffer, missing, finalized, this.latest := map[], map[], {}, latest;
      index := new BTree.BTree<TxId>();
    }

    method AddTx(tx: Tx)
      requires Valid() && Genuine(env, tx)
      modifies this, index.footprint
      ensures Valid() && index == old(index) && fresh(index.footprint - old(index.footprint))
      ensures View() == Add(env, old(View()), tx)
    {
      AddInv(env, View(), tx);
      if latest.index >= Expiry(env, tx.block) {
        missing := missing - {tx.id};
        return;
      }
      if tx.id in buffer {
        return;
      }
      if tx.id !in finalized {
        var _ := index.Set(IndexKey(env, tx.id, latest.id), tx.id);
      }
      buffer := buffer[tx.id := tx];
      missing := missing - {tx.id};
    }

    method Mark(id: TxId) returns (isMissing: bool)
      requires Valid()
      modifies this`missing
      ensures Valid() && (View(), isMissing) == MarkMissing(old(View()), id)
    {
      if id in buffer {
        return false;
      }
      missing := missing[id := latest.index];
      isMissing := true;
    }

    /** Marks every unknown ID and says whether there was one. */
    method BatchMarkMissing(ids: seq<TxId>) returns (any: bool)
      requires Valid()
      modifies this`missing
      ensures Valid()
      ensures any <==> exists id :: id in ids && id !in buffer
      ensures missing == Missed(old(missing), buffer, latest.index, ids)
    {
      hide Missed, BTree.BTree.Valid;
      NoneMissed(missing, buffer, latest.index);
      assert ids[..0] == [];
      any := false;
      for i := 0 to |ids|
        invariant Valid()
        invariant any <==> exists id :: id in ids[..i] && id !in buffer
        invariant missing == Missed(old(missing), buffer, latest.index, ids[..i])
      {
        assert ids[..i + 1] == ids[..i] + [ids[i]];
        MissedStep(old(missing), buffer, latest.index, ids[..i], ids[i]);
        var m := Mark(ids[i]);
        if m {
          any := true;
        }
      }
      assert ids[..|ids|] == ids;
    }

    /** All the transactions, in order, or none if one is unknown. */
    method BatchFind(ids: seq<TxId>) returns (txs: Option<seq<Tx>>)
      ensures txs == LookupAll(buffer, ids)
    {
      var found := [];
      for i := 0 to |ids|
        invariant |found| == i && forall j :: 0 <= j < i ==> ids[j] in buffer && found[j] == buffer[ids[j]]
      {
        if ids[i] !in buffer {
          return None;
        }
        found := found + [buffer[ids[i]]];
      }
      assert found == LookupAll(buffer, ids).value;
      txs := Some(found);
    }

    method ProposableIDs() returns (ids: seq<TxId>)
      requires Valid()
      ensures ids == Proposable(env, View())
    {
      var n := index.Len();
      var limit := if n < env.blockTxLimit then n else env.blockTxLimit;
      ids := index.Scan([], ProposeCallback(buffer, latest.index, limit));
    }

    /**
     * Moves on to the next block: marks its transactions as final, rebuilds the index, and prunes what is too old.
     * Returns the pruned IDs, each once.
     */
    method ReshufflePending(next: Block) returns (pruned: seq<TxId>)
      requires Valid()
      modifies this
      ensures Valid() && fresh(index.footprint) && View() == Reshuffle(env, old(View()), next)
      ensures (set id | id in pruned) == Stale(env, old(View()), next)
      ensures forall i, j :: 0 <= i < j < |pruned| ==> pruned[i] != pruned[j]
    {
      ReshuffleInv(env, View(), next);
      assert forall i :: 0 <= i < |index.Contents()| ==> index.Contents()[i].value in buffer;
      pruned := Rotate(next);
    }

    /** The steps of ReshufflePending. */
    method Rotate(next: Block) returns (pruned: seq<TxId>)
      requires Indexed() && forall i :: 0 <= i < |index.Contents()| ==> index.Contents()[i].value in buffer
      modifies this
      ensures Indexed() && fresh(index.footprint) && View() == Reshuffle(env, old(View()), next)
      ensures (set id | id in pruned) == Stale(env, old(View()), next)
      ensures forall i, j :: 0 <= i < j < |pruned| ==> pruned[i] != pruned[j]
    {
      finalized := finalized + (set id | id in next.txs);
      RefreshIndex(next);
      pruned := PruneBuffer(next);
      missing := map id | id in missing && next.index < (missing[id] + env.pruningLimit) % TWO64 :: missing[id];
      latest := next;
    }

    /** Replaces the index by the one for the next block. */
    method RefreshIndex(next: Block)
      requires Indexed() && forall i :: 0 <= i < |index.Contents()| ==> index.Contents()[i].value in buffer
      modifies this`index
      ensures fresh(index.footprint) && Indexed()
      ensures index.Contents() == Reindex(env, old(View()), next, old(index.Contents()))
    {
      hide BTree.BTree.Valid, Reindex, Feed;
      var entries := index.Scan([], Gather);
      GatherAll([], index.Contents());
      assert entries == index.Contents();
      index := RebuildIndex(entries, next, View());
    }

    /** The index for the next block, from the entries of the old one. */
    method RebuildIndex(entries: seq<Entry<TxId>>, next: Block, ghost p: Pool) returns (updated: BTree.BTree<TxId>)
      requires p.buffer == buffer && p.finalized == finalized
      requires forall i :: 0 <= i < |entries| ==> entries[i].value in buffer
      ensures fresh(updated.footprint) && updated.Valid() && updated.Contents() == Reindex(env, p, next, entries)
    {
      updated := new BTree.BTree<TxId>();
      for i := 0 to |entries|
        invariant fresh(updated.footprint) && updated.Valid()
        invariant updated.Contents() == Reindex(env, p, next, entries[..i])
      {
        assert entries[..i + 1][..i] == entries[..i];
        var id := entries[i].value;
        if id in finalized {
          continue;
        }
        if next.index < Expiry(env, buffer[id].block) {
          var _ := updated.Set(IndexKey(env, id, next.id), id);
        }
      }
      assert entries[..|entries|] == entries;
    }

    /** Drops every stale transaction, with its finalised mark, in whatever order the map is walked. */
    method PruneBuffer(next: Block) returns (pruned: seq<TxId>)
      modifies this`buffer, this`finalized
      ensures var stale := (set id | id in old(buffer) && next.index >= Expiry(env, old(buffer)[id].block));
        && buffer == old(buffer) - stale && finalized == old(finalized) - stale
        && (set id | id in pruned) == stale
      ensures forall i, j :: 0 <= i < j < |pruned| ==> pruned[i] != pruned[j]
    {
      pruned := [];
      var left := buffer.Keys;
      ghost var done: set<TxId> := {};
      while left != {}
        invariant left !! done && left + done == old(buffer).Keys
        invariant forall id :: id in pruned <==> id in done && next.index >= Expiry(env, old(buffer)[id].block)
        invariant buffer == old(buffer) - (set id | id in pruned)
        invariant finalized == old(finalized) - (set id | id in pruned)
        invariant forall i, j :: 0 <= i < j < |pruned| ==> pruned[i] != pruned[j]
        decreases left
      {
        var id :| id in left;
        left, done := left - {id}, done + {id};
        if next.index >= Expiry(env, buffer[id].block) {
          buffer := buffer - {id};
          finalized := finalized - {id};
          pruned := pruned + [id];
        }
      }
    }
  }

  function Gather(s: seq<Entry<TxId>>, e: Entry<TxId>): (seq<Entry<TxId>>, bool) {
    (s + [e], true)
  }

  lemma {:induction false} GatherAll(s: seq<Entry<TxId>>, entries: seq<Entry<TxId>>)
    ensures Feed(s, entries, Gather) == (s + entries, true)
    decreases |entries|
  {
    if entries == [] {
      assert s + entries == s;
    } else {
      GatherAll(s + [entries[0]], entries[1..]);
      assert s + [entries[0]] + entries[1..] == s + entries;
    }
  }
}
