/**
 * The finalisation loop (ledger.go): propose, query with vote filtering, tick, finalize. Peers' votes and tallies
 * are arbitrary. A block's ID is an injective hash of the block, so the block stands for its ID.
 */
module Finalizer {
  import opened Bytes
  import opened SortedSeq
  import opened Snowball

  type TxId = Key

  datatype Block = Block(index: nat, merkle: Key, txs: seq<TxId>)

  /**
   * The deterministic parts of the node: collapsing transactions over account state A at a height on top of a block,
   * the checksum of account state, a transaction's place in the mempool order and the height recorded in it.
   */
  datatype Env<!A, !T> = Env(
    collapse: (A, Block, seq<T>, nat) -> Option<A>,
    checksum: A -> Key,
    index: (TxId, Block) -> Key,
    height: T -> nat,
    pruningLimit: nat,
    params: Params)

  datatype Ledger<A, T> = Ledger(
    latest: Block, accounts: A, buffer: map<TxId, T>, validCache: set<Block>, ball: State<Block>, quorums: nat)

  /** Applying a block's transactions to the current accounts. */
  function Collapse<A, T>(env: Env<A, T>, l: Ledger<A, T>, b: Block): Option<A> {
    var txs := LookupAll(l.buffer, b.txs);
    if txs.None? then None else env.collapse(l.accounts, l.latest, txs.value, b.index)
  }

  /** No transaction of the block is too old, and they are strictly in mempool order. */
  predicate Acceptable<A, T>(env: Env<A, T>, l: Ledger<A, T>, b: Block, txs: seq<T>)
    requires |txs| == |b.txs|
  {
    && (forall i :: 0 <= i < |txs| ==> b.index < (env.height(txs[i]) + env.pruningLimit) % TWO64)
    && (forall i :: 0 < i < |txs| ==> Less(env.index(b.txs[i - 1], l.latest), env.index(b.txs[i], l.latest)))
  }

  /** Every check of filterInvalidVotes but the cache. */
  predicate Approved<A, T>(env: Env<A, T>, l: Ledger<A, T>, b: Block) {
    var txs, after := LookupAll(l.buffer, b.txs), Collapse(env, l, b);
    && b.index == l.latest.index + 1
    && txs.Some? && Acceptable(env, l, b, txs.value)
    && after.Some? && env.checksum(after.value) == b.merkle
  }

  /** What becomes of a vote, given the blocks validated so far. */
  function Kept<A, T>(env: Env<A, T>, l: Ledger<A, T>, cache: set<Block>, vote: Option<Block>): Option<Block> {
    if vote.Some? && (vote.value in cache || Approved(env, l, vote.value)) then vote else None
  }

  function Filter<A, T>(env: Env<A, T>, l: Ledger<A, T>, votes: seq<Option<Block>>):
    (r: (seq<Option<Block>>, set<Block>))
    ensures |r.0| == |votes|
  {
    if votes == [] then ([], l.validCache)
    else
      var n := |votes| - 1;
      var (kept, cache) := Filter(env, l, votes[..n]);
      var vote := Kept(env, l, cache, votes[n]);
      (kept + [vote], if vote.Some? then cache + {vote.value} else cache)
  }

  lemma {:induction false} FilterSpec<A, T>(env: Env<A, T>, l: Ledger<A, T>, votes: seq<Option<Block>>)
    ensures var (kept, cache) := Filter(env, l, votes);
      && l.validCache <= cache
      && (forall b :: b in cache ==> b in l.validCache || Approved(env, l, b))
      && (forall i :: 0 <= i < |votes| ==>
            && (kept[i] == votes[i] || kept[i] == None)
            && (kept[i].Some? ==> kept[i].value in cache)
            && (votes[i].Some? ==>
                  (kept[i].Some? <==> votes[i].value in l.validCache || Approved(env, l, votes[i].value))))
  {
    if votes != [] {
      var n := |votes| - 1;
      FilterSpec(env, l, votes[..n]);
    }
  }

  /** The loop of filterInvalidVotes, which clears the block of an invalid vote in place. */
  method FilterInvalidVotes<A, T>(env: Env<A, T>, l: Ledger<A, T>, votes: array<Option<Block>>)
    returns (cache: set<Block>)
    modifies votes
    ensures (votes[..], cache) == Filter(env, l, old(votes[..]))
  {
    ghost var all := votes[..];
    cache := l.validCache;
    for k := 0 to votes.Length
      invariant forall j :: k <= j < votes.Length ==> votes[j] == all[j]
      invariant (votes[..k], cache) == Filter(env, l, all[..k])
    {
      assert all[..k + 1][..k] == all[..k] && votes[k] == all[k];
      if votes[k].Some? && votes[k].value !in cache {
        var b := votes[k].value;
        var ok := Validate(env, l, b);
        if ok {
          cache := cache + {b};
        } else {
          votes[k] := None;
        }
      }
      assert votes[..k + 1] == votes[..k] + [votes[k]];
      assert votes[k].Some? ==> cache == cache + {votes[k].value};
    }
    assert votes[..] == votes[..votes.Length] && all[..votes.Length] == all;
  }

  /** The checks on one block, in the order of the source. */
  method Validate<A, T>(env: Env<A, T>, l: Ledger<A, T>, b: Block) returns (ok: bool)
    ensures ok <==> Approved(env, l, b)
  {
    if b.index != l.latest.index + 1 {
      return false;
    }
    var txs := LookupAll(l.buffer, b.txs);
    if txs.None? {
      return false;
    }
    for i := 0 to |txs.value|
      invariant forall j :: 0 <= j < i ==> b.index < (env.height(txs.value[j]) + env.pruningLimit) % TWO64
      invariant forall j :: 0 < j < i ==> Less(env.index(b.txs[j - 1], l.latest), env.index(b.txs[j], l.latest))
    {
      if b.index >= (env.height(txs.value[i]) + env.pruningLimit) % TWO64 {
        return false;
      }
      if i > 0 && !Less(env.index(b.txs[i - 1], l.latest), env.index(b.txs[i], l.latest)) {
        return false;
      }
    }
    var after := env.collapse(l.accounts, l.latest, txs.value, b.index);
    ok := after.Some? && env.checksum(after.value) == b.merkle;
  }

  datatype Label<T> =
    | Propose(block: Block)                                       // the node prefers a block of its own
    | Receive(txs: map<TxId, T>)                                  // transactions arrive
    | Query(peers: seq<Option<Block>>, tallied: seq<Vote<Block>>) // peers' votes, and their tallies
    | Finalize(pruned: set<TxId>)                                 // the decided block is applied

  /** The votes of a query: the peers' and the node's own. */
  function Ballot<A, T>(l: Ledger<A, T>, peers: seq<Option<Block>>): seq<Option<Block>> {
    peers + [if l.ball.preferred.Some? then l.ball.preferred.value.id else None]
  }

  /** Tallies are computed for IDs that were voted for and survived the filter. */
  predicate TalliedFrom(kept: seq<Option<Block>>, tallied: seq<Vote<Block>>) {
    forall i :: 0 <= i < |tallied| ==> tallied[i].id in kept
  }

  /** Whether a step of the loop is possible. */
  predicate Enabled<A, T>(env: Env<A, T>, l: Ledger<A, T>, a: Label<T>) {
    Named(l.ball) &&
    match a
    case Propose(_) => l.ball.preferred.None?
    case Receive(txs) => txs.Keys !! l.buffer.Keys
    case Query(peers, tallied) =>
      l.ball.preferred.Some? && !l.ball.decided && TalliedFrom(Filter(env, l, Ballot(l, peers)).0, tallied)
    case Finalize(_) => l.ball.preferred.Some? && l.ball.decided
  }

  /** finalize, with its early returns: it leaves the ledger unchanged when a check fails. */
  function Finalized<A, T>(env: Env<A, T>, l: Ledger<A, T>, b: Block, pruned: set<TxId>): Ledger<A, T> {
    var after := Collapse(env, l, b);
    if after.None? || env.checksum(after.value) != b.merkle then l
    else Ledger(b, after.value, l.buffer - pruned, {}, Initial(), 0)
  }

  function Next<A, T>(env: Env<A, T>, l: Ledger<A, T>, a: Label<T>): Ledger<A, T>
    requires Enabled(env, l, a)
  {
    match a
    case Propose(block) => l.(ball := l.ball.(preferred := Some(Vote(Some(block), 0.0))))
    case Receive(txs) => l.(buffer := l.buffer + txs)
    case Query(peers, tallied) =>
      l.(validCache := Filter(env, l, Ballot(l, peers)).1,
         ball := Tick(env.params, l.ball, tallied),
         quorums := l.quorums + (if Quorum(env.params, tallied).Some? then 1 else 0))
    case Finalize(pruned) => Finalized(env, l, l.ball.preferred.value.id.value, pruned)
  }

  /** Blocks that ever won a tick at this height were validated against the current tip. */
  ghost predicate Inv<A, T>(env: Env<A, T>, l: Ledger<A, T>) {
    && env.checksum(l.accounts) == l.latest.merkle
    && Named(l.ball)
    && (forall b :: b in l.validCache ==> Approved(env, l, b))
    && (forall b :: CountOf(l.ball.counts, b) <= l.quorums)
    && (forall b :: CountOf(l.ball.counts, b) > 0 ==> b in l.validCache)
    && (l.ball.decided ==> l.ball.preferred.Some? && CountOf(l.ball.counts, l.ball.preferred.value.id.value) > 0)
  }

  lemma {:induction false} LookupAllGrows<T>(buffer: map<TxId, T>, more: map<TxId, T>, ids: seq<TxId>)
    requires LookupAll(buffer, ids).Some? && more.Keys !! buffer.Keys
    ensures LookupAll(buffer + more, ids) == LookupAll(buffer, ids)
  {
    if ids != [] { LookupAllGrows(buffer, more, ids[1..]); }
  }

  lemma ReceiveInv<A, T>(env: Env<A, T>, l: Ledger<A, T>, txs: map<TxId, T>)
    requires Inv(env, l) && Enabled(env, l, Receive(txs))
    ensures Inv(env, Next(env, l, Receive(txs)))
  {
    forall b | b in l.validCache ensures Approved(env, Next(env, l, Receive(txs)), b) {
      assert Approved(env, l, b);
      LookupAllGrows(l.buffer, txs, b.txs);
    }
  }

  /** A quorum is always for a block that survived the filter. */
  lemma QueryWinner<A, T>(env: Env<A, T>, l: Ledger<A, T>, peers: seq<Option<Block>>, tallied: seq<Vote<Block>>)
    requires Inv(env, l) && Enabled(env, l, Query(peers, tallied)) && Quorum(env.params, tallied).Some?
    ensures var m := Quorum(env.params, tallied).value;
      m.id.Some? && m.id.value in Next(env, l, Query(peers, tallied)).validCache
  {
    MajorityIsBest(tallied);
    FilterSpec(env, l, Ballot(l, peers));
  }

  lemma QueryInv<A, T>(env: Env<A, T>, l: Ledger<A, T>, peers: seq<Option<Block>>, tallied: seq<Vote<Block>>)
    requires Inv(env, l) && Enabled(env, l, Query(peers, tallied))
    requires Next(env, l, Query(peers, tallied)).quorums < COUNTER
    ensures Inv(env, Next(env, l, Query(peers, tallied)))
  {
    var l' := Next(env, l, Query(peers, tallied));
    FilterSpec(env, l, Ballot(l, peers));
    forall b | b in l'.validCache ensures Approved(env, l', b) {
      assert Approved(env, l, b);
    }
    var q := Quorum(env.params, tallied);
    if q.Some? {
      QueryWinner(env, l, peers, tallied);
      WonCounts(env.params, l.ball, q.value, l.quorums);
    }
  }

  lemma WonCounts(p: Params, s: State<Block>, m: Vote<Block>, quorums: nat)
    requires Named(s) && m.id.Some? && quorums + 1 < COUNTER
    requires forall b :: CountOf(s.counts, b) <= quorums
    ensures var s' := Won(p, s, m);
      && (forall b :: CountOf(s'.counts, b) == CountOf(s.counts, b) + (if m.id == Some(b) then 1 else 0))
      && s'.preferred.Some? && s'.preferred.value.id.Some? && CountOf(s'.counts, s'.preferred.value.id.value) > 0
  {
  }

  /**
   * When finalize runs, the decided block was validated against the current tip: the Merkle check cannot fail, the
   * height rises by exactly one, and the new tip records the checksum of the accounts it leaves.
   */
  lemma FinalizeSucceeds<A, T>(env: Env<A, T>, l: Ledger<A, T>, pruned: set<TxId>)
    requires Inv(env, l) && Enabled(env, l, Finalize(pruned))
    ensures var b := l.ball.preferred.value.id.value; var l' := Next(env, l, Finalize(pruned));
      && b in l.validCache && Approved(env, l, b)
      && l'.latest == b && l'.latest.index == l.latest.index + 1
      && Some(l'.accounts) == Collapse(env, l, b) && env.checksum(l'.accounts) == l'.latest.merkle
      && l'.ball == Initial() && l'.validCache == {}
    ensures Inv(env, Next(env, l, Finalize(pruned)))
  {
    var b := l.ball.preferred.value.id.value;
    assert Approved(env, l, b);
  }

  lemma NextInv<A, T>(env: Env<A, T>, l: Ledger<A, T>, a: Label<T>)
    requires Inv(env, l) && Enabled(env, l, a) && Next(env, l, a).quorums < COUNTER
    ensures Inv(env, Next(env, l, a))
  {
    match a
    case Propose(block) =>
      forall b | b in l.validCache ensures Approved(env, Next(env, l, a), b) { assert Approved(env, l, b); }
    case Receive(txs) => ReceiveInv(env, l, txs);
    case Query(peers, tallied) => QueryInv(env, l, peers, tallied);
    case Finalize(pruned) => FinalizeSucceeds(env, l, pruned);
  }

  /** A run of the loop during which no height sees 65,536 quorum ticks. */
  ghost predicate Behavior<A, T>(env: Env<A, T>, ls: seq<Ledger<A, T>>, labels: seq<Label<T>>) {
    && |ls| == |labels| + 1 && Inv(env, ls[0])
    && (forall i :: 0 <= i < |ls| ==> ls[i].quorums < COUNTER)
    && (forall i :: 0 <= i < |labels| ==> Enabled(env, ls[i], labels[i]) && ls[i + 1] == Next(env, ls[i], labels[i]))
  }

  /** A freshly started node whose tip records the checksum of its accounts. */
  lemma StartInv<A, T>(env: Env<A, T>, latest: Block, accounts: A, buffer: map<TxId, T>)
    requires env.checksum(accounts) == latest.merkle
    ensures Inv(env, Ledger(latest, accounts, buffer, {}, Initial(), 0))
  {
  }

  function Finalizes<T>(labels: seq<Label<T>>): nat {
    if labels == [] then 0 else Finalizes(labels[..|labels| - 1]) + (if labels[|labels| - 1].Finalize? then 1 else 0)
  }

  /**
   * In every state of every such run the tip's Merkle root is the checksum of the accounts, and the tip's height
   * counts the finalisations: each one succeeds and nothing else moves the tip.
   */
  lemma {:induction false} EveryStateSafe<A, T>(env: Env<A, T>, ls: seq<Ledger<A, T>>, labels: seq<Label<T>>, k: nat)
    requires Behavior(env, ls, labels) && k < |ls|
    ensures Inv(env, ls[k]) && env.checksum(ls[k].accounts) == ls[k].latest.merkle
    ensures ls[k].latest.index == ls[0].latest.index + Finalizes(labels[..k])
  {
    if k > 0 {
      EveryStateSafe(env, ls, labels, k - 1);
      assert ls[k] == ls[k - 1 + 1] == Next(env, ls[k - 1], labels[k - 1]);
      NextInv(env, ls[k - 1], labels[k - 1]);
      assert labels[..k][..k - 1] == labels[..k - 1];
      match labels[k - 1]
      case Finalize(pruned) => FinalizeSucceeds(env, ls[k - 1], pruned);
      case _ =>
    }
  }
}
