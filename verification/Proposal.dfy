/** A node's own proposal (proposeBlock in ledger.go) against the checks it makes on votes. */
module Proposal {
  import opened Bytes
  import opened SortedSeq
  import opened Finalizer
  import Mempool

  /** The mempool and the ledger of one node: the same buffer, the same tip, the same order. */
  ghost predicate Together<A>(
      menv: Mempool.Env, p: Mempool.Pool, env: Env<A, Mempool.Tx>, l: Ledger<A, Mempool.Tx>) {
    && p.buffer == l.buffer && p.latest.index == l.latest.index
    && menv.pruningLimit == env.pruningLimit
    && (forall tx :: env.height(tx) == tx.block)
    && (forall id :: env.index(id, l.latest) == Mempool.IndexKey(menv, id, p.latest.id))
  }

  /** The block that proposeBlock makes of the proposable IDs, if they can be collapsed. */
  function Proposed<A>(env: Env<A, Mempool.Tx>, l: Ledger<A, Mempool.Tx>, ids: seq<TxId>): Option<Block> {
    var height := l.latest.index + 1;
    var after := Collapse(env, l, Block(height, [], ids));
    if ids == [] || after.None? then None else Some(Block(height, env.checksum(after.value), ids))
  }

  /** The age of a proposed transaction, as the vote filter sees it. */
  predicate Fresh(menv: Mempool.Env, p: Mempool.Pool, id: TxId) {
    id in p.buffer && p.latest.index + 1 != Mempool.Expiry(menv, p.buffer[id].block)
  }

  lemma SomeProposable<A>(menv: Mempool.Env, p: Mempool.Pool, env: Env<A, Mempool.Tx>, l: Ledger<A, Mempool.Tx>)
    requires Proposed(env, l, Mempool.Proposable(menv, p)).Some?
    ensures
      var ids := Mempool.Proposable(menv, p);
      var b := Proposed(env, l, ids).value;
      && LookupAll(l.buffer, ids).Some? && b.txs == ids && b.index == l.latest.index + 1
      && (Approved(env, l, b) <==> Acceptable(env, l, b, LookupAll(l.buffer, ids).value))
  {
    hide Mempool.Proposable, LookupAll, Acceptable;
    var ids := Mempool.Proposable(menv, p);
    var b := Proposed(env, l, ids).value;
    assert Collapse(env, l, b) == Collapse(env, l, Block(b.index, [], ids));
  }

  lemma AcceptableIffFresh<A>(
      menv: Mempool.Env, p: Mempool.Pool, env: Env<A, Mempool.Tx>, l: Ledger<A, Mempool.Tx>, b: Block,
      txs: seq<Mempool.Tx>)
    requires Mempool.Inv(menv, p) && Together(menv, p, env, l)
    requires LookupAll(l.buffer, b.txs) == Some(txs) && b.index == l.latest.index + 1
    requires forall i :: 0 < i < |b.txs| ==> Less(env.index(b.txs[i - 1], l.latest), env.index(b.txs[i], l.latest))
    ensures Acceptable(env, l, b, txs) <==> forall i :: 0 <= i < |b.txs| ==> Fresh(menv, p, b.txs[i])
  {
    hide LookupAll;
    forall i | 0 <= i < |txs|
      ensures b.index < (env.height(txs[i]) + env.pruningLimit) % TWO64 <==> Fresh(menv, p, b.txs[i])
    {
      assert b.txs[i] in p.buffer && txs[i] == p.buffer[b.txs[i]];
      assert p.latest.index < Mempool.Expiry(menv, txs[i].block);
    }
  }

  /**
    * A node approves its own proposal if and only if no transaction in it expires at the very height it is proposed
    * for: the mempool keeps such a transaction for one block longer than the vote filter allows.
    */
  lemma OwnProposalApprovedIff<A>(
      menv: Mempool.Env, p: Mempool.Pool, env: Env<A, Mempool.Tx>, l: Ledger<A, Mempool.Tx>)
    requires Mempool.Inv(menv, p) && Together(menv, p, env, l)
    requires Proposed(env, l, Mempool.Proposable(menv, p)).Some?
    ensures
      var ids := Mempool.Proposable(menv, p);
      Approved(env, l, Proposed(env, l, ids).value) <==> forall i :: 0 <= i < |ids| ==> Fresh(menv, p, ids[i])
  {
    hide Mempool.Proposable, Mempool.Inv, LookupAll, Acceptable, Approved, Fresh, Proposed;
    var ids := Mempool.Proposable(menv, p);
    SomeProposable(menv, p, env, l);
    Mempool.ProposableAscends(menv, p);
    var b := Proposed(env, l, ids).value;
    AcceptableIffFresh(menv, p, env, l, b, LookupAll(l.buffer, ids).value);
  }

  /** A pool with one transaction that is in time for the next block. */
  lemma OneIsProposed(menv: Mempool.Env, latest: Mempool.Block, tx: Mempool.Tx)
    requires Mempool.Injective(menv.hash) && Mempool.Genuine(menv, tx) && menv.blockTxLimit > 0
    requires latest.index < Mempool.Expiry(menv, tx.block) && tx.block <= latest.index + 1
    ensures
      var p := Mempool.Add(menv, Mempool.Empty(latest), tx);
      Mempool.Inv(menv, p) && p.buffer == map[tx.id := tx] && Mempool.Proposable(menv, p) == [tx.id]
  {
    var p := Mempool.Add(menv, Mempool.Empty(latest), tx);
    Mempool.AddInv(menv, Mempool.Empty(latest), tx);
    var e := Entry(Mempool.IndexKey(menv, tx.id, latest.id), tx.id);
    assert p.index == [e] && p.index[1..] == [];
    assert Mempool.Eligible(p, p.index) == [tx.id] + Mempool.Eligible(p, p.index[1..]) == [tx.id];
    Mempool.ProposableIsPrefix(menv, p);
  }

  /** A transaction in its last block: the node proposes it and then votes its own proposal down. */
  lemma LastBlockIsVotedDown<A>(
      menv: Mempool.Env, latest: Mempool.Block, tx: Mempool.Tx, env: Env<A, Mempool.Tx>, l: Ledger<A, Mempool.Tx>)
    requires Mempool.Injective(menv.hash) && Mempool.Genuine(menv, tx) && menv.blockTxLimit > 0
    requires tx.block <= latest.index + 1 == Mempool.Expiry(menv, tx.block)
    requires Together(menv, Mempool.Add(menv, Mempool.Empty(latest), tx), env, l)
    requires Proposed(env, l, [tx.id]).Some?
    ensures Mempool.Proposable(menv, Mempool.Add(menv, Mempool.Empty(latest), tx)) == [tx.id]
    ensures !Approved(env, l, Proposed(env, l, [tx.id]).value)
  {
    var p := Mempool.Add(menv, Mempool.Empty(latest), tx);
    OneIsProposed(menv, latest, tx);
    OwnProposalApprovedIff(menv, p, env, l);
    assert !Fresh(menv, p, [tx.id][0]);
  }
}
