/** The object that runs the finalisation loop (ledger.go), one pass at a time. */
module LedgerNode {
  import opened SortedSeq
  import opened Snowball
  import opened Finalizer

  /** Tallies are given to surviving votes only; how they weigh them is left open. */
  ghost predicate Fair(tally: seq<Option<Block>> -> seq<Vote<Block>>) {
    forall kept :: TalliedFrom(kept, tally(kept))
  }

  class Node<A, T> {
    const env: Env<A, T>
    const finalizer: Sampler<Block>
    var latest: Block
    var accounts: A
    var buffer: map<TxId, T>
    var validCache: set<Block>
    ghost var quorums: nat

    ghost function View(): Ledger<A, T>
      reads this, finalizer
    {
      Ledger(latest, accounts, buffer, validCache, finalizer.state, quorums)
    }

    ghost predicate Valid()
      reads this, finalizer
    {
      finalizer.params == env.params && Inv(env, View())
    }

    constructor (env: Env<A, T>, latest: Block, accounts: A, buffer: map<TxId, T>)
      requires env.checksum(accounts) == latest.merkle
      ensures Valid() && fresh(finalizer) && this.env == env
      ensures View() == Ledger(latest, accounts, buffer, {}, Initial(), 0)
    {
      this.env, this.latest, this.accounts, this.buffer := env, latest, accounts, buffer;
      finalizer := new Sampler(env.params);
      validCache, quorums := {}, 0;
      new;
      StartInv(env, latest, accounts, buffer);
    }

    /** Collects the votes, filters them in place and ticks the finalizer. */
    method QueryPeers(peers: seq<Option<Block>>, tally: seq<Option<Block>> -> seq<Vote<Block>>)
      requires Valid() && Fair(tally) && finalizer.state.preferred.Some? && !finalizer.state.decided
      requires quorums + 1 < COUNTER
      modifies this`validCache, this`quorums, finalizer
      ensures Valid()
      ensures var l := old(View());
        View() == Next(env, l, Query(peers, tally(Filter(env, l, Ballot(l, peers)).0)))
    {
      hide Filter, Tick, Quorum, Approved;
      ghost var l := View();
      var own := finalizer.state.preferred.value.id;
      var votes := new Option<Block>[|peers| + 1](
        i requires 0 <= i <= |peers| => if i < |peers| then peers[i] else own);
      assert votes[..] == Ballot(l, peers);
      var cache := FilterInvalidVotes(env, Ledger(latest, accounts, buffer, validCache, finalizer.state, 0), votes);
      SameFilter(env, l, l.(quorums := 0), Ballot(l, peers));
      validCache := cache;
      var tallied := tally(votes[..]);
      assert Enabled(env, l, Query(peers, tallied));
      QueryInv(env, l, peers, tallied);
      finalizer.TickVotes(tallied);
      quorums := quorums + if Quorum(env.params, tallied).Some? then 1 else 0;
    }

    /** Applies the decided block; the two early returns are never taken. */
    method FinalizeBlock(b: Block, pruned: set<TxId>)
      requires Valid() && finalizer.state.decided && finalizer.state.preferred.Some?
      requires finalizer.state.preferred.value.id == Some(b)
      modifies this, finalizer
      ensures Valid() && View() == Next(env, old(View()), Finalize(pruned))
      ensures latest == b && latest.index == old(latest).index + 1
    {
      FinalizeSucceeds(env, View(), pruned);
      var txs := LookupAll(buffer, b.txs);
      assert txs.Some?;
      var after := env.collapse(accounts, latest, txs.value, b.index);
      assert after.Some? && env.checksum(after.value) == b.merkle;
      buffer := buffer - pruned;
      latest := b;
      accounts := after.value;
      finalizer.Reset();
      validCache := {};
      quorums := 0;
    }

    /** One pass of the loop: propose when nothing is preferred, finalize when decided, query otherwise. */
    method Pass(proposal: Option<Block>, peers: seq<Option<Block>>, tally: seq<Option<Block>> -> seq<Vote<Block>>,
                pruned: set<TxId>)
      requires Valid() && Fair(tally) && quorums + 1 < COUNTER
      modifies this, finalizer
      ensures Valid()
      ensures var l := old(View());
        View() ==
          if l.ball.preferred.None? then (if proposal.None? then l else Next(env, l, Propose(proposal.value)))
          else if l.ball.decided then Next(env, l, Finalize(pruned))
          else Next(env, l, Query(peers, tally(Filter(env, l, Ballot(l, peers)).0)))
      ensures latest.index == old(latest).index
        || (old(finalizer.state).decided && latest.index == old(latest).index + 1)
    {
      var preferred := finalizer.state.preferred;
      if preferred.None? {
        if proposal.Some? {
          NextInv(env, View(), Propose(proposal.value));
          finalizer.Prefer(Vote(proposal, 0.0));
        }
      } else if finalizer.state.decided {
        FinalizeBlock(preferred.value.id.value, pruned);
      } else {
        QueryPeers(peers, tally);
      }
    }
  }

  /** The filter does not look at the quorum count. */
  lemma {:induction false} SameFilter<A, T>(env: Env<A, T>, l: Ledger<A, T>, m: Ledger<A, T>, votes: seq<Option<Block>>)
    requires m == l.(quorums := m.quorums)
    ensures Filter(env, m, votes) == Filter(env, l, votes)
  {
    if votes != [] {
      SameFilter(env, l, m, votes[..|votes| - 1]);
    }
  }
}
