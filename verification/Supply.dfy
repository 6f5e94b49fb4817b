/** The supply over a whole chain of blocks: what accounts hold after any number of them (collapse.go). */
module Supply {
  import opened Bytes
  import opened Accounts
  import opened Applier
  import opened ApplierLaws
  import opened Collapse

  /** A block to apply, with what it is applied with. */
  datatype Block = Block(env: Env, txs: seq<Tx>)

  /** A new context over the accounts: no requests, and both counts start again. */
  function Open(acc: Accounts): Ledger {
    Ledger(acc, [], 0, 0)
  }

  function Taken(acc: Accounts, b: Block): Round {
    Rounds(b.env, Opening(Open(acc)), b.txs)
  }

  function After(acc: Accounts, b: Block): Ledger {
    Collapsed(b.env, Open(acc), b.txs)
  }

  /** The accounts after all the blocks, one after the other. */
  function Replay(acc: Accounts, blocks: seq<Block>): Accounts {
    if blocks == [] then acc else After(Replay(acc, blocks[..|blocks| - 1]), blocks[|blocks| - 1]).acc
  }

  ghost function Holdings(acc: Accounts): nat {
    Sum(acc.balances) + Sum(acc.stakes) + Sum(acc.rewards) + Sum(acc.gas)
  }

  // What one block adds to the holdings and what it takes from them.

  function Issued(acc: Accounts, b: Block): nat {
    After(acc, b).issued
  }

  ghost function Added(acc: Accounts, b: Block): nat {
    Issued(acc, b) + HandedOut(b.env.share, Taken(acc, b))
  }

  /** The fees, the gas, and the rewards that were asked for. */
  ghost function Removed(acc: Accounts, b: Block): nat {
    Taken(acc, b).totalFee + Taken(acc, b).ledger.burned + Owed(Taken(acc, b).ledger.pending)
  }

  /** The sums of a block stay below 2^64. */
  ghost predicate InRange(acc: Accounts, b: Block) {
    var r := Taken(acc, b);
    && NoWrap(Open(acc), r.ledger)
    && Counted(b.env, Opening(Open(acc)), b.txs) < TWO64
    && Wealth(r.ledger) + HandedOut(b.env.share, r) < TWO64
  }

  lemma BlockBooks(acc: Accounts, b: Block)
    requires InRange(acc, b)
    ensures Holdings(After(acc, b).acc) + Removed(acc, b) == Holdings(acc) + Added(acc, b)
  {
    hide Sum, Rounds, HandedOut, Counted, Rewarded;
    BlockAccounts(b.env, Open(acc), b.txs);
    NoWithdrawalIsPaid(b.env, Open(acc), b.txs);
  }

  // All the blocks.

  ghost function AllAdded(acc: Accounts, blocks: seq<Block>): nat {
    if blocks == [] then 0
    else
      var fewer := blocks[..|blocks| - 1];
      AllAdded(acc, fewer) + Added(Replay(acc, fewer), blocks[|blocks| - 1])
  }

  ghost function AllRemoved(acc: Accounts, blocks: seq<Block>): nat {
    if blocks == [] then 0
    else
      var fewer := blocks[..|blocks| - 1];
      AllRemoved(acc, fewer) + Removed(Replay(acc, fewer), blocks[|blocks| - 1])
  }

  function AllIssued(acc: Accounts, blocks: seq<Block>): nat {
    if blocks == [] then 0
    else
      var fewer := blocks[..|blocks| - 1];
      AllIssued(acc, fewer) + Issued(Replay(acc, fewer), blocks[|blocks| - 1])
  }

  ghost predicate AllInRange(acc: Accounts, blocks: seq<Block>) {
    blocks == [] ||
    var fewer := blocks[..|blocks| - 1];
    AllInRange(acc, fewer) && InRange(Replay(acc, fewer), blocks[|blocks| - 1])
  }

  /**
    * Over any chain of blocks, however shares are computed: what accounts hold at the end, plus all fees, gas and
    * requested withdrawals, is what they held at the start, plus all the faucet issued and all that was handed out.
    * In particular, what is withdrawn leaves the accounts for good.
    */
  lemma {:induction false} ChainAccounts(acc: Accounts, blocks: seq<Block>)
    requires AllInRange(acc, blocks)
    ensures Holdings(Replay(acc, blocks)) + AllRemoved(acc, blocks) == Holdings(acc) + AllAdded(acc, blocks)
  {
    hide Holdings, Added, Removed, InRange, After;
    if blocks != [] {
      var fewer := blocks[..|blocks| - 1];
      ChainAccounts(acc, fewer);
      BlockBooks(Replay(acc, fewer), blocks[|blocks| - 1]);
    }
  }

  // When nothing wraps.

  /** Shares are exact, and the stake counted in each block fits into 64 bits. */
  ghost predicate Exact(acc: Accounts, blocks: seq<Block>) {
    blocks == [] ||
    var fewer, b := blocks[..|blocks| - 1], blocks[|blocks| - 1];
    && Exact(acc, fewer) && Exactly(b.env.share)
    && Counted(b.env, Opening(Open(Replay(acc, fewer))), b.txs) < TWO64
  }

  lemma IssuedInRounds(acc: Accounts, b: Block)
    ensures Issued(acc, b) == Taken(acc, b).ledger.issued
  {
    hide Rounds, Rewarded;
    NoWithdrawalIsPaid(b.env, Open(acc), b.txs);
  }

  /** With exact shares a block that starts in range stays in range, and hands out no more than its fees. */
  lemma StaysInRange(acc: Accounts, b: Block)
    requires Exactly(b.env.share) && Counted(b.env, Opening(Open(acc)), b.txs) < TWO64
    requires Holdings(acc) + Issued(acc, b) < TWO64
    ensures InRange(acc, b) && Added(acc, b) <= Issued(acc, b) + Removed(acc, b)
  {
    hide Sum, Rounds, Counted, Exactly, SharePot;
    var r := Taken(acc, b);
    IssuedInRounds(acc, b);
    assert NoWrap(Open(acc), r.ledger);
    RoundsTallied(b.env, Open(acc), b.txs);
    if r.totalStake > 0 {
      SharesFit(b.env.share, r);
    }
  }

  /**
    * If what accounts hold at the start and all that the faucet issues fit into 64 bits, no sum of any block wraps,
    * and no block brings the holdings above that.
    */
  lemma {:induction false} ChainInRange(acc: Accounts, blocks: seq<Block>)
    requires Exact(acc, blocks) && Holdings(acc) + AllIssued(acc, blocks) < TWO64
    ensures AllInRange(acc, blocks)
    ensures Holdings(Replay(acc, blocks)) <= Holdings(acc) + AllIssued(acc, blocks)
  {
    hide Holdings, Added, Removed, InRange, After, Counted, Exactly, Issued;
    if blocks != [] {
      var fewer, b := blocks[..|blocks| - 1], blocks[|blocks| - 1];
      ChainInRange(acc, fewer);
      StaysInRange(Replay(acc, fewer), b);
      BlockBooks(Replay(acc, fewer), b);
    }
  }
}
