/** The finalisation loop over the state tree: what a tip's Merkle root says about the accounts. */
module Replica {
  import opened Bytes
  import opened SortedSeq
  import opened Accounts
  import opened Applier
  import opened Collapse
  import opened Supply
  import opened AvlNode
  import opened AvlLineage
  import opened AccountTree
  import CollapseContext
  import Finalizer
  import Snowball

  /**
    * What the nodes of a network agree on. touched gives the entries that applying transactions to accounts on top of
    * a block leaves in the cache, and the order in which the accounts are flushed.
    */
  datatype Rules = Rules(
    env: Env,
    packing: Packing,
    touched: (Accounts, nat, seq<Tx>) -> (Accounts, seq<Id>),
    hash: Option<Digest> -> Key,
    index: (Finalizer.TxId, Finalizer.Block) -> Key,
    height: Tx -> nat,
    pruningLimit: nat,
    params: Snowball.Params)

  /** The accounts after a block on top of the one with the given index. */
  function AfterBlock(r: Rules, acc: Accounts, tip: nat, txs: seq<Tx>): Accounts {
    Collapsed(r.env.(block := tip), Open(acc), txs).acc
  }

  /** Hashes do not collide, pages can be unpacked, and what is flushed is what the transactions did. */
  ghost predicate Sound(r: Rules) {
    && Faithful(r.packing)
    && (forall a, b :: r.hash(a) == r.hash(b) ==> a == b)
    && (forall acc, tip, txs ::
          var (cache, ids) := r.touched(acc, tip, txs);
          CollapseContext.WriteBack(acc, cache, ids) == AfterBlock(r, acc, tip, txs))
  }

  ghost predicate Readable(r: Rules, root: Option<Node>) {
    exists acc :: Stores(r.packing, ToMap(Entries(root)), acc)
  }

  ghost function AccountsIn(r: Rules, root: Option<Node>): (acc: Accounts)
    requires Readable(r, root)
    ensures Stores(r.packing, ToMap(Entries(root)), acc)
  {
    var acc :| Stores(r.packing, ToMap(Entries(root)), acc);
    acc
  }

  /** Applies transactions to a snapshot of the tree, with the height of the new block as its view ID. */
  ghost function CollapseTree(
      r: Rules, root: Option<Node>, latest: Finalizer.Block, txs: seq<Tx>, height: nat): Option<Option<Node>>
  {
    if !ExactRoot(root) || !Readable(r, root) then None
    else
      var (cache, ids) := r.touched(AccountsIn(r, root), latest.index, txs);
      Some(Run(root, FlushOps(r.packing, ToMap(Entries(root)), cache, ids, height)))
  }

  /** The node: account state is the tree, and its checksum is the hash of the root. */
  ghost function NodeEnv(r: Rules): Finalizer.Env<Option<Node>, Tx> {
    Finalizer.Env(
      (root, latest, txs, height) => CollapseTree(r, root, latest, txs, height),
      root => r.hash(RootId(root)), r.index, r.height, r.pruningLimit, r.params)
  }

  /** A well-formed tree, no newer than the height, that stands for the accounts. */
  ghost predicate Good(r: Rules, root: Option<Node>, height: nat, acc: Accounts) {
    AvlRoot(root, height) && Stores(r.packing, ToMap(Entries(root)), acc)
  }

  /** Applying transactions to the tree is applying them to the accounts it stands for. */
  lemma CollapseTreeIsGood(
      r: Rules, root: Option<Node>, latest: Finalizer.Block, txs: seq<Tx>, height: nat, acc: Accounts)
    requires Sound(r) && Good(r, root, latest.index, acc) && latest.index <= height
    ensures
      var after := CollapseTree(r, root, latest, txs, height);
      after.Some? && Good(r, after.value, height, Visible(AfterBlock(r, acc, latest.index, txs)))
  {
    hide Stores, Run, FlushOps, Visible, CollapseContext.WriteBack, AfterBlock, Faithful;
    assert Readable(r, root);
    StoresOnce(r.packing, ToMap(Entries(root)), acc, AccountsIn(r, root));
    var (cache, ids) := r.touched(acc, latest.index, txs);
    FlushedTree(r.packing, root, acc, cache, ids, latest.index, height);
  }

  // Whole runs.

  type State = Finalizer.Ledger<Option<Node>, Tx>

  type Label = Finalizer.Label<Tx>

  /** The transactions of a finalised block, with the index of the block below it. */
  datatype Link = Link(tip: nat, txs: seq<Tx>)

  /** The blocks finalised in the first k steps of a run. */
  ghost function Chain(ls: seq<State>, labels: seq<Label>, k: nat): seq<Link>
    requires k <= |labels| < |ls|
  {
    if k == 0 then []
    else
      var before, l := Chain(ls, labels, k - 1), ls[k - 1];
      if !labels[k - 1].Finalize? || l.ball.preferred.None? || l.ball.preferred.value.id.None? then before
      else
        var txs := LookupAll(l.buffer, l.ball.preferred.value.id.value.txs);
        if txs.None? then before else before + [Link(l.latest.index, txs.value)]
  }

  /** The accounts after all the blocks, each applied to what can be read of the accounts before it. */
  function Replayed(r: Rules, acc: Accounts, chain: seq<Link>): Accounts {
    if chain == [] then acc else
      var last := chain[|chain| - 1];
      Visible(AfterBlock(r, Replayed(r, acc, chain[..|chain| - 1]), last.tip, last.txs))
  }

  /** A run of a node that starts from a tree standing for the accounts. */
  ghost predicate Behavior(r: Rules, acc: Accounts, ls: seq<State>, labels: seq<Label>) {
    && Finalizer.Behavior(NodeEnv(r), ls, labels)
    && Good(r, ls[0].accounts, ls[0].latest.index, acc)
  }

  lemma FinalizeIsGood(r: Rules, l: State, pruned: set<Finalizer.TxId>, acc: Accounts)
    requires Sound(r) && Finalizer.Inv(NodeEnv(r), l) && Good(r, l.accounts, l.latest.index, acc)
    requires Finalizer.Enabled(NodeEnv(r), l, Finalizer.Finalize(pruned))
    ensures
      var l' := Finalizer.Next(NodeEnv(r), l, Finalizer.Finalize(pruned));
      var txs := LookupAll(l.buffer, l.ball.preferred.value.id.value.txs);
      txs.Some? && Good(r, l'.accounts, l'.latest.index, Visible(AfterBlock(r, acc, l.latest.index, txs.value)))
  {
    hide Good, CollapseTree, Visible, AfterBlock, Sound;
    Finalizer.FinalizeSucceeds(NodeEnv(r), l, pruned);
    var b := l.ball.preferred.value.id.value;
    var txs := LookupAll(l.buffer, b.txs).value;
    CollapseTreeIsGood(r, l.accounts, l.latest, txs, b.index, acc);
  }

  /**
    * In every state of every run, whatever the peers vote: the tree is well formed, the accounts read from it are the
    * start replayed with the finalised blocks, and the tip's Merkle root is the hash of the tree's root.
    */
  lemma {:induction false} EveryTipIsReplayed(r: Rules, acc: Accounts, ls: seq<State>, labels: seq<Label>, k: nat)
    requires Sound(r) && Behavior(r, acc, ls, labels) && k < |ls|
    ensures Good(r, ls[k].accounts, ls[k].latest.index, Replayed(r, acc, Chain(ls, labels, k)))
    ensures ls[k].latest.merkle == r.hash(RootId(ls[k].accounts))
    ensures |Chain(ls, labels, k)| == Finalizer.Finalizes(labels[..k])
  {
    hide Good, Sound, AfterBlock, Visible;
    Finalizer.EveryStateSafe(NodeEnv(r), ls, labels, k);
    if k > 0 {
      EveryTipIsReplayed(r, acc, ls, labels, k - 1);
      Finalizer.EveryStateSafe(NodeEnv(r), ls, labels, k - 1);
      var l, before := ls[k - 1], Chain(ls, labels, k - 1);
      assert ls[k - 1 + 1] == Finalizer.Next(NodeEnv(r), l, labels[k - 1]);
      assert labels[..k][..k - 1] == labels[..k - 1];
      if labels[k - 1].Finalize? {
        FinalizeIsGood(r, l, labels[k - 1].pruned, Replayed(r, acc, before));
        assert Chain(ls, labels, k)[..|before|] == before;
      }
    }
  }

  /** Two trees with the same checksum stand for the same accounts. */
  lemma SameMerkleSameAccounts(
      r: Rules, a: Option<Node>, heightA: nat, accA: Accounts, b: Option<Node>, heightB: nat, accB: Accounts)
    requires Sound(r) && Good(r, a, heightA, accA) && Good(r, b, heightB, accB)
    requires r.hash(RootId(a)) == r.hash(RootId(b))
    ensures Entries(a) == Entries(b) && accA == accB
  {
    SameIdSameEntries(a, b);
    StoresOnce(r.packing, ToMap(Entries(a)), accA, accB);
  }

  /**
    * Nodes whose tips carry the same Merkle root hold the same accounts, however each of them got there.
    */
  lemma {:induction false} NodesAgree(
      r: Rules, accA: Accounts, a: seq<State>, labelsA: seq<Label>, i: nat,
      accB: Accounts, b: seq<State>, labelsB: seq<Label>, j: nat)
    requires Sound(r) && Behavior(r, accA, a, labelsA) && i < |a| && Behavior(r, accB, b, labelsB) && j < |b|
    requires a[i].latest.merkle == b[j].latest.merkle
    ensures Replayed(r, accA, Chain(a, labelsA, i)) == Replayed(r, accB, Chain(b, labelsB, j))
    ensures Entries(a[i].accounts) == Entries(b[j].accounts)
  {
    hide Good, Sound, Replayed, Chain;
    EveryTipIsReplayed(r, accA, a, labelsA, i);
    EveryTipIsReplayed(r, accB, b, labelsB, j);
    SameMerkleSameAccounts(r, a[i].accounts, a[i].latest.index, Replayed(r, accA, Chain(a, labelsA, i)),
                           b[j].accounts, b[j].latest.index, Replayed(r, accB, Chain(b, labelsB, j)));
  }
}
