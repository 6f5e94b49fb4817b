# Verified model of the Wavelet ledger node

This project models the state-wide machinery of the Wavelet ledger node in Dafny and proves what it is meant to
guarantee. `dafny verify dfyconfig.toml` checks everything.

| part | modules | what is modelled |
|---|---|---|
| Merkle AVL state tree | `Bytes`, `SortedSeq`, `Traversal`, `AvlNode`, `AvlLineage`, `AvlStore`, `AvlCache`, `AvlDiff`, `AvlGc`, `AvlRuns`, `AvlTree`, `AvlCollector` | persistent nodes with view IDs, commits to a key-value store behind an LRU cache, diffs between peers, mark-and-sweep collection of old roots, and whole runs of all of these |
| B-tree | `BTreeNode`, `BTreeSet`, `BTreeDelete`, `BTreeWalk`, `BTreeHeap`, `BTreeScan`, `BTree` | the in-place tree behind the mempool order: values first, then the linked nodes that are changed in place and shown to follow them |
| Transactions and blocks | `Accounts`, `Applier`, `ApplierLaws`, `ApplierMeaning`, `Collapse`, `Supply`, `Rejection`, `CollapseContext`, `BlockApplier` | transfers, stakes, contract calls with shared gas, batches and sub-transactions, fees and rewards, all through a write-back cache, and the supply over whole chains of blocks |
| Accounts in the tree | `AccountKeys`, `AccountTree`, `StateFlush`, `Replica` | the keys and bytes of account entries, the flush of a block's cache into the AVL tree, and the finalisation loop run over that tree: what a tip's Merkle root says about the accounts |
| Finalisation | `Snowball`, `Finalizer`, `LedgerNode` | the sampler and the propose, query, filter, tick and finalize steps, with arbitrary votes of peers |
| Mempool | `Mempool`, `Proposal` | buffer, missing and finalised IDs, ordered index, pruning and reshuffling; a node's own proposal against its own vote filter |
| Compact representations | `Cuckoo`, `ContractMemory` | the cuckoo filter over transaction IDs, and contract memory kept as sparse pages |

How the pieces are stated:

- A specification function on plain values says what an operation does. Lemmas prove what that means. The classes
  and methods, written in the imperative form of the source, are proved to compute the specification.
- Hashes are injective: a node's ID is the digest term of its contents, and a block stands for its own ID.
- Callbacks are state transformers. `Traversal.Feed` shows a callback a list until it stops, and every traversal is
  proved to be a `Feed` of the right list.
- The WebAssembly machine is an arbitrary function that stays within its gas limit and charges at least one unit
  when it succeeds. Random choices (eviction slots, map iteration order, peers' votes, tallies) are parameters or
  nondeterministic choices, so the results hold for all of them.
- 64-bit amounts wrap around, snowball counters wrap at 65,536, and both are modelled.

What the proofs found, and the lemmas that show it:

- A delete at the root can hoist a sibling that is older than the previous view. The diff is then empty and the
  receiver keeps the old tree (`AvlDiff.HoistedRootIsNotSent`). `AvlDiff.DiffRoundTrip` says exactly when the receiver
  gets the sender's tree.
- The order of keys in a diff is never checked, so a stream with two leaves the wrong way round is accepted
  (`AvlDiff.UnsortedIsAccepted`). An accepted tree is in order if and only if the stream was
  (`AvlDiff.AcceptedIsSortedIff`), and it is the sender's once its checksum is compared (`AvlDiff.DiffIntegrity`).
- A sweep stops at an old root that is a node of a newer swept root, because it went with that one; four commits
  are enough (`AvlGc.SweepStopsEarly`). `AvlGc.SweepGetsThroughIff` says exactly where a sweep ends, and
  `AvlRuns.EverySweepEnds` says it of every state of every run. The root it stopped at is a dead end from then on: no
  later sweep gets past it (`AvlRuns.DeadForever`). Nothing that should be kept is lost.
- A rejected transaction keeps what it did before it failed: a transfer whose call cannot be paid for has been paid
  (`Rejection.RejectedTransferPays`). `Rejection.RejectedCleanlyIff` gives the guards that stop a payload without a
  trace, `Rejection.RejectedBatch` does so for batches, and `Rejection.FeeIsKept` for a whole block.
- A reward withdrawal is never paid. Requests carry the index of the tip a block is collapsed on, the same index
  decides what is at least 50 blocks old, and a new context starts without requests (`Collapse.NoWithdrawalIsPaid`).
  So over any chain of blocks what was withdrawn leaves the accounts for good (`Supply.ChainAccounts`).
- No block changes the count of accounts in the tree: the flush writes back what was read
  (`AccountTree.CountNeverChanges`).
- With beta 0 the sampler does not decide on a streak of one (`Snowball.BetaZeroFails`) but on the second win in a
  row, whatever was missed in between (`Snowball.DecidedAtZero`). For every larger beta it decides exactly on a
  streak of beta + 1.
- A node can propose a block that its own filter rejects (`Proposal.LastBlockIsVotedDown`): if and only if a
  transaction in it expires at the height it is proposed for (`Proposal.OwnProposalApprovedIff`).
- With a block limit of zero one ID is still proposed if and only if the first entry of the index is eligible
  (`Mempool.ProposableIsPrefix`).
- A contract memory loses its tail when it is saved if and only if its length is not a multiple of the page size
  (`ContractMemory.SaveThenLoad`).

## Model

| member | source | states |
|---|---|---|
| `Bytes.PrefixContiguous` | avl/tree.go:135-147 | past the first key at or above the prefix that lacks it, no later key has it |
| `Bytes.PrefixIsBelow` | avl/tree.go:135-147 | every key with a prefix is at or above the prefix itself, so iteration may start there |
| `Traversal.PrefixScan` | avl/tree.go:135-147 | stopping at the first key without the prefix shows the callback the same entries as filtering by the prefix |
| `AvlNode.RebalanceContents` | avl/node.go:117-182 | every rotation case keeps the ordered entries |
| `AvlNode.RebalanceBalances` | avl/node.go:153-182 | from a balance factor in -2..2 it restores -1..1 and lowers the depth by at most one; balanced nodes are left alone |
| `AvlNode.RebalanceViews` | avl/node.go:93-182 | no child gets a newer view ID than its parent, and none exceeds the tree's |
| `AvlNode.KeyIsLast` | avl/node.go:93-115 | the key stored in a node is the largest key below it |
| `AvlNode.InsertRefines` | avl/node.go:184-236 | insert is map update and keeps order, exact depth, size and key fields, balance and view order; the root gets the tree's view ID |
| `AvlNode.DeleteRefines` | avl/node.go:281-330 | delete is map removal with the same invariants; it reports true exactly when the key was there, and otherwise returns the same tree |
| `AvlNode.LookupRefines` | avl/node.go:238-256 | lookup finds exactly what the map holds |
| `AvlNode.SizeCounts` | avl/node.go:93-115 | the size field is the number of entries |
| `AvlNode.SizeAtLeastFib` | avl/node.go:93-182 | a balanced tree of depth d has at least Fibonacci(d + 2) leaves |
| `AvlNode.DepthBound` | avl/node.go:49-61 | with fewer than 2^64 leaves the depth is at most 91, so the one-byte field never overflows |
| `AvlLineage.RunRefines` | avl/tree.go:88-113 | any sequence of inserts and deletes at ascending views acts as the same sequence on a map and keeps the invariants |
| `AvlLineage.RunFollows` | avl/node.go:184-330 | after any such run every node that is not newer than the starting view belongs to the starting tree |
| `AvlLineage.RootIsNewest` | avl/node.go:93-115 | no node of a tree is newer than its root |
| `AvlLineage.IdsAreDistinct` | avl/node.go:336-347 | no node ID occurs at two places of one tree |
| `AvlStore.IdDetermines` | avl/node.go:336-347 | two trees have the same ID if and only if they are the same tree, up to write-back flags |
| `AvlStore.LoadStored` | avl/tree.go:290-306 | a tree whose nodes are all in the store loads back as itself |
| `AvlStore.LoadedIsStored` | avl/tree.go:290-365 | whatever loads under an ID has that ID and is stored down to the leaves |
| `AvlStore.WriteBackStores` | avl/tree.go:184-233 | writing back adds exactly the tree's nodes, although flagged subtrees are skipped, and flags the whole tree |
| `AvlStore.ApplyDurable` | avl/node.go:354-365 | inserts and deletes never leave a write-back flag on a subtree that is not completely stored |
| `AvlCache.NodeLRU.Load` | avl/lru.node.go:49-61 | a hit returns what was put under the key and makes it the most recent one; the table and the list stay in step |
| `AvlCache.NodeLRU.Put` | avl/lru.node.go:88-109 | keeps exactly the most recent keys that fit, with the values put under them |
| `AvlCache.NodeLRU.Remove` | avl/lru.node.go:111-120 | takes one key out of table and list and leaves the rest in order |
| `AvlDiff.PopulateHashes` | avl/node.go:710-811 | a rebuilt tree has the ID it was asked for, for any stream of records |
| `AvlDiff.DiffIntegrity` | avl/tree.go:447-506 | for any diff: if it is accepted and the checksum equals that of some tree, the receiver has that tree's contents, depth and size |
| `AvlDiff.AcceptedIsSound` | avl/node.go:772-807 | before any checksum is compared, an accepted tree is balanced and no child is newer than its parent, if that holds of what is stored |
| `AvlDiff.AcceptedIsSortedIff` | avl/node.go:761-807 | an accepted tree has its keys in order if and only if the leaves of the stream, with the stored subtrees it refers to, were in order |
| `AvlDiff.UnsortedIsAccepted` | avl/node.go:761-807 | a stream with two leaves the wrong way round is accepted |
| `AvlDiff.PopulateRebuilds` | avl/node.go:710-811 | fed with a tree's diff records it rebuilds that tree and consumes exactly those records |
| `AvlDiff.DiffRoundTrip` | avl/tree.go:379-506 | after any run of edits above a shared view the diff applies, and gives the receiver the sender's root and entries if and only if the sender's root is newer than that view or nothing changed |
| `AvlDiff.HoistedRootIsNotSent` | avl/node.go:281-330 | deleting one of two leaves hoists the other, and the diff leaves the receiver with both |
| `AvlGc.SweepIsComplete` | avl/tree.go:560-594 | sweeping a root removes every unmarked node below it, although the walk stops at missing nodes |
| `AvlGc.SweepRootCollected` | avl/tree.go:531-594 | sweeping one more root removes only nodes below swept roots and none below a preserved one |
| `AvlGc.MarkDfs` | avl/node.go:441-474 | marks nothing outside the tree, everything in it when it gets through, and gets through when the tree is complete |
| `AvlGc.SweepEndsThere` | avl/tree.go:560-594 | no sweep gets past an index without an old root, or whose root has lost its node; everything from there down is left as it is |
| `AvlGc.SweepGetsThroughIff` | avl/tree.go:560-594 | from the start of the list or a gap in it upwards, with complete roots and exactly the preserved nodes marked: the sweep gets down to the gap if and only if no root above it is an unpreserved node of a newer swept root, and otherwise stops with an error at the newest such root |
| `AvlGc.SweepStopsEarly` | avl/tree.go:560-594 | from an empty store, with a commit each: insert a key, insert a larger one, delete the first, insert any key; sweeping the first two roots stops in front of the first |
| `AvlRuns.EditInv` | avl/tree.go:88-113 | edits keep the invariant of store, history and tree in memory |
| `AvlRuns.CommitReopens` | avl/tree.go:184-233 | after a commit, opening the store gives the same tree and entries |
| `AvlRuns.CommitInv` | avl/tree.go:184-233 | commit keeps the invariant, including the list of old roots |
| `AvlRuns.LaterTreesSurvive` | avl/tree.go:531-594 | a collection removes no stored node of any tree derived from the last old root, although only old roots are marked |
| `AvlRuns.CollectInv` | avl/tree.go:518-594 | collection keeps the invariant |
| `AvlRuns.ReopenInv` | avl/tree.go:58-71 | reopening keeps the invariant and restores the committed root |
| `AvlRuns.FreshInv` | avl/tree.go:58-71 | a run may start from an empty store: it satisfies the invariant |
| `AvlRuns.GenesisInv` | ledger.go:132-136 | a run may also start from any edits at view 0, committed to an empty store: the invariant holds and the tree is the map they make |
| `AvlRuns.GcIsCollect` | avl/tree.go:531-594 | a collection as the collector runs it is one of the collections that runs allow |
| `AvlRuns.CommitKeepsDead` | avl/tree.go:184-233 | a commit never brings back the node of an old root that has lost it |
| `AvlRuns.DeadForever` | avl/tree.go:560-594 | over any run: an old root on record without its node stays so, and no sweep that starts above it gets below it |
| `AvlRuns.EverySweepEnds` | avl/tree.go:531-594 | in every state of every run: a collection with a profile no older than those before it marks all it has to, and its sweep takes every root not yet collected if and only if none is shadowed by a newer one, and otherwise stops with an error at the newest that is |
| `AvlRuns.EveryStateSafe` | avl/tree.go:184-233 | in every state of every run of edits, commits, collections and restarts the committed root loads and every preserved old root is complete |
| `AvlTree.IterateFromFeeds` | avl/node.go:258-279 | iterateFrom shows the callback the entries at or above the key, ascending, until it stops |
| `AvlTree.Tree.Open` | avl/tree.go:58-71 | opens the committed root; if some well-formed tree has that ID, it is the tree opened and the object is valid |
| `AvlTree.Tree.Insert` | avl/tree.go:88-94 | map update; the tree stays a legal one with no node newer than its view ID |
| `AvlTree.Tree.Lookup` | avl/tree.go:96-102 | the map's value, if any |
| `AvlTree.Tree.Delete` | avl/tree.go:104-113 | map removal, and whether the key was there |
| `AvlTree.Tree.SetViewID` | avl/tree.go:375-377 | the tree is ready for edits if and only if its root is not newer than the view ID; validity does not depend on it |
| `AvlTree.Tree.Snapshot` | avl/tree.go:115-117 | shares the tree, drops the view ID, and is valid |
| `AvlTree.Tree.Revert` | avl/tree.go:119-121 | takes over the snapshot's root and map, and stays valid over the same store |
| `AvlTree.Tree.IteratePrefix` | avl/tree.go:135-147 | exactly the keys with the prefix, ascending, until the callback stops |
| `AvlTree.Tree.Commit` | avl/tree.go:184-233 | keeps the map, and the store now loads to it |
| `AvlTree.Tree.LoadNode` | avl/tree.go:290-306 | finds exactly what is cached or completely stored, under the ID asked for, whatever the cache has evicted |
| `AvlTree.Tree.IterateDiff` | avl/tree.go:379-402 | the explicit stack visits exactly the nodes newer than the view, parents first |
| `AvlTree.Tree.DumpDiff` | avl/tree.go:404-435 | the IDs and records of those nodes |
| `AvlTree.Tree.ApplyDiff` | avl/tree.go:447-506 | replaces root and view ID, or reports the error and changes nothing; with the checksum of a well-formed tree the object is valid and holds that tree's map |
| `AvlTree.ReadAfterReopen` | avl/tree.go:58-71 | commit, open the store anew, look up: the answers are those of the tree before |
| `AvlTree.WriteToSnapshot` | collapse.go:33-34 | snapshot, set the height, write: the snapshot is updated and the tree is not touched |
| `AvlTree.DumpSnapshot` | protocol.go:120-120 | a snapshot's difference is that of the tree |
| `AvlCollector.GCProfile.Get` | avl/tree.go:518-529 | there is a profile exactly when there are more old roots than are preserved |
| `AvlCollector.GCProfile.MarkPhase` | avl/tree.go:537-558 | marks exactly the nodes below the preserved roots, or says which kind of entry was missing |
| `AvlCollector.GCProfile.SweepPhase` | avl/tree.go:560-594 | leaves the store, stops where and reports what the specified sweep does; only unmarked nodes of swept roots go, all of them if they were complete |
| `AvlCollector.GCProfile.PerformFullGC` | avl/tree.go:531-594 | if marking fails, nothing is touched and its reason returned; otherwise store, stop and outcome are those of the sweep, and with a fresh mark nothing unpreserved is left of the roots it swept |
| `BTreeNode.FindPlace` | internal/btree/btree.go:48-66 | items before the index are smaller than the key and items after it larger |
| `BTreeNode.BinaryFind` | internal/btree/btree.go:48-66 | the binary search returns that index and whether the key is there |
| `BTreeSet.Set` | internal/btree/btree.go:128-167 | uniform leaf depth and 12 to 30 items per node below; at most one item more, none when a value is replaced |
| `BTreeSet.AdoptFlat` | internal/btree/btree.go:102-167 | taking back a changed child, split or not, changes the ordered entries in that place only |
| `BTreeSet.SetFlat` | internal/btree/btree.go:128-167 | set is an update of the ordered entries |
| `BTreeSet.SetPrev` | internal/btree/btree.go:128-167 | and returns the value it replaced |
| `BTreeDelete.EvenFlat` | internal/btree/btree.go:307-380 | merging and both borrow cases keep the ordered entries |
| `BTreeDelete.EvenShape` | internal/btree/btree.go:307-380 | one child an item short and a legal neighbour come out as legal nodes |
| `BTreeDelete.RefillFlat` | internal/btree/btree.go:307-380 | evening out a short child keeps the entries of its parent |
| `BTreeDelete.DeleteMaxFlat` | internal/btree/btree.go:260-305 | takes out exactly the largest entry |
| `BTreeDelete.Delete` | internal/btree/btree.go:260-383 | keeps the shape; at most one item fewer; the same node when nothing is deleted |
| `BTreeDelete.DeleteFlat` | internal/btree/btree.go:260-383 | delete is removal from the ordered entries |
| `BTreeDelete.DeletePrev` | internal/btree/btree.go:260-383 | and returns the entry that went, if any |
| `BTreeHeap.SplitNode` | internal/btree/btree.go:102-126 | in place: the node keeps the lower half, a new node gets the upper half, and the two share no node |
| `BTreeHeap.SetNode` | internal/btree/btree.go:128-167 | in place: the linked nodes become what set makes of the tree; nothing outside the tree is touched and no node is shared |
| `BTreeHeap.AdoptSplit` | internal/btree/btree.go:157-164 | a full child is split and its new neighbour linked next to it |
| `BTreeHeap.MergeNodes` | internal/btree/btree.go:313-332 | the left node takes over the separator and all of the right node |
| `BTreeHeap.MoveRightNodes` | internal/btree/btree.go:333-358 | last item up, separator down to the right, with the child between them |
| `BTreeHeap.MoveLeftNodes` | internal/btree/btree.go:359-379 | first item up, separator down to the left, with the child between them |
| `BTreeHeap.RefillNode` | internal/btree/btree.go:307-380 | chooses the neighbour and the case as the specification does |
| `BTreeHeap.DeleteMaxNode` | internal/btree/btree.go:260-305 | in place: takes out the largest entry |
| `BTreeHeap.DeleteNode` | internal/btree/btree.go:260-383 | in place: the linked nodes become what delete makes of the tree, using only nodes it already had |
| `BTreeHeap.GetNode` | internal/btree/btree.go:211-223 | the value under the key, if any |
| `BTreeScan.Scan` | internal/btree/btree.go:176-200 | every entry, ascending, until the callback stops |
| `BTreeScan.Reverse` | internal/btree/btree.go:432-461 | every entry, descending, until the callback stops |
| `BTreeScan.Ascend` | internal/btree/btree.go:395-424 | the entries at or above the pivot, ascending |
| `BTreeScan.Descend` | internal/btree/btree.go:472-502 | the entries at or below the pivot, descending |
| `BTree.SetRefines` | internal/btree/btree.go:69-100 | Set with its root split is map update and keeps shape, order and length |
| `BTree.DeleteRefines` | internal/btree/btree.go:231-258 | Delete with its root shrink is map removal and keeps shape, order and length |
| `BTree.RunRefines` | internal/btree/btree.go:69-258 | any sequence of Set and Delete agrees with a plain map, and length is its number of keys |
| `BTree.BTree.Set` | internal/btree/btree.go:69-100 | the object's entries are updated in place and the replaced value returned |
| `BTree.BTree.Get` | internal/btree/btree.go:203-209 | what the entries hold under the key |
| `BTree.BTree.Delete` | internal/btree/btree.go:231-258 | the object's entries lose the key and the removed value is returned |
| `BTree.BTree.Scan` | internal/btree/btree.go:170-174 | all entries, ascending |
| `BTree.BTree.Ascend` | internal/btree/btree.go:386-393 | entries from the pivot up |
| `BTree.BTree.Reverse` | internal/btree/btree.go:426-430 | all entries, descending |
| `BTree.BTree.Descend` | internal/btree/btree.go:463-470 | entries from the pivot down |
| `Applier.GasIsCovered` | tx_applier.go:289-347 | when a call runs, its gas fits its limit, its limit fits what is left, and deposit plus payer balance cover it, even when their 64-bit sum wraps |
| `Applier.Execute` | tx_applier.go:275-390 | every call ends with no more gas left than it found, for the same payer and first limit; nested calls terminate |
| `Applier.RunQueue` | tx_applier.go:381-386 | sub-transactions only use up the shared gas, and their failures are not reported |
| `Applier.ApplyBatch` | tx_applier.go:228-248 | all entries draw on one gas limit, which only runs down |
| `ApplierLaws.PayIsLawful` | tx_applier.go:250-273 | a transfer, to oneself too, moves the amount and loses nothing but a whole wrap of 64 bits |
| `ApplierLaws.DepositIsLawful` | tx_applier.go:111-122 | a gas deposit moves the amount from balance to gas balance |
| `ApplierLaws.ChargeIsLawful` | tx_applier.go:336-374 | gas comes from the contract's deposit first, then from the payer, and is counted once |
| `ApplierLaws.StakeIsLawful` | tx_applier.go:134-191 | staking, unstaking and reward withdrawal conserve value; requests carry the block's index |
| `ApplierLaws.BodyIsLawful` | tx_applier.go:51-390 | any transaction with everything it causes: value is conserved, code is written once, requests only grow, bystanders are spared, gas burned is exactly what the meter ran down |
| `ApplierLaws.TransactionConserves` | tx_applier.go:42-72 | while the supply stays below 2^64: balances, stakes, rewards, gas balances, pending withdrawals and burned gas together change by exactly what the faucet issued, also when the transaction fails midway |
| `ApplierLaws.BystandersLoseNothing` | tx_applier.go:74-390 | an account that neither sent the transaction nor holds a contract keeps stake, reward and gas balance, and loses no balance while the supply stays below 2^64 |
| `ApplierLaws.GasIsBounded` | tx_applier.go:289-374 | all gas of a transaction, at any depth of calls, is at most what its first call asked for; in a batch, what the one entry asked for that makes the first call |
| `ApplierLaws.BatchInParts` | tx_applier.go:228-248 | a batch is its first part followed by its second, unless the first fails, and then the second is not applied |
| `ApplierMeaning.PayMoves` | tx_applier.go:250-273 | sender less the amount, recipient more by it, everyone and everything else unchanged |
| `ApplierMeaning.PayIsUndone` | tx_applier.go:250-273 | paying back restores every holding, and paying oneself changes none |
| `ApplierMeaning.PlainBatch` | tx_applier.go:228-248 | a batch of transfers that only pay, with the supply below 2^64: exactly the entries up to the first that the balance, less what went to others before, does not cover are paid; sender and recipients end up with the sums; it succeeds if and only if that is all of them |
| `ApplierMeaning.PlacedStakeIsUndone` | tx_applier.go:134-164 | a placed stake can be withdrawn again, which restores every holding |
| `ApplierMeaning.WithdrawnStakeIsUndone` | tx_applier.go:134-164 | a withdrawn stake can be placed again, which restores every holding |
| `ApplierMeaning.ChargeSplits` | tx_applier.go:336-374 | deposit and payer together pay exactly the gas, the payer only once the deposit is empty, nobody else anything |
| `ApplierMeaning.ContractIsCreatedOnce` | tx_applier.go:193-226 | valid code is there from then on, even when the deposit fails, and a second creation under the same ID changes nothing |
| `ApplierMeaning.FailedCallOnlyCosts` | tx_applier.go:275-360 | a call that runs and fails takes its gas from deposit and payer, and leaves no state, code, request or sub-transaction |
| `ApplierMeaning.BatchSucceeds` | tx_applier.go:228-248 | a batch succeeds if and only if each entry succeeds on what the entries before it left |
| `Collapse.EveryTransactionIsDecided` | collapse.go:54-103 | every transaction of a block is applied or rejected, exactly once |
| `Collapse.RoundsTallied` | collapse.go:54-103 | fees taken plus what is left is what was there plus what was issued, and the counted stakes sum to the total |
| `Collapse.StakersQualify` | collapse.go:76-85 | only senders of the block whose stake reached the minimum share in the fees |
| `Collapse.SharesFit` | collapse.go:105-112 | with exact division the rewards never exceed the fees and fall short by less than one per staker |
| `Collapse.OrderDoesNotMatter` | collapse.go:105-112 | however shares are computed, rewarding the stakers in any order gives the same rewards |
| `Collapse.DistributeAdds` | collapse.go:105-112 | however shares are computed, distribution adds exactly their sum |
| `Collapse.DistributeConserves` | collapse.go:105-112 | with exact division it hands out the fees but for the rounding dust, and none of them without stake |
| `Collapse.DueIsPaid` | collapse.go:295-315 | exactly the requests old enough are paid, to those who made them; the others wait in order |
| `Collapse.WithdrawalsConserve` | collapse.go:295-315 | paying requests moves value from pending to balances |
| `Collapse.NoWithdrawalIsPaid` | collapse.go:105-123 | collapsing a block pays none of the withdrawals requested in it |
| `Collapse.BlockAccounts` | collapse.go:30-123 | with supply and counted stake below 2^64, however shares are computed: over a whole block total value changes by what the faucet issued, less the fees, plus what was handed out; none is created if and only if that is no more than the fees |
| `Collapse.BlockConserves` | collapse.go:30-123 | with exact division none is created, and what is lost is less than one per staker, or the fees without stakers |
| `Rejection.RejectedCleanlyIff` | tx_applier.go:74-226 | a rejected payload has left holdings, code, states and requests alone if and only if it does not parse, asks for a call where there is no code, exceeds the balance, moves nothing and makes no deposit, or creates a contract that exists or is invalid |
| `Rejection.RejectedTransferPays` | tx_applier.go:96-131 | a rejected call to a contract leaves the contract with the amount |
| `Rejection.RejectedBatch` | tx_applier.go:228-248 | a rejected batch leaves what the entries before the failing one did, and exactly that if and only if the failing entry leaves no trace |
| `Rejection.FeeIsKept` | collapse.go:54-97 | a transaction of a block from anyone but the faucet leaves the ledger as it was if and only if its sender cannot pay the fee; the faucet pays none |
| `Supply.ChainAccounts` | collapse.go:30-123 | over any chain of blocks whose sums stay below 2^64, however shares are computed: what accounts hold at the end, plus all fees, gas and requested withdrawals, is what they held at the start, plus all the faucet issued and all that was handed out |
| `Supply.ChainInRange` | collapse.go:30-123 | with exact division and counted stakes below 2^64: if the holdings at the start and all that the faucet issues fit into 64 bits, no sum of any block wraps, and the holdings never exceed that |
| `CollapseContext.WriteBackIsMerge` | collapse.go:343-381 | writing back the noted accounts alone brings the tree to everything the cache shows |
| `CollapseContext.Context.constructor` | collapse.go:148-172 | a new context shows the tree as it is, with no requests |
| `CollapseContext.Context.ReadBalance` | collapse.go:182-193 | the value seen through the cache; caching it changes nothing that can be seen |
| `CollapseContext.Context.ReadStake` | collapse.go:195-206 | likewise for stakes |
| `CollapseContext.Context.ReadReward` | collapse.go:208-219 | likewise for rewards |
| `CollapseContext.Context.ReadGas` | collapse.go:221-232 | likewise for gas balances |
| `CollapseContext.Context.ReadCode` | collapse.go:234-245 | likewise for contract code |
| `CollapseContext.Context.AddAccount` | collapse.go:252-259 | accounts are noted once, in the order of their first write |
| `CollapseContext.Context.WriteBalance` | collapse.go:261-264 | what is seen changes in one entry, and the account is noted |
| `CollapseContext.Context.WriteReward` | collapse.go:271-274 | likewise; an account noted before keeps its place |
| `CollapseContext.Context.Flush` | collapse.go:343-381 | the tree becomes what was seen through the cache, or stays as it is when it has changed in the meantime |
| `AccountKeys.WordsReadBack` | contract.go:393-421 | globals written as bytes read back as they were |
| `AccountKeys.KeysAreDistinct` | db.go:248-269 | no two fields or accounts share a key |
| `AccountKeys.PageKeysAreDistinct` | db.go:202-230 | no two pages share a key, and none is the key of a field |
| `AccountTree.StoresOnce` | db.go:117-260 | a store stands for one set of accounts only |
| `AccountTree.OthersAreSpared` | collapse.go:353-377 | flushing one account changes nothing that is read about another |
| `AccountTree.PagesAreSaved` | contract.go:442-473 | the writes for a contract's pages do to the tree what saving does to the pages |
| `AccountTree.AccountIsRead` | collapse.go:353-377 | after the flush of an account, reading it gives what was cached and otherwise what was there, with empty code absent and memory cut to whole pages |
| `AccountTree.CountNeverChanges` | collapse.go:351-351 | a flush writes back the count of accounts that it read |
| `AccountTree.FlushStores` | collapse.go:343-381 | after a flush the tree stands for the accounts written back, as far as it can show them |
| `AccountTree.FlushedTree` | collapse.go:343-381 | the flush leaves a legal AVL tree at the block's height |
| `StateFlush.SaveMemory` | contract.go:442-473 | the loop over pages, reading the tree as it goes, makes exactly the specified inserts |
| `StateFlush.FlushAccount` | collapse.go:353-377 | so do the writes for an account |
| `StateFlush.Flush` | collapse.go:343-381 | a tree with another checksum is left alone; otherwise it goes through the specified inserts and stands for what was seen through the cache |
| `StateFlush.CollapseBlock` | collapse.go:30-123 | a block collapsed over a snapshot of the tree: the snapshot stands for the accounts after the block, and the tree is not touched |
| `Replica.CollapseTreeIsGood` | collapse.go:30-123 | applying transactions to the tree is applying them to the accounts it stands for |
| `Replica.EveryTipIsReplayed` | ledger.go:756-810 | in every state of every run of the finalisation loop over the tree, whatever peers vote: the tree is legal, the accounts read from it are the start replayed with the finalised blocks, one for each finalisation and each applied to what can be read of the accounts before it, and the tip's Merkle root is the hash of its root |
| `Replica.NodesAgree` | ledger.go:756-810 | nodes whose tips carry the same Merkle root hold the same accounts, however each got there |
| `BlockApplier.TransferBalance` | tx_applier.go:250-273 | the transfer through the cache, or nothing when the balance is too small |
| `BlockApplier.ChargeGas` | tx_applier.go:336-374 | the charge through the cache; the fatal branch is unreachable |
| `BlockApplier.Execute` | tx_applier.go:275-390 | a call through the cache leaves ledger, gas state and result as specified; the fatal branches are unreachable |
| `BlockApplier.ApplyBody` | tx_applier.go:51-72 | so does a transaction with everything it causes |
| `BlockApplier.ApplyTransfer` | tx_applier.go:74-132 | so does a transfer |
| `BlockApplier.ApplyStake` | tx_applier.go:134-191 | so does a stake operation |
| `BlockApplier.ApplyContract` | tx_applier.go:193-226 | so does the creation of a contract |
| `BlockApplier.ApplyBatch` | tx_applier.go:228-248 | so does the loop over a batch |
| `BlockApplier.DistributeRewards` | collapse.go:105-112 | whatever order the stakers are picked in, the outcome is the same and no account changes its place in the flush order |
| `BlockApplier.ProcessWithdrawals` | collapse.go:295-315 | the loop pays what is due and keeps the rest |
| `BlockApplier.CollapseTransactions` | collapse.go:30-123 | a block through the cache and its flush leaves exactly the entries, and the applied and rejected lists, of the direct computation |
| `Snowball.MajorityIsBest` | snowball.go:69-80 | the first of the votes with the highest tally among those with an ID, and none only if none has an ID |
| `Snowball.DecidedIffStreak` | snowball.go:46-126 | for beta at least 1, decided if and only if beta + 1 consecutive ticks since the reset had a quorum for one ID |
| `Snowball.BetaZeroFails` | snowball.go:117-125 | for beta 0 a first quorum tick does not decide |
| `Snowball.DecidedAtZero` | snowball.go:105-125 | for beta 0, decided if and only if two successive wins, missed ticks between them or not, went to one ID |
| `Snowball.StallsGiveUp` | snowball.go:88-107 | over any ticks without a quorum the preferred vote is given up if and only if those with a majority bring the stalls above ten times beta, and no win is counted or forgotten |
| `Snowball.CountsAreWins` | snowball.go:110-115 | below 65,536 quorum ticks the counters are the numbers of ticks won |
| `Snowball.PreferredHasWon` | snowball.go:110-125 | the vote preferred at the decision has itself won at least beta + 1 quorum ticks |
| `Snowball.Sampler.TickVotes` | snowball.go:61-126 | the method is the specified step; after the decision it changes nothing |
| `Finalizer.FilterSpec` | ledger.go:1036-1134 | a vote keeps its block if and only if the block is cached as valid or passes every check; the cache gains only such blocks |
| `Finalizer.FilterInvalidVotes` | ledger.go:1036-1134 | the loop clears votes in place as specified |
| `Finalizer.Validate` | ledger.go:1052-1132 | height, availability, age, order and Merkle root, all of them |
| `Finalizer.QueryWinner` | ledger.go:943-954 | a quorum is always for a block that survived the filter |
| `Finalizer.QueryInv` | ledger.go:831-954 | a query keeps the invariant that blocks which ever won were validated against the current tip |
| `Finalizer.FinalizeSucceeds` | ledger.go:756-829 | the Merkle check cannot fail, the height rises by one, and the new tip records the checksum of the accounts |
| `Finalizer.EveryStateSafe` | ledger.go:675-829 | in every state of every run the tip's Merkle root is the accounts' checksum, and its height counts the finalisations |
| `LedgerNode.Node.QueryPeers` | ledger.go:920-954 | collecting, filtering in place and ticking is the specified query step |
| `LedgerNode.Node.FinalizeBlock` | ledger.go:756-829 | applies the decided block; its early returns are never taken |
| `LedgerNode.Node.Pass` | ledger.go:680-727 | one pass of the loop is one step of the machine; the height moves only by a finalisation, by one |
| `Mempool.AddInv` | transactions.go:61-79 | adding keeps the index exact and the buffer fresh |
| `Mempool.ReshuffleInv` | transactions.go:134-195 | so does moving on to the next block |
| `Mempool.ProposableIsPrefix` | transactions.go:290-312 | the first eligible IDs in index order, as many as a block may hold; a limit of zero is overstepped if and only if the first entry is eligible |
| `Mempool.ProposableAscends` | transactions.go:290-312 | proposed IDs are strictly ascending in the order that votes are checked for |
| `Mempool.RunInv` | transactions.go:61-195 | after any run the index holds exactly the buffered IDs that are not final, each under its key for the latest block |
| `Mempool.NeverProposedAgain` | transactions.go:134-195 | an ID finalised by some block of the run is never proposable again, even after its mark is pruned |
| `Mempool.Transactions.AddTx` | transactions.go:61-79 | the object after add |
| `Mempool.Transactions.Mark` | transactions.go:117-127 | the object after markMissing, and whether the ID was unknown |
| `Mempool.Transactions.BatchMarkMissing` | transactions.go:102-115 | records every unknown ID at the height of the latest block, and says whether there was one |
| `Mempool.Transactions.BatchFind` | transactions.go:232-249 | all the transactions in order, or none if one is unknown |
| `Mempool.Transactions.ProposableIDs` | transactions.go:290-312 | the scan of the index yields the specified list |
| `Mempool.Transactions.ReshufflePending` | transactions.go:134-195 | the object after a block, and exactly the stale IDs, each once |
| `Proposal.OwnProposalApprovedIff` | ledger.go:732-754 | a node's own proposal passes its own vote filter if and only if no transaction in it expires at the height it is proposed for |
| `Proposal.LastBlockIsVotedDown` | ledger.go:1074-1079 | a transaction in its last block is proposed and the proposal rejected |
| `Cuckoo.XorUndone` | internal/cuckoo/filter.go:128-128 | exclusive or with the same word twice is the identity |
| `Cuckoo.AltInvolution` | internal/cuckoo/filter.go:160-166 | the other bucket of the other bucket is the first one, for every fingerprint |
| `Cuckoo.KickOccurrences` | internal/cuckoo/filter.go:123-134 | however the slots are chosen, eviction neither duplicates nor drops a fingerprint but the one in hand |
| `Cuckoo.InsertOccurrences` | internal/cuckoo/filter.go:98-137 | a success adds one fingerprint in its pair of buckets, a duplicate changes nothing, an exhausted insert loses exactly one |
| `Cuckoo.InsertNonZero` | internal/cuckoo/filter.go:98-137 | the number of used slots rises exactly when the insert succeeds |
| `Cuckoo.NoFalseNegatives` | internal/cuckoo/filter.go:98-158 | unless it is exhausted, an insert keeps every positive lookup positive and makes the new ID positive |
| `Cuckoo.DeleteOccurrences` | internal/cuckoo/filter.go:139-153 | deletes one fingerprint if there is one and says so |
| `Cuckoo.DeleteHides` | internal/cuckoo/filter.go:139-158 | deleting one ID makes another go unreported if and only if they share fingerprint and buckets and one occurrence was left |
| `Cuckoo.Filter.InsertId` | internal/cuckoo/filter.go:98-137 | the table after the insert; the counter equals the number of used slots |
| `Cuckoo.Filter.DeleteId` | internal/cuckoo/filter.go:139-153 | the table after the delete; likewise |
| `Cuckoo.Filter.LookupId` | internal/cuckoo/filter.go:155-158 | whether either bucket holds the fingerprint |
| `ContractMemory.SaveThenLoad` | contract.go:423-473 | over any entries left by earlier saves a saved memory loads back cut to whole pages, so unchanged if and only if its length is a multiple of the page size |
| `ContractMemory.SaveAgain` | contract.go:442-473 | saving the same memory again writes nothing |
| `ContractMemory.PageStore.SaveSnapshot` | contract.go:442-473 | the loop over pages stores what the specification says |
| `ContractMemory.PageStore.LoadSnapshot` | contract.go:423-440 | the buffer filled page by page is the memory the pages stand for |

## Left out

- Networking: gRPC, gossip and the sync protocol are not modelled; peers' votes are arbitrary and applying a diff is not a step of `AvlRuns`.
- Virtual machine: its internals and host functions are not modelled; a cached and a reloaded contract state are taken to behave alike, and no claim is made about memory that a failed call has already moved into the machine.
- Float arithmetic: the rounding of float64 is not modelled; reward shares are an arbitrary function, the fee is the exact twentieth, and the tallies of `vote.go` are arbitrary.
- Collapse.SharesFit: states the bound for exact division, because it depends on how shares are rounded; what holds for any rounding is `Collapse.DistributeAdds`.
- Collapse.DistributeConserves: likewise for exact division.
- Collapse.BlockConserves: likewise; for any rounding see `Collapse.BlockAccounts`.
- AvlTree.Tree.LoadNode: a stored node whose subtree is incomplete is not found, because trees are loaded as a whole.
- Byte codecs: account entries are bytes, but payloads, blocks, nodes and diff records are parsed values; a transaction that does not parse is one constructor, and byte-level end-of-stream cases are not covered.
- Lazy loading: a tree is loaded as a whole instead of child by child, so partial loads and their panics do not occur.
- Store failures, locks and goroutines: every modelled step is atomic and the store never fails.
- Slots beyond the used part: B-tree nodes hold the used prefix of their fixed arrays, so clearing unused slots is not visible.
- Account iteration and the update notifier of diffs: they would only add easy members.
- Cached entries: which entries a block leaves in the cache, and in which order accounts are flushed, is a function given to `Replica`, required only to have the effect of the block; `BlockApplier.ApplyBlock` produces a context with that effect.
- Page compression: snappy is any encoding that can be undone and is never empty.
- Missing marks made while votes are filtered: modelled in `Mempool`, not in `Finalizer`.
- `deleteCount` of a collection, `BatchUnsafeAdd`, `BatchMarkFinalized`, the block ring, and the two other LRU caches.
- AvlTree.Tree.DumpDiff: requires a root, because the source dereferences it without a check.
