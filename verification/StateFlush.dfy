/** The flush of a block's cache (collapse.go) as it runs over the state tree, one insert after the other. */
module StateFlush {
  import opened Bytes
  import opened SortedSeq
  import opened Accounts
  import opened AvlNode
  import opened AvlLineage
  import opened AvlTree
  import opened AccountKeys
  import opened AccountTree
  import opened ContractMemory
  import opened CollapseContext
  import opened Applier
  import opened Collapse
  import opened BlockApplier

  lemma {:induction false} RunConcat(root: Option<Node>, a: seq<Op>, b: seq<Op>)
    requires ExactRoot(root)
    ensures Run(root, a + b) == Run(Run(root, a), b)
    decreases |a|
  {
    if a == [] {
      assert a + b == b;
    } else {
      assert (a + b)[1..] == a[1..] + b;
      RunConcat(Apply(root, a[0]), a[1..], b);
    }
  }

  /** The tree has been through these writes, and nothing else has happened to it. */
  ghost predicate Wrote(root: Option<Node>, m: Store, ops: seq<Op>, t: Tree)
    requires ExactRoot(root)
    reads t, t.kv, t.cache
  {
    t.Valid() && t.Current() && t.root == Run(root, ops) && t.Model() == RunMap(m, ops)
  }

  lemma {:induction false} WroteModel(root: Option<Node>, m: Store, ops: seq<Op>, t: Tree)
    requires ExactRoot(root) && Wrote(root, m, ops, t)
    ensures t.Model() == RunMap(m, ops)
  {
  }

  /** One more insert. */
  method Put(t: Tree, key: Key, value: Value, ghost root: Option<Node>, ghost m: Store, ghost ops: seq<Op>)
    requires ExactRoot(root) && Wrote(root, m, ops, t)
    modifies t`root
    ensures Wrote(root, m, ops + [PutOp(key, value, t.viewID)], t)
  {
    ghost var op := PutOp(key, value, t.viewID);
    RunConcat(root, ops, [op]);
    RunMapConcat(m, ops, [op]);
    RunMapOne(RunMap(m, ops), key, value, t.viewID);
    assert [op][1..] == [];
    ghost var before := t.root;
    assert Run(before, [op]) == Run(Apply(before, op), []);
    t.Insert(key, value);
  }

  /** The contract's pages read the same in both. */
  ghost predicate SamePages(c: Packing, m: Store, m': Store, id: Id) {
    forall k: Amount :: ReadPage(c, m, id, k) == ReadPage(c, m', id, k)
  }

  /** One of the entries of an account, other than its pages. */
  method PutField(
      t: Tree, c: Packing, field: byte, id: Id, value: Value,
      ghost root: Option<Node>, ghost m: Store, ghost ops: seq<Op>)
    requires ExactRoot(root) && Wrote(root, m, ops, t)
    modifies t`root
    ensures Wrote(root, m, ops + [PutOp(AccountKey(field, id), value, t.viewID)], t)
    ensures SamePages(c, t.Model(), old(t.Model()), id)
  {
    hide ReadPage, Run;
    ghost var before := t.Model();
    PagesApart(c, before, id, field, value);
    RunMapConcat(m, ops, [PutOp(AccountKey(field, id), value, t.viewID)]);
    RunMapOne(before, AccountKey(field, id), value, t.viewID);
    Put(t, AccountKey(field, id), value, root, m, ops);
  }

  method PutAmount(
      t: Tree, c: Packing, field: byte, pot: Pot, id: Id,
      ghost root: Option<Node>, ghost m: Store, ghost ops: seq<Op>)
    requires ExactRoot(root) && Wrote(root, m, ops, t)
    modifies t`root
    ensures Wrote(root, m, ops + AmountOps(field, pot, id, t.viewID), t)
    ensures SamePages(c, t.Model(), old(t.Model()), id)
  {
    hide ReadPage, Run, Wrote;
    if id in pot {
      PutField(t, c, field, id, Pack64(pot[id]), root, m, ops);
    } else {
      assert ops + [] == ops;
    }
  }

  method PutCode(
      t: Tree, c: Packing, code: map<Id, seq<byte>>, id: Id,
      ghost root: Option<Node>, ghost m: Store, ghost ops: seq<Op>)
    requires ExactRoot(root) && Wrote(root, m, ops, t)
    modifies t`root
    ensures Wrote(root, m, ops + CodeOps(code, id, t.viewID), t)
    ensures SamePages(c, t.Model(), old(t.Model()), id)
  {
    hide ReadPage, Run, Wrote;
    if id in code {
      PutField(t, c, CODE, id, code[id], root, m, ops);
    } else {
      assert ops + [] == ops;
    }
  }

  method LoadPage(t: Tree, c: Packing, id: Id, k: Amount) returns (page: seq<byte>)
    requires t.Valid()
    ensures page == ReadPage(c, t.Model(), id, k)
  {
    var encoded := t.Lookup(PageKey(id, k));
    if encoded.None? || encoded.value == [] {
      return [];
    }
    var decoded := c.unpack(encoded.value);
    page := if decoded.None? then [] else decoded.value;
  }

  /** The pages below k have been written; page k has not been touched yet. */
  lemma {:induction false} NextPageUntouched(
      c: Packing, m0: Store, start: Store, id: Id, mem: LinearMemory, k: nat, n: nat, view: nat)
    requires Faithful(c) && SamePages(c, m0, start, id) && k < n && n * PAGE <= |mem|
    ensures ReadPage(c, RunMap(m0, PageOps(c, start, id, mem, k, view)), id, k) == ReadPage(c, start, id, k)
  {
    hide ReadPage, PageOps, SavePages;
    PagesAreSaved(c, m0, start, id, mem, k, n, view);
    SavePagesHold(PagesIn(c, start, id, n), mem, k, k * PAGE);
    assert PageOf(PagesIn(c, RunMap(m0, PageOps(c, start, id, mem, k, view)), id, n), k) ==
           PageOf(PagesIn(c, start, id, n), k);
  }

  /** One page: written unless what is stored stands for it already. */
  method SavePageAt(
      t: Tree, c: Packing, id: Id, mem: LinearMemory, k: nat,
      ghost root: Option<Node>, ghost m: Store, ghost ops: seq<Op>, ghost start: Store)
    requires ExactRoot(root) && Wrote(root, m, ops, t) && (k + 1) * PAGE <= |mem|
    requires ReadPage(c, t.Model(), id, k) == ReadPage(c, start, id, k)
    modifies t`root
    ensures Wrote(root, m, ops + PageOp(c, start, id, mem, k, t.viewID), t)
  {
    hide ReadPage, Run, RunMap;
    var was := LoadPage(t, c, id, k);
    var page := Window(mem, k);
    var identical;
    if |was| == 0 {
      identical := AllZero(page);
    } else {
      identical := was == page;
    }
    if !identical {
      Put(t, PageKey(id, k), c.pack(page), root, m, ops);
    } else {
      assert ops + [] == ops;
    }
  }

  lemma PageOpsNext(c: Packing, start: Store, id: Id, mem: LinearMemory, k: nat, view: nat, ops: seq<Op>)
    requires (k + 1) * PAGE <= |mem|
    ensures ops + PageOps(c, start, id, mem, k, view) + PageOp(c, start, id, mem, k, view) ==
            ops + PageOps(c, start, id, mem, k + 1, view)
  {
  }

  /** SaveContractMemorySnapshot, after the page count. */
  method SaveMemory(
      t: Tree, c: Packing, id: Id, mem: LinearMemory,
      ghost root: Option<Node>, ghost m: Store, ghost ops: seq<Op>, ghost start: Store)
    requires ExactRoot(root) && Wrote(root, m, ops, t) && Faithful(c) && SamePages(c, t.Model(), start, id)
    modifies t`root
    ensures Wrote(root, m, ops + PageOps(c, start, id, mem, |mem| / PAGE, t.viewID), t)
  {
    hide ReadPage, Run, RunMap, Faithful, SamePages, PageOp, Wrote;
    var n := |mem| / PAGE;
    ghost var m0 := t.Model();
    WroteModel(root, m, ops, t);
    assert ops + PageOps(c, start, id, mem, 0, t.viewID) == ops;
    hide PageOps;
    for k := 0 to n
      invariant Wrote(root, m, ops + PageOps(c, start, id, mem, k, t.viewID), t)
    {
      ghost var done := PageOps(c, start, id, mem, k, t.viewID);
      WroteModel(root, m, ops + done, t);
      RunMapConcat(m, ops, done);
      NextPageUntouched(c, m0, start, id, mem, k, n, t.viewID);
      SavePageAt(t, c, id, mem, k, root, m, ops + done, start);
      PageOpsNext(c, start, id, mem, k, t.viewID, ops);
    }
  }

  method PutVm(
      t: Tree, c: Packing, vms: map<Id, VmState>, id: Id,
      ghost root: Option<Node>, ghost m: Store, ghost ops: seq<Op>, ghost start: Store)
    requires ExactRoot(root) && Wrote(root, m, ops, t) && Faithful(c) && SamePages(c, t.Model(), start, id)
    modifies t`root
    ensures Wrote(root, m, ops + VmOps(c, start, vms, id, t.viewID), t)
  {
    hide ReadPage, Run, RunMap, Faithful, Wrote, PageOps;
    if id !in vms {
      assert ops + [] == ops;
      return;
    }
    var n := |vms[id].memory| / PAGE;
    ghost var first := [PutOp(AccountKey(NUM_PAGES, id), Pack64(n), t.viewID)];
    ghost var pages := PageOps(c, start, id, vms[id].memory, n, t.viewID);
    ghost var last := [PutOp(AccountKey(GLOBALS, id), PackWords(vms[id].globals), t.viewID)];
    PutField(t, c, NUM_PAGES, id, Pack64(n), root, m, ops);
    SaveMemory(t, c, id, vms[id].memory, root, m, ops + first, start);
    PutField(t, c, GLOBALS, id, PackWords(vms[id].globals), root, m, ops + first + pages);
    assert ops + first + pages + last == ops + (first + pages + last);
  }

  /** All the entries of one account. */
  method FlushAccount(
      t: Tree, c: Packing, cache: Accounts, id: Id, ghost root: Option<Node>, ghost m: Store, ghost ops: seq<Op>)
    requires ExactRoot(root) && Wrote(root, m, ops, t) && Faithful(c)
    modifies t`root
    ensures Wrote(root, m, ops + AccountOps(c, old(t.Model()), cache, id, t.viewID), t)
  {
    hide ReadPage, Run, RunMap, Faithful, Wrote, AmountOps, CodeOps, VmOps;
    ghost var start := t.Model();
    ghost var balance := AmountOps(BALANCE, cache.balances, id, t.viewID);
    ghost var stake := AmountOps(STAKE, cache.stakes, id, t.viewID);
    ghost var reward := AmountOps(REWARD, cache.rewards, id, t.viewID);
    ghost var gas := AmountOps(GAS, cache.gas, id, t.viewID);
    ghost var code := CodeOps(cache.code, id, t.viewID);
    ghost var vm := VmOps(c, start, cache.vms, id, t.viewID);
    PutAmount(t, c, BALANCE, cache.balances, id, root, m, ops);
    PutAmount(t, c, STAKE, cache.stakes, id, root, m, ops + balance);
    PutAmount(t, c, REWARD, cache.rewards, id, root, m, ops + balance + stake);
    PutAmount(t, c, GAS, cache.gas, id, root, m, ops + balance + stake + reward);
    PutCode(t, c, cache.code, id, root, m, ops + balance + stake + reward + gas);
    PutVm(t, c, cache.vms, id, root, m, ops + balance + stake + reward + gas + code, start);
    assert ops + balance + stake + reward + gas + code + vm == ops + AccountOps(c, start, cache, id, t.viewID);
  }

  lemma NothingWritten(t: Tree)
    requires t.Valid() && t.Current()
    ensures Wrote(t.root, t.Model(), [], t)
  {
  }

  /** The writes of a flush, account by account. */
  method FlushCache(t: Tree, c: Packing, cache: Accounts, ids: seq<Id>)
    requires t.Valid() && t.Current() && Faithful(c)
    modifies t`root
    ensures Wrote(old(t.root), old(t.Model()), FlushOps(c, old(t.Model()), cache, ids, t.viewID), t)
  {
    hide Run, RunMap, Faithful, AccountOps, Wrote;
    ghost var root, m := t.root, t.Model();
    var count := t.Lookup([ACCOUNTS_LEN]);
    var value := if count.Some? && |count.value| == 8 then count.value else Pack64(0);
    NothingWritten(t);
    Put(t, [ACCOUNTS_LEN], value, root, m, []);
    assert [] + [PutOp([ACCOUNTS_LEN], value, t.viewID)] == FlushOps(c, m, cache, ids[..0], t.viewID);
    for i := 0 to |ids|
      invariant Wrote(root, m, FlushOps(c, m, cache, ids[..i], t.viewID), t)
    {
      ghost var before := FlushOps(c, m, cache, ids[..i], t.viewID);
      assert ids[..i + 1][..i] == ids[..i];
      WroteModel(root, m, before, t);
      FlushAccount(t, c, cache, ids[i], root, m, before);
    }
    assert ids[..|ids|] == ids;
  }

  /**
    * The flush of a context, which was made for a tree with the given checksum. A tree with another checksum is left
    * alone. Otherwise it goes through exactly the specified writes, and then stands for the accounts as they were
    * seen through the cache.
    */
  method Flush(ctx: Context, t: Tree, c: Packing, checksum: Option<Digest>, ghost made: Option<Node>)
    returns (ok: bool)
    requires t.Valid() && t.Current() && Faithful(c) && ctx.Sound()
    requires checksum == RootId(made) && Stores(c, ToMap(Entries(made)), ctx.checksum)
    modifies t`root
    ensures t.Valid() && t.Current()
    ensures ok <==> old(t.Checksum()) == checksum
    ensures t.root ==
      if ok then Run(old(t.root), FlushOps(c, old(t.Model()), ctx.Cache(), ctx.accountIds, t.viewID)) else old(t.root)
    ensures ok ==> Stores(c, t.Model(), Visible(ctx.View().acc))
  {
    hide Run, RunMap, Faithful, Stores, FlushOps, Visible, CollapseContext.WriteBack;
    if t.Checksum() != checksum {
      return false;
    }
    SameIdSameEntries(t.root, made);
    FlushStores(c, t.Model(), ctx.checksum, ctx.Cache(), ctx.accountIds, t.viewID);
    WriteBackIsMerge(ctx.checksum, ctx.Cache(), ctx.accountIds);
    FlushCache(t, c, ctx.Cache(), ctx.accountIds);
    ok := true;
  }

  /**
    * Collapsing a block over the state tree: a snapshot of it gets the height as its view ID, the transactions are
    * applied through a context that reads the tree's accounts, and the context is flushed into the snapshot. The tree
    * itself is not touched.
    */
  method CollapseBlock(env: Env, t: Tree, accounts: StateTree, c: Packing, txs: seq<Tx>, height: nat)
    returns (snapshot: Tree)
    requires t.Valid() && (t.root.Some? ==> t.root.value.viewID <= height) && Faithful(c)
    requires Stores(c, t.Model(), accounts.acc)
    ensures fresh(snapshot) && snapshot.Valid() && snapshot.Current() && snapshot.viewID == height
    ensures Stores(c, snapshot.Model(), Visible(Collapsed(env, Ledger(accounts.acc, [], 0, 0), txs).acc))
  {
    hide Stores, Faithful, Visible, Collapsed, FlushOps;
    snapshot := t.Snapshot();
    snapshot.SetViewID(height);
    var ctx, _, _ := ApplyBlock(env, accounts, txs);
    var ok := Flush(ctx, snapshot, c, t.Checksum(), t.root);
    assert ok;
  }
}
