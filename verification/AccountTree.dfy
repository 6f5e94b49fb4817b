/** Accounts as entries of the state tree: reading them (db.go) and flushing a block's cache into it (collapse.go). */
module AccountTree {
  import opened Bytes
  import opened SortedSeq
  import opened Accounts
  import opened AvlNode
  import opened AvlLineage
  import opened AvlStore
  import opened AccountKeys
  import opened ContractMemory
  import CollapseContext

  type Store = map<Key, Value>

  /** The compression of pages. */
  datatype Packing = Packing(pack: seq<byte> -> seq<byte>, unpack: seq<byte> -> Option<seq<byte>>)

  ghost predicate Faithful(c: Packing) {
    forall page :: c.pack(page) != [] && c.unpack(c.pack(page)) == Some(page)
  }

  // Reading. An entry without bytes counts as absent.

  function Find<V>(m: map<Id, V>, id: Id): Option<V> {
    if id in m then Some(m[id]) else None
  }

  /** Amounts are written as eight bytes, so other lengths do not occur. */
  function ReadAmount(m: Store, field: byte, id: Id): Option<Amount> {
    var key := AccountKey(field, id);
    if key in m && |m[key]| == 8 then Some(Unpack64(m[key])) else None
  }

  function ReadCode(m: Store, id: Id): Option<seq<byte>> {
    var key := AccountKey(CODE, id);
    if key in m && m[key] != [] then Some(m[key]) else None
  }

  function ReadPage(c: Packing, m: Store, id: Id, k: Amount): seq<byte> {
    var key := PageKey(id, k);
    if key !in m || m[key] == [] then [] else
      var page := c.unpack(m[key]);
      if page.None? then [] else page.value
  }

  /** The first n pages of a contract. */
  function PagesIn(c: Packing, m: Store, id: Id, n: Amount): map<nat, seq<byte>> {
    map k: nat | k < n :: ReadPage(c, m, id, k)
  }

  function ReadGlobals(m: Store, id: Id): seq<Word> {
    var key := AccountKey(GLOBALS, id);
    if key in m && |m[key]| % 8 == 0 then UnpackWords(m[key]) else []
  }

  /** The saved state of a contract; nothing is ever saved that would not fit into memory. */
  function ReadVm(c: Packing, m: Store, id: Id): Option<VmState> {
    var n := ReadAmount(m, NUM_PAGES, id);
    if n.None? || n.value * PAGE >= TWO64 then None
    else Some(VmState(ReadGlobals(m, id), Memory(PagesIn(c, m, id, n.value), n.value)))
  }

  /** All that is known about one account. */
  datatype Row = Row(
    balance: Option<Amount>, stake: Option<Amount>, reward: Option<Amount>, gas: Option<Amount>,
    code: Option<seq<byte>>, vm: Option<VmState>)

  function ReadRow(c: Packing, m: Store, id: Id): Row {
    Row(ReadAmount(m, BALANCE, id), ReadAmount(m, STAKE, id), ReadAmount(m, REWARD, id), ReadAmount(m, GAS, id),
        ReadCode(m, id), ReadVm(c, m, id))
  }

  function RowOf(acc: Accounts, id: Id): Row {
    Row(Find(acc.balances, id), Find(acc.stakes, id), Find(acc.rewards, id), Find(acc.gas, id),
        Find(acc.code, id), Find(acc.vms, id))
  }

  /** Reading the store account by account gives these accounts. */
  ghost predicate Stores(c: Packing, m: Store, acc: Accounts) {
    forall id :: ReadRow(c, m, id) == RowOf(acc, id)
  }

  lemma {:induction false} FindDetermines<V>(a: map<Id, V>, b: map<Id, V>)
    requires forall id :: Find(a, id) == Find(b, id)
    ensures a == b
  {
    forall id ensures id in a <==> id in b ensures id in a ==> a[id] == b[id] {
      assert Find(a, id) == Find(b, id);
    }
  }

  lemma RowsDetermine(a: Accounts, b: Accounts)
    requires forall id :: RowOf(a, id) == RowOf(b, id)
    ensures a == b
  {
    forall id
      ensures Find(a.balances, id) == Find(b.balances, id) && Find(a.stakes, id) == Find(b.stakes, id)
      ensures Find(a.rewards, id) == Find(b.rewards, id) && Find(a.gas, id) == Find(b.gas, id)
      ensures Find(a.code, id) == Find(b.code, id) && Find(a.vms, id) == Find(b.vms, id)
    {
      assert RowOf(a, id) == RowOf(b, id);
    }
    FindDetermines(a.balances, b.balances);
    FindDetermines(a.stakes, b.stakes);
    FindDetermines(a.rewards, b.rewards);
    FindDetermines(a.gas, b.gas);
    FindDetermines(a.code, b.code);
    FindDetermines(a.vms, b.vms);
  }

  /** A store stands for one set of accounts only. */
  lemma StoresOnce(c: Packing, m: Store, a: Accounts, b: Accounts)
    requires Stores(c, m, a) && Stores(c, m, b)
    ensures a == b
  {
    forall id ensures RowOf(a, id) == RowOf(b, id) {
      assert ReadRow(c, m, id) == RowOf(a, id) && ReadRow(c, m, id) == RowOf(b, id);
    }
    RowsDetermine(a, b);
  }

  // What can be read back: code that is not empty, and memory in whole pages.

  function Trim(vm: VmState): VmState {
    vm.(memory := vm.memory[..|vm.memory| / PAGE * PAGE])
  }

  function VisibleRow(r: Row): Row {
    r.(code := if r.code == Some([]) then None else r.code, vm := if r.vm.Some? then Some(Trim(r.vm.value)) else None)
  }

  function Visible(acc: Accounts): Accounts {
    acc.(code := map id | id in acc.code && acc.code[id] != [] :: acc.code[id],
         vms := map id | id in acc.vms :: Trim(acc.vms[id]))
  }

  lemma VisibleRows(acc: Accounts, id: Id)
    ensures RowOf(Visible(acc), id) == VisibleRow(RowOf(acc, id))
  {
  }

  /** Everything that is read is visible. */
  lemma ReadIsVisible(c: Packing, m: Store, id: Id)
    ensures VisibleRow(ReadRow(c, m, id)) == ReadRow(c, m, id)
  {
    var vm := ReadVm(c, m, id);
    if vm.Some? {
      var mem := vm.value.memory;
      assert |mem| % PAGE == 0;
      assert mem[..|mem| / PAGE * PAGE] == mem;
    }
  }

  // Writing. Every write is an insert at the height of the block.

  function AmountOps(field: byte, pot: Pot, id: Id, view: nat): seq<Op> {
    if id in pot then [PutOp(AccountKey(field, id), Pack64(pot[id]), view)] else []
  }

  function CodeOps(code: map<Id, seq<byte>>, id: Id, view: nat): seq<Op> {
    if id in code then [PutOp(AccountKey(CODE, id), code[id], view)] else []
  }

  /** A page is written only if what is stored does not stand for it already. */
  function PageOp(c: Packing, m: Store, id: Id, mem: LinearMemory, k: nat, view: nat): seq<Op>
    requires (k + 1) * PAGE <= |mem|
  {
    var was, page := ReadPage(c, m, id, k), Window(mem, k);
    if (if was == [] then AllZero(page) else was == page) then []
    else [PutOp(PageKey(id, k), c.pack(page), view)]
  }

  function PageOps(c: Packing, m: Store, id: Id, mem: LinearMemory, n: nat, view: nat): seq<Op>
    requires n * PAGE <= |mem|
  {
    if n == 0 then [] else PageOps(c, m, id, mem, n - 1, view) + PageOp(c, m, id, mem, n - 1, view)
  }

  function VmOps(c: Packing, m: Store, vms: map<Id, VmState>, id: Id, view: nat): seq<Op> {
    if id !in vms then [] else
      var n := |vms[id].memory| / PAGE;
      [PutOp(AccountKey(NUM_PAGES, id), Pack64(n), view)]
      + PageOps(c, m, id, vms[id].memory, n, view)
      + [PutOp(AccountKey(GLOBALS, id), PackWords(vms[id].globals), view)]
  }

  /** The writes for one account, in the order of the source. */
  function AccountOps(c: Packing, m: Store, cache: Accounts, id: Id, view: nat): seq<Op> {
    AmountOps(BALANCE, cache.balances, id, view) + AmountOps(STAKE, cache.stakes, id, view)
    + AmountOps(REWARD, cache.rewards, id, view) + AmountOps(GAS, cache.gas, id, view)
    + CodeOps(cache.code, id, view) + VmOps(c, m, cache.vms, id, view)
  }

  /** The number of accounts, which is written back as it was read. */
  function Count(m: Store): seq<byte> {
    var key := [ACCOUNTS_LEN];
    if key in m && |m[key]| == 8 then m[key] else Pack64(0)
  }

  /** The writes of a flush. */
  function FlushOps(c: Packing, m: Store, cache: Accounts, ids: seq<Id>, view: nat): seq<Op> {
    if ids == [] then [PutOp([ACCOUNTS_LEN], Count(m), view)] else
      var before := FlushOps(c, m, cache, ids[..|ids| - 1], view);
      before + AccountOps(c, RunMap(m, before), cache, ids[|ids| - 1], view)
  }

  lemma {:induction false} RunMapConcat(m: Store, a: seq<Op>, b: seq<Op>)
    ensures RunMap(m, a + b) == RunMap(RunMap(m, a), b)
    decreases |a|
  {
    if a == [] {
      assert a + b == b;
    } else {
      assert (a + b)[1..] == a[1..] + b;
      RunMapConcat(ApplyMap(m, a[0]), a[1..], b);
    }
  }

  lemma {:induction false} RunMapOne(m: Store, key: Key, value: Value, view: nat)
    ensures RunMap(m, [PutOp(key, value, view)]) == m[key := value]
  {
    assert [PutOp(key, value, view)][1..] == [];
  }

  // Only an account's own entries are written for it.

  ghost predicate OwnOps(id: Id, view: nat, ops: seq<Op>) {
    forall i :: 0 <= i < |ops| ==> ops[i].PutOp? && Owns(id, ops[i].key) && ops[i].view == view
  }

  lemma {:induction false} PageOpsOwn(c: Packing, m: Store, id: Id, mem: LinearMemory, n: nat, view: nat)
    requires n * PAGE <= |mem|
    ensures OwnOps(id, view, PageOps(c, m, id, mem, n, view))
  {
    if n > 0 {
      PageOpsOwn(c, m, id, mem, n - 1, view);
      OwnersOfKeys(PAGES, id, n - 1, id);
    }
  }

  lemma OwnOpsConcat(id: Id, view: nat, a: seq<Op>, b: seq<Op>)
    requires OwnOps(id, view, a) && OwnOps(id, view, b)
    ensures OwnOps(id, view, a + b)
  {
  }

  lemma PartsOwn(cache: Accounts, id: Id, field: byte, pot: Pot, view: nat)
    ensures OwnOps(id, view, AmountOps(field, pot, id, view)) && OwnOps(id, view, CodeOps(cache.code, id, view))
  {
    OwnersOfKeys(field, id, 0, id);
    OwnersOfKeys(CODE, id, 0, id);
  }

  lemma VmOpsOwn(c: Packing, m: Store, vms: map<Id, VmState>, id: Id, view: nat)
    ensures OwnOps(id, view, VmOps(c, m, vms, id, view))
  {
    if id in vms {
      var n := |vms[id].memory| / PAGE;
      var first := [PutOp(AccountKey(NUM_PAGES, id), Pack64(n), view)];
      var pages := PageOps(c, m, id, vms[id].memory, n, view);
      var last := [PutOp(AccountKey(GLOBALS, id), PackWords(vms[id].globals), view)];
      OwnersOfKeys(NUM_PAGES, id, 0, id);
      OwnersOfKeys(GLOBALS, id, 0, id);
      PageOpsOwn(c, m, id, vms[id].memory, n, view);
      OwnOpsConcat(id, view, first, pages);
      OwnOpsConcat(id, view, first + pages, last);
    }
  }

  lemma AccountOpsOwn(c: Packing, m: Store, cache: Accounts, id: Id, view: nat)
    ensures OwnOps(id, view, AccountOps(c, m, cache, id, view))
  {
    hide OwnOps, AmountOps, CodeOps, VmOps;
    var balance, stake := AmountOps(BALANCE, cache.balances, id, view), AmountOps(STAKE, cache.stakes, id, view);
    var reward, gas := AmountOps(REWARD, cache.rewards, id, view), AmountOps(GAS, cache.gas, id, view);
    var code := CodeOps(cache.code, id, view);
    PartsOwn(cache, id, BALANCE, cache.balances, view);
    PartsOwn(cache, id, STAKE, cache.stakes, view);
    PartsOwn(cache, id, REWARD, cache.rewards, view);
    PartsOwn(cache, id, GAS, cache.gas, view);
    VmOpsOwn(c, m, cache.vms, id, view);
    OwnOpsConcat(id, view, balance, stake);
    OwnOpsConcat(id, view, balance + stake, reward);
    OwnOpsConcat(id, view, balance + stake + reward, gas);
    OwnOpsConcat(id, view, balance + stake + reward + gas, code);
    OwnOpsConcat(id, view, balance + stake + reward + gas + code, VmOps(c, m, cache.vms, id, view));
  }

  predicate SameAt(m: Store, m': Store, key: Key) {
    (key in m <==> key in m') && (key in m ==> m[key] == m'[key])
  }

  lemma {:induction false} OwnOpsFrame(m: Store, id: Id, view: nat, ops: seq<Op>, key: Key)
    requires OwnOps(id, view, ops) && !Owns(id, key)
    ensures SameAt(m, RunMap(m, ops), key)
    decreases |ops|
  {
    if ops != [] {
      OwnOpsFrame(ApplyMap(m, ops[0]), id, view, ops[1..], key);
    }
  }

  /** What is read about an account depends on its own entries only. */
  lemma SameReads(c: Packing, m: Store, m': Store, id: Id)
    requires forall key :: Owns(id, key) ==> SameAt(m, m', key)
    ensures ReadRow(c, m, id) == ReadRow(c, m', id)
    ensures forall k: Amount :: ReadPage(c, m, id, k) == ReadPage(c, m', id, k)
  {
    forall field: byte ensures SameAt(m, m', AccountKey(field, id)) {
      OwnersOfKeys(field, id, 0, id);
    }
    forall k: Amount ensures ReadPage(c, m, id, k) == ReadPage(c, m', id, k) {
      OwnersOfKeys(PAGES, id, k, id);
      assert SameAt(m, m', PageKey(id, k));
    }
    var n := ReadAmount(m, NUM_PAGES, id);
    if n.Some? {
      assert PagesIn(c, m, id, n.value) == PagesIn(c, m', id, n.value);
    }
  }

  lemma {:induction false} OthersAreSpared(c: Packing, m: Store, cache: Accounts, id: Id, view: nat, other: Id)
    requires other != id
    ensures ReadRow(c, RunMap(m, AccountOps(c, m, cache, id, view)), other) == ReadRow(c, m, other)
  {
    var ops := AccountOps(c, m, cache, id, view);
    AccountOpsOwn(c, m, cache, id, view);
    forall key | Owns(other, key) ensures SameAt(m, RunMap(m, ops), key) {
      OwnOpsFrame(m, id, view, ops, key);
    }
    SameReads(c, m, RunMap(m, ops), other);
  }

  // What is read about the account itself afterwards.

  function Over<T>(a: Option<T>, b: Option<T>): Option<T> {
    if a.Some? then a else b
  }

  /** What an account's row becomes when cached entries are written over it. */
  function Overlay(r: Row, over: Row): Row {
    Row(Over(over.balance, r.balance), Over(over.stake, r.stake), Over(over.reward, r.reward), Over(over.gas, r.gas),
        Over(over.code, r.code), Over(over.vm, r.vm))
  }

  function WithAmount(r: Row, field: byte, v: Option<Amount>): Row {
    if v.None? then r
    else if field == BALANCE then r.(balance := v)
    else if field == STAKE then r.(stake := v)
    else if field == REWARD then r.(reward := v)
    else r.(gas := v)
  }

  predicate IsAmount(field: byte) {
    field == BALANCE || field == STAKE || field == REWARD || field == GAS
  }

  lemma WithAmounts(r: Row, over: Row)
    ensures
      var r1 := WithAmount(WithAmount(r, BALANCE, over.balance), STAKE, over.stake);
      var r2 := WithAmount(WithAmount(r1, REWARD, over.reward), GAS, over.gas);
      r2 == Overlay(r, over).(code := r.code, vm := r.vm)
  {
  }

  lemma PagesApart(c: Packing, m: Store, id: Id, field: byte, value: Value)
    ensures forall k: Amount :: ReadPage(c, m[AccountKey(field, id) := value], id, k) == ReadPage(c, m, id, k)
  {
    forall k: Amount ensures PageKey(id, k) != AccountKey(field, id) {
      PageKeysAreDistinct(id, k, id, k, field);
    }
  }

  lemma FieldsApart(m: Store, id: Id, field: byte, other: byte, value: Value)
    requires field != other
    ensures SameAt(m, m[AccountKey(field, id) := value], AccountKey(other, id))
  {
    KeysAreDistinct(field, id, other, id);
  }

  lemma {:induction false} AmountIsRead(c: Packing, m: Store, field: byte, pot: Pot, id: Id, view: nat)
    requires IsAmount(field)
    ensures var m' := RunMap(m, AmountOps(field, pot, id, view));
      && ReadRow(c, m', id) == WithAmount(ReadRow(c, m, id), field, Find(pot, id))
      && forall k: Amount :: ReadPage(c, m', id, k) == ReadPage(c, m, id, k)
  {
    if id in pot {
      var value := Pack64(pot[id]);
      RunMapOne(m, AccountKey(field, id), value, view);
      PagesApart(c, m, id, field, value);
      forall other: byte | other != field
        ensures SameAt(m, m[AccountKey(field, id) := value], AccountKey(other, id))
      {
        FieldsApart(m, id, field, other, value);
      }
      assert ReadVm(c, m[AccountKey(field, id) := value], id) == ReadVm(c, m, id) by {
        SameVm(c, m, m[AccountKey(field, id) := value], id);
      }
    }
  }

  lemma SameVm(c: Packing, m: Store, m': Store, id: Id)
    requires SameAt(m, m', AccountKey(NUM_PAGES, id)) && SameAt(m, m', AccountKey(GLOBALS, id))
    requires forall k: Amount :: ReadPage(c, m', id, k) == ReadPage(c, m, id, k)
    ensures ReadVm(c, m', id) == ReadVm(c, m, id)
  {
    var n := ReadAmount(m, NUM_PAGES, id);
    if n.Some? {
      assert PagesIn(c, m, id, n.value) == PagesIn(c, m', id, n.value);
    }
  }

  lemma {:induction false} CodeIsRead(c: Packing, m: Store, code: map<Id, seq<byte>>, id: Id, view: nat)
    ensures var m' := RunMap(m, CodeOps(code, id, view));
      && ReadRow(c, m', id) ==
           (if id in code then ReadRow(c, m, id).(code := if code[id] == [] then None else Some(code[id]))
            else ReadRow(c, m, id))
      && forall k: Amount :: ReadPage(c, m', id, k) == ReadPage(c, m, id, k)
  {
    if id in code {
      RunMapOne(m, AccountKey(CODE, id), code[id], view);
      PagesApart(c, m, id, CODE, code[id]);
      forall other: byte | other != CODE
        ensures SameAt(m, m[AccountKey(CODE, id) := code[id]], AccountKey(other, id))
      {
        FieldsApart(m, id, CODE, other, code[id]);
      }
      SameVm(c, m, m[AccountKey(CODE, id) := code[id]], id);
    }
  }

  lemma PageIsRead(c: Packing, m: Store, id: Id, n: nat, k: Amount, page: seq<byte>)
    requires Faithful(c) && k < n < TWO64
    ensures PagesIn(c, m[PageKey(id, k) := c.pack(page)], id, n) == PagesIn(c, m, id, n)[k := page]
  {
    var m' := m[PageKey(id, k) := c.pack(page)];
    forall j: nat | j < n ensures ReadPage(c, m', id, j) == if j == k then page else ReadPage(c, m, id, j) {
      PageKeysAreDistinct(id, j, id, k, PAGES);
    }
  }

  lemma {:induction false} PageIsSaved(
      c: Packing, m: Store, m1: Store, id: Id, mem: LinearMemory, k: nat, n: nat, view: nat)
    requires Faithful(c) && k < n && n * PAGE <= |mem|
    requires ReadPage(c, m1, id, k) == ReadPage(c, m, id, k)
    ensures PagesIn(c, RunMap(m1, PageOp(c, m, id, mem, k, view)), id, n) == SavePage(PagesIn(c, m1, id, n), mem, k)
  {
    hide ReadPage, AllZero, Window, Faithful;
    var page := Window(mem, k);
    RunMapOne(m1, PageKey(id, k), c.pack(page), view);
    PageIsRead(c, m1, id, n, k, page);
  }

  /** The writes for a contract's pages do to the tree what saving does to the pages. */
  lemma {:induction false} PagesAreSaved(
      c: Packing, m0: Store, m: Store, id: Id, mem: LinearMemory, k: nat, n: nat, view: nat)
    requires Faithful(c) && k <= n && n * PAGE <= |mem|
    requires forall j: Amount :: ReadPage(c, m0, id, j) == ReadPage(c, m, id, j)
    ensures PagesIn(c, RunMap(m0, PageOps(c, m, id, mem, k, view)), id, n) == SavePages(PagesIn(c, m, id, n), mem, k)
    decreases k
  {
    hide ReadPage, Faithful, PageOp, SavePage;
    if k == 0 {
      assert PagesIn(c, m0, id, n) == PagesIn(c, m, id, n);
    } else {
      var fewer := PageOps(c, m, id, mem, k - 1, view);
      var m1, pages := RunMap(m0, fewer), PagesIn(c, m, id, n);
      PagesAreSaved(c, m0, m, id, mem, k - 1, n, view);
      SavePagesHold(pages, mem, k - 1, (k - 1) * PAGE);
      assert PageOf(PagesIn(c, m1, id, n), k - 1) == PageOf(pages, k - 1);
      RunMapConcat(m0, fewer, PageOp(c, m, id, mem, k - 1, view));
      PageIsSaved(c, m, m1, id, mem, k - 1, n, view);
    }
  }

  lemma {:induction false} PageOpSparesFields(
      c: Packing, m0: Store, m: Store, id: Id, mem: LinearMemory, k: nat, view: nat, field: byte)
    requires (k + 1) * PAGE <= |mem|
    ensures SameAt(m0, RunMap(m0, PageOp(c, m, id, mem, k, view)), AccountKey(field, id))
  {
    hide ReadPage, AllZero, Window;
    PageKeysAreDistinct(id, k, id, k, field);
    RunMapOne(m0, PageKey(id, k), c.pack(Window(mem, k)), view);
  }

  lemma {:induction false} PageOpsSpareFields(
      c: Packing, m0: Store, m: Store, id: Id, mem: LinearMemory, n: nat, view: nat, field: byte)
    requires n * PAGE <= |mem|
    ensures SameAt(m0, RunMap(m0, PageOps(c, m, id, mem, n, view)), AccountKey(field, id))
  {
    hide PageOp;
    if n > 0 {
      var fewer := PageOps(c, m, id, mem, n - 1, view);
      PageOpsSpareFields(c, m0, m, id, mem, n - 1, view, field);
      RunMapConcat(m0, fewer, PageOp(c, m, id, mem, n - 1, view));
      PageOpSparesFields(c, RunMap(m0, fewer), m, id, mem, n - 1, view, field);
    }
  }

  /** The store after a contract's page count, pages and globals have been written. */
  lemma {:induction false} VmOpsInSteps(c: Packing, m0: Store, m: Store, vms: map<Id, VmState>, id: Id, view: nat)
    requires id in vms
    ensures
      var n := |vms[id].memory| / PAGE;
      var m1 := m0[AccountKey(NUM_PAGES, id) := Pack64(n)];
      var m2 := RunMap(m1, PageOps(c, m, id, vms[id].memory, n, view));
      RunMap(m0, VmOps(c, m, vms, id, view)) == m2[AccountKey(GLOBALS, id) := PackWords(vms[id].globals)]
  {
    var n := |vms[id].memory| / PAGE;
    var first := [PutOp(AccountKey(NUM_PAGES, id), Pack64(n), view)];
    var pages := PageOps(c, m, id, vms[id].memory, n, view);
    var last := PutOp(AccountKey(GLOBALS, id), PackWords(vms[id].globals), view);
    RunMapOne(m0, AccountKey(NUM_PAGES, id), Pack64(n), view);
    RunMapConcat(m0, first, pages);
    RunMapConcat(m0, first + pages, [last]);
    RunMapOne(RunMap(m0, first + pages), last.key, last.value, view);
  }

  lemma {:induction false} FieldsAfterVm(c: Packing, m0: Store, m: Store, vm: VmState, id: Id, view: nat)
    ensures
      var n := |vm.memory| / PAGE;
      var m1 := m0[AccountKey(NUM_PAGES, id) := Pack64(n)];
      var m2 := RunMap(m1, PageOps(c, m, id, vm.memory, n, view));
      var m3 := m2[AccountKey(GLOBALS, id) := PackWords(vm.globals)];
      && ReadAmount(m3, NUM_PAGES, id) == Some(n)
      && forall field: byte :: field != NUM_PAGES && field != GLOBALS ==> SameAt(m0, m3, AccountKey(field, id))
  {
    var n := |vm.memory| / PAGE;
    var m1 := m0[AccountKey(NUM_PAGES, id) := Pack64(n)];
    var ops := PageOps(c, m, id, vm.memory, n, view);
    PageOpsSpareFields(c, m1, m, id, vm.memory, n, view, NUM_PAGES);
    KeysAreDistinct(NUM_PAGES, id, GLOBALS, id);
    forall field: byte | field != NUM_PAGES && field != GLOBALS
      ensures SameAt(m0, RunMap(m1, ops)[AccountKey(GLOBALS, id) := PackWords(vm.globals)], AccountKey(field, id))
    {
      FieldsApart(m0, id, NUM_PAGES, field, Pack64(n));
      PageOpsSpareFields(c, m1, m, id, vm.memory, n, view, field);
      FieldsApart(RunMap(m1, ops), id, GLOBALS, field, PackWords(vm.globals));
    }
  }

  /** The state that is read after it has been written. */
  lemma {:induction false} VmAfterVm(c: Packing, m0: Store, m: Store, vm: VmState, id: Id, view: nat)
    requires Faithful(c) && forall k: Amount :: ReadPage(c, m0, id, k) == ReadPage(c, m, id, k)
    ensures
      var n := |vm.memory| / PAGE;
      var m1 := m0[AccountKey(NUM_PAGES, id) := Pack64(n)];
      var m2 := RunMap(m1, PageOps(c, m, id, vm.memory, n, view));
      ReadVm(c, m2[AccountKey(GLOBALS, id) := PackWords(vm.globals)], id) == Some(Trim(vm))
  {
    hide SavePages, PageOps, RunMap, UnpackWords, PackWords, ReadPage, ReadAmount, SameAt, Memory, Faithful;
    var n := |vm.memory| / PAGE;
    var m1 := m0[AccountKey(NUM_PAGES, id) := Pack64(n)];
    var m2 := RunMap(m1, PageOps(c, m, id, vm.memory, n, view));
    var m3 := m2[AccountKey(GLOBALS, id) := PackWords(vm.globals)];
    FieldsAfterVm(c, m0, m, vm, id, view);
    PagesApart(c, m0, id, NUM_PAGES, Pack64(n));
    PagesAreSaved(c, m1, m, id, vm.memory, n, n, view);
    PagesApart(c, m2, id, GLOBALS, PackWords(vm.globals));
    assert PagesIn(c, m3, id, n) == PagesIn(c, m2, id, n);
    SaveThenLoad(Stored(None, PagesIn(c, m, id, n)), vm.memory);
    WordsReadBack(vm.globals);
  }

  lemma SameAmount(m: Store, m': Store, field: byte, id: Id)
    requires SameAt(m, m', AccountKey(field, id))
    ensures ReadAmount(m, field, id) == ReadAmount(m', field, id)
    ensures field == CODE ==> ReadCode(m, id) == ReadCode(m', id)
  {
  }

  lemma {:induction false} VmIsRead(c: Packing, m0: Store, m: Store, vms: map<Id, VmState>, id: Id, view: nat)
    requires Faithful(c) && forall k: Amount :: ReadPage(c, m0, id, k) == ReadPage(c, m, id, k)
    ensures
      ReadRow(c, RunMap(m0, VmOps(c, m, vms, id, view)), id) ==
        if id in vms then ReadRow(c, m0, id).(vm := Some(Trim(vms[id]))) else ReadRow(c, m0, id)
  {
    hide VmOps, PageOps, PackWords, ReadPage, ReadAmount, ReadCode, ReadVm, SameAt, Faithful, Trim;
    if id in vms {
      VmOpsInSteps(c, m0, m, vms, id, view);
      FieldsAfterVm(c, m0, m, vms[id], id, view);
      VmAfterVm(c, m0, m, vms[id], id, view);
      var m3 := RunMap(m0, VmOps(c, m, vms, id, view));
      SameAmount(m0, m3, BALANCE, id);
      SameAmount(m0, m3, STAKE, id);
      SameAmount(m0, m3, REWARD, id);
      SameAmount(m0, m3, GAS, id);
      SameAmount(m0, m3, CODE, id);
    } else {
      NoVmOps(c, m, vms, id, view);
    }
  }

  lemma NoVmOps(c: Packing, m: Store, vms: map<Id, VmState>, id: Id, view: nat)
    requires id !in vms
    ensures VmOps(c, m, vms, id, view) == []
  {
  }

  /** After the writes for an account, reading it gives what was cached, and otherwise what was there. */
  lemma {:induction false} AccountIsRead(c: Packing, m: Store, cache: Accounts, id: Id, view: nat)
    requires Faithful(c)
    ensures ReadRow(c, RunMap(m, AccountOps(c, m, cache, id, view)), id) ==
      VisibleRow(Overlay(ReadRow(c, m, id), RowOf(cache, id)))
  {
    hide ReadRow, AmountOps, CodeOps, VmOps, ReadPage, Faithful, WithAmount, Trim;
    var balance, stake := AmountOps(BALANCE, cache.balances, id, view), AmountOps(STAKE, cache.stakes, id, view);
    var reward, gas := AmountOps(REWARD, cache.rewards, id, view), AmountOps(GAS, cache.gas, id, view);
    var code, vm := CodeOps(cache.code, id, view), VmOps(c, m, cache.vms, id, view);
    var m1 := RunMap(m, balance);
    var m2 := RunMap(m1, stake);
    var m3 := RunMap(m2, reward);
    var m4 := RunMap(m3, gas);
    var m5 := RunMap(m4, code);
    AmountIsRead(c, m, BALANCE, cache.balances, id, view);
    AmountIsRead(c, m1, STAKE, cache.stakes, id, view);
    AmountIsRead(c, m2, REWARD, cache.rewards, id, view);
    AmountIsRead(c, m3, GAS, cache.gas, id, view);
    CodeIsRead(c, m4, cache.code, id, view);
    VmIsRead(c, m5, m, cache.vms, id, view);
    RunMapConcat(m, balance, stake);
    RunMapConcat(m, balance + stake, reward);
    RunMapConcat(m, balance + stake + reward, gas);
    RunMapConcat(m, balance + stake + reward + gas, code);
    RunMapConcat(m, balance + stake + reward + gas + code, vm);
    WithAmounts(ReadRow(c, m, id), RowOf(cache, id));
    ReadIsVisible(c, m, id);
  }

  lemma CopiedRow(base: Accounts, cache: Accounts, ids: seq<Id>, id: Id)
    requires ids != []
    ensures
      var before := RowOf(CollapseContext.WriteBack(base, cache, ids[..|ids| - 1]), id);
      RowOf(CollapseContext.WriteBack(base, cache, ids), id) ==
        if id == ids[|ids| - 1] then Overlay(before, RowOf(cache, id)) else before
  {
  }

  lemma TrimTwice(vm: VmState)
    ensures Trim(Trim(vm)) == Trim(vm)
  {
    var mem := Trim(vm).memory;
    assert |mem| / PAGE * PAGE == |mem|;
    assert mem[..|mem|] == mem;
  }

  lemma OverlayVisible(r: Row, over: Row)
    ensures VisibleRow(Overlay(VisibleRow(r), over)) == VisibleRow(Overlay(r, over))
  {
    hide Trim;
    if r.vm.Some? {
      TrimTwice(r.vm.value);
    }
  }

  lemma CountIsKept(c: Packing, m: Store, id: Id)
    ensures ReadRow(c, m[[ACCOUNTS_LEN] := Count(m)], id) == ReadRow(c, m, id)
  {
    SameReads(c, m, m[[ACCOUNTS_LEN] := Count(m)], id);
  }

  /** The count of accounts is the one the tree started with: accounts that a block creates are not counted. */
  lemma {:induction false} CountNeverChanges(c: Packing, m: Store, cache: Accounts, ids: seq<Id>, view: nat)
    ensures
      var after := RunMap(m, FlushOps(c, m, cache, ids, view));
      [ACCOUNTS_LEN] in after && after[[ACCOUNTS_LEN]] == Count(m)
    decreases |ids|
  {
    if ids == [] {
      RunMapOne(m, [ACCOUNTS_LEN], Count(m), view);
    } else {
      var fewer, last := ids[..|ids| - 1], ids[|ids| - 1];
      var before := FlushOps(c, m, cache, fewer, view);
      var m1 := RunMap(m, before);
      var ops := AccountOps(c, m1, cache, last, view);
      CountNeverChanges(c, m, cache, fewer, view);
      RunMapConcat(m, before, ops);
      AccountOpsOwn(c, m1, cache, last, view);
      OwnOpsFrame(m1, last, view, ops, [ACCOUNTS_LEN]);
    }
  }

  lemma {:induction false} FlushIsRead(
      c: Packing, m: Store, base: Accounts, cache: Accounts, ids: seq<Id>, view: nat, id: Id)
    requires Faithful(c) && Stores(c, m, base)
    ensures ReadRow(c, RunMap(m, FlushOps(c, m, cache, ids, view)), id) ==
      VisibleRow(RowOf(CollapseContext.WriteBack(base, cache, ids), id))
    decreases |ids|
  {
    hide ReadRow, AccountOps, Faithful, VisibleRow, Overlay;
    if ids == [] {
      RunMapOne(m, [ACCOUNTS_LEN], Count(m), view);
      CountIsKept(c, m, id);
      ReadIsVisible(c, m, id);
    } else {
      var last := ids[|ids| - 1];
      var before := FlushOps(c, m, cache, ids[..|ids| - 1], view);
      var m1 := RunMap(m, before);
      RunMapConcat(m, before, AccountOps(c, m1, cache, last, view));
      FlushIsRead(c, m, base, cache, ids[..|ids| - 1], view, id);
      CopiedRow(base, cache, ids, id);
      if id == last {
        AccountIsRead(c, m1, cache, id, view);
        OverlayVisible(RowOf(CollapseContext.WriteBack(base, cache, ids[..|ids| - 1]), id), RowOf(cache, id));
      } else {
        OthersAreSpared(c, m1, cache, last, view, id);
      }
    }
  }

  /**
    * Flushing a cache into the tree: what is read from it afterwards, account by account, is the accounts written
    * back, as far as the tree can show them.
    */
  lemma {:induction false} FlushStores(c: Packing, m: Store, base: Accounts, cache: Accounts, ids: seq<Id>, view: nat)
    requires Faithful(c) && Stores(c, m, base)
    ensures Stores(c, RunMap(m, FlushOps(c, m, cache, ids, view)), Visible(CollapseContext.WriteBack(base, cache, ids)))
  {
    hide ReadRow, RowOf, Visible, VisibleRow, FlushOps, Faithful;
    var after := CollapseContext.WriteBack(base, cache, ids);
    forall id ensures ReadRow(c, RunMap(m, FlushOps(c, m, cache, ids, view)), id) == RowOf(Visible(after), id) {
      FlushIsRead(c, m, base, cache, ids, view, id);
      VisibleRows(after, id);
    }
  }

  // The tree itself.

  lemma {:induction false} FlushAtOneView(c: Packing, m: Store, cache: Accounts, ids: seq<Id>, view: nat)
    ensures
      var ops := FlushOps(c, m, cache, ids, view);
      ops != [] && forall i :: 0 <= i < |ops| ==> ops[i].view == view
    decreases |ids|
  {
    if ids != [] {
      var fewer := ids[..|ids| - 1];
      FlushAtOneView(c, m, cache, fewer, view);
      AccountOpsOwn(c, RunMap(m, FlushOps(c, m, cache, fewer, view)), cache, ids[|ids| - 1], view);
    }
  }

  /** A flush at a height no lower than the tree's leaves a well-formed tree, which stands for the new accounts. */
  lemma {:induction false} FlushedTree(
      c: Packing, root: Option<Node>, base: Accounts, cache: Accounts, ids: seq<Id>, from: nat, view: nat)
    requires Faithful(c) && AvlRoot(root, from) && from <= view && Stores(c, ToMap(Entries(root)), base)
    ensures
      var after := Run(root, FlushOps(c, ToMap(Entries(root)), cache, ids, view));
      AvlRoot(after, view) && Stores(c, ToMap(Entries(after)), Visible(CollapseContext.WriteBack(base, cache, ids)))
  {
    hide Run, RunMap, Faithful, Stores, FlushOps, Visible, CollapseContext.WriteBack, Ascending;
    var m := ToMap(Entries(root));
    FlushAtOneView(c, m, cache, ids, view);
    OneViewAscends(from, view, FlushOps(c, m, cache, ids, view));
    RunRefines(root, from, FlushOps(c, m, cache, ids, view));
    FlushStores(c, m, base, cache, ids, view);
  }

  function RootId(root: Option<Node>): Option<Digest> {
    if root.None? then None else Some(AvlNode.Id(root.value))
  }

  lemma SameIdSameEntries(a: Option<Node>, b: Option<Node>)
    requires RootId(a) == RootId(b)
    ensures Entries(a) == Entries(b)
  {
    if a.Some? {
      IdDetermines(a.value, b.value);
      SameTreeSame(a.value, b.value);
    }
  }
}
