/** The write-back cache through which a block is applied to the state tree. */
module CollapseContext {
  import opened Bytes
  import opened SortedSeq
  import opened Accounts
  import opened Applier

  /** The account entries of one version of the state tree. */
  class StateTree {
    var acc: Accounts
  }

  // Writing cached entries back, account by account.

  function Copy<V>(base: map<Id, V>, cache: map<Id, V>, id: Id): map<Id, V> {
    if id in cache then base[id := cache[id]] else base
  }

  function CopyAll<V>(base: map<Id, V>, cache: map<Id, V>, ids: seq<Id>): map<Id, V> {
    if ids == [] then base else Copy(CopyAll(base, cache, ids[..|ids| - 1]), cache, ids[|ids| - 1])
  }

  /** A cached entry is either noted as written or the same as underneath. */
  predicate Clean<V(==)>(base: map<Id, V>, cache: map<Id, V>, ids: seq<Id>) {
    forall id :: id in cache ==> id in ids || (id in base && base[id] == cache[id])
  }

  lemma {:induction false} CopiedAt<V>(base: map<Id, V>, cache: map<Id, V>, ids: seq<Id>, id: Id)
    ensures
      var after := CopyAll(base, cache, ids);
      if id in ids && id in cache then id in after && after[id] == cache[id]
      else (id in after <==> id in base) && (id in base ==> after[id] == base[id])
  {
    if ids != [] {
      CopiedAt(base, cache, ids[..|ids| - 1], id);
      assert ids == ids[..|ids| - 1] + [ids[|ids| - 1]];
    }
  }

  lemma {:induction false} CopyIsMerge<V>(base: map<Id, V>, cache: map<Id, V>, ids: seq<Id>)
    requires Clean(base, cache, ids)
    ensures CopyAll(base, cache, ids) == base + cache
  {
    forall id
      ensures id in CopyAll(base, cache, ids) <==> id in base + cache
      ensures id in base + cache ==> CopyAll(base, cache, ids)[id] == (base + cache)[id]
    {
      CopiedAt(base, cache, ids, id);
    }
  }

  function Merge(base: Accounts, cache: Accounts): Accounts {
    Accounts(base.balances + cache.balances, base.stakes + cache.stakes, base.rewards + cache.rewards,
             base.gas + cache.gas, base.code + cache.code, base.vms + cache.vms)
  }

  predicate AllClean(base: Accounts, cache: Accounts, ids: seq<Id>) {
    && Clean(base.balances, cache.balances, ids)
    && Clean(base.stakes, cache.stakes, ids)
    && Clean(base.rewards, cache.rewards, ids)
    && Clean(base.gas, cache.gas, ids)
    && Clean(base.code, cache.code, ids)
    && Clean(base.vms, cache.vms, ids)
  }

  function WriteBack(base: Accounts, cache: Accounts, ids: seq<Id>): Accounts {
    Accounts(CopyAll(base.balances, cache.balances, ids), CopyAll(base.stakes, cache.stakes, ids),
             CopyAll(base.rewards, cache.rewards, ids), CopyAll(base.gas, cache.gas, ids),
             CopyAll(base.code, cache.code, ids), CopyAll(base.vms, cache.vms, ids))
  }

  /** Writing back the noted accounts alone is as good as writing back everything. */
  lemma WriteBackIsMerge(base: Accounts, cache: Accounts, ids: seq<Id>)
    requires AllClean(base, cache, ids)
    ensures WriteBack(base, cache, ids) == Merge(base, cache)
  {
    CopyIsMerge(base.balances, cache.balances, ids);
    CopyIsMerge(base.stakes, cache.stakes, ids);
    CopyIsMerge(base.rewards, cache.rewards, ids);
    CopyIsMerge(base.gas, cache.gas, ids);
    CopyIsMerge(base.code, cache.code, ids);
    CopyIsMerge(base.vms, cache.vms, ids);
  }

  /** Accounts are noted in the order in which they are first written. */
  function Noted(ids: seq<Id>, id: Id): seq<Id> {
    if id in ids then ids else ids + [id]
  }

  class Context {
    const tree: StateTree
    const checksum: Accounts

    var accountIds: seq<Id>
    var accounts: set<Id>

    var balances: Pot
    var stakes: Pot
    var rewards: Pot
    var gas: Pot
    var contracts: map<Id, seq<byte>>
    var vms: map<Id, VmState>
    var requests: seq<Request>

    ghost var issued: nat
    ghost var burned: nat

    function Cache(): Accounts
      reads this
    {
      Accounts(balances, stakes, rewards, gas, contracts, vms)
    }

    /** What the cache says about the tree it was made for. */
    ghost predicate Sound()
      reads this
    {
      && (forall id :: id in accounts <==> id in accountIds)
      && AllClean(checksum, Cache(), accountIds)
    }

    /** The tree must not change while the context is in use. */
    ghost predicate Valid()
      reads this, tree
    {
      Sound() && tree.acc == checksum
    }

    /** The ledger as seen through the cache. */
    ghost function View(): Ledger
      reads this
    {
      Ledger(Merge(checksum, Cache()), requests, issued, burned)
    }

    constructor (tree: StateTree)
      ensures Valid() && this.tree == tree && checksum == tree.acc
      ensures View() == Ledger(tree.acc, [], 0, 0) && accountIds == []
    {
      this.tree := tree;
      checksum := tree.acc;
      accountIds, accounts := [], {};
      balances, stakes, rewards, gas := map[], map[], map[], map[];
      contracts, vms := map[], map[];
      requests := [];
      issued, burned := 0, 0;
    }

    method ReadBalance(id: Id) returns (v: Amount, found: bool)
      requires Valid()
      modifies `balances
      ensures Valid() && View() == old(View())
      ensures v == Held(View().acc.balances, id) && found == (id in View().acc.balances)
    {
      if id in balances {
        return balances[id], true;
      }
      found := id in tree.acc.balances;
      v := Held(tree.acc.balances, id);
      if found {
        balances := balances[id := v];
        assert checksum.balances + balances == checksum.balances + old(balances);
      }
    }

    method ReadStake(id: Id) returns (v: Amount, found: bool)
      requires Valid()
      modifies `stakes
      ensures Valid() && View() == old(View())
      ensures v == Held(View().acc.stakes, id) && found == (id in View().acc.stakes)
    {
      if id in stakes {
        return stakes[id], true;
      }
      found := id in tree.acc.stakes;
      v := Held(tree.acc.stakes, id);
      if found {
        stakes := stakes[id := v];
        assert checksum.stakes + stakes == checksum.stakes + old(stakes);
      }
    }

    method ReadReward(id: Id) returns (v: Amount, found: bool)
      requires Valid()
      modifies `rewards
      ensures Valid() && View() == old(View())
      ensures v == Held(View().acc.rewards, id) && found == (id in View().acc.rewards)
    {
      if id in rewards {
        return rewards[id], true;
      }
      found := id in tree.acc.rewards;
      v := Held(tree.acc.rewards, id);
      if found {
        rewards := rewards[id := v];
        assert checksum.rewards + rewards == checksum.rewards + old(rewards);
      }
    }

    method ReadGas(id: Id) returns (v: Amount, found: bool)
      requires Valid()
      modifies `gas
      ensures Valid() && View() == old(View())
      ensures v == Held(View().acc.gas, id) && found == (id in View().acc.gas)
    {
      if id in gas {
        return gas[id], true;
      }
      found := id in tree.acc.gas;
      v := Held(tree.acc.gas, id);
      if found {
        gas := gas[id := v];
        assert checksum.gas + gas == checksum.gas + old(gas);
      }
    }

    method ReadCode(id: Id) returns (code: seq<byte>, found: bool)
      requires Valid()
      modifies `contracts
      ensures Valid() && View() == old(View())
      ensures code == CodeOf(View(), id) && found == HasCode(View(), id)
    {
      if id in contracts {
        return contracts[id], true;
      }
      found := id in tree.acc.code;
      code := [];
      if found {
        code := tree.acc.code[id];
        contracts := contracts[id := code];
        assert checksum.code + contracts == checksum.code + old(contracts);
      }
    }

    /** A contract's state comes from the cache, and from the tree when it has not run in this block. */
    method ReadState(id: Id) returns (s: Option<VmState>)
      requires Valid()
      ensures s == StateOf(View(), id)
    {
      if id in vms {
        return Some(vms[id]);
      }
      s := if id in tree.acc.vms then Some(tree.acc.vms[id]) else None;
    }

    method AddAccount(id: Id)
      requires Sound()
      modifies `accounts, `accountIds
      ensures Sound() && accountIds == Noted(old(accountIds), id) && accounts == old(accounts) + {id}
    {
      if id in accounts {
        return;
      }
      accounts := accounts + {id};
      accountIds := accountIds + [id];
    }

    method WriteBalance(id: Id, v: Amount)
      requires Valid()
      modifies `accounts, `accountIds, `balances
      ensures Valid() && View() == SetBalance(old(View()), id, v)
      ensures accountIds == Noted(old(accountIds), id) && accounts == old(accounts) + {id}
    {
      AddAccount(id);
      balances := balances[id := v];
      assert checksum.balances + balances == (checksum.balances + old(balances))[id := v];
    }

    method WriteStake(id: Id, v: Amount)
      requires Valid()
      modifies `accounts, `accountIds, `stakes
      ensures Valid() && View() == SetStake(old(View()), id, v)
      ensures accountIds == Noted(old(accountIds), id) && accounts == old(accounts) + {id}
    {
      AddAccount(id);
      stakes := stakes[id := v];
      assert checksum.stakes + stakes == (checksum.stakes + old(stakes))[id := v];
    }

    method WriteReward(id: Id, v: Amount)
      requires Valid()
      modifies `accounts, `accountIds, `rewards
      ensures Valid() && View() == SetReward(old(View()), id, v)
      ensures accountIds == Noted(old(accountIds), id) && accounts == old(accounts) + {id}
      ensures id in old(accounts) ==> accountIds == old(accountIds)
    {
      AddAccount(id);
      rewards := rewards[id := v];
      assert checksum.rewards + rewards == (checksum.rewards + old(rewards))[id := v];
    }

    method WriteGas(id: Id, v: Amount)
      requires Valid()
      modifies `accounts, `accountIds, `gas
      ensures Valid() && View() == SetGas(old(View()), id, v)
      ensures accountIds == Noted(old(accountIds), id) && accounts == old(accounts) + {id}
    {
      AddAccount(id);
      gas := gas[id := v];
      assert checksum.gas + gas == (checksum.gas + old(gas))[id := v];
    }

    method WriteCode(id: Id, code: seq<byte>)
      requires Valid()
      modifies `accounts, `accountIds, `contracts
      ensures Valid() && View() == SetCode(old(View()), id, code)
      ensures accountIds == Noted(old(accountIds), id) && accounts == old(accounts) + {id}
    {
      AddAccount(id);
      contracts := contracts[id := code];
      assert checksum.code + contracts == (checksum.code + old(contracts))[id := code];
    }

    method WriteState(id: Id, s: VmState)
      requires Valid()
      modifies `accounts, `accountIds, `vms
      ensures Valid() && View() == SetVm(old(View()), id, s)
      ensures accountIds == Noted(old(accountIds), id) && accounts == old(accounts) + {id}
    {
      AddAccount(id);
      vms := vms[id := s];
      assert checksum.vms + vms == (checksum.vms + old(vms))[id := s];
    }

    method StoreRequest(q: Request)
      requires Valid()
      modifies `requests
      ensures Valid() && View() == old(View()).(pending := old(View()).pending + [q])
    {
      requests := requests + [q];
    }

    function Requests(): seq<Request>
      requires Valid()
      reads this, tree
      ensures Requests() == View().pending
    {
      requests
    }

    method KeepRequests(left: seq<Request>)
      requires Valid()
      modifies `requests
      ensures Valid() && View() == old(View()).(pending := left)
    {
      requests := left;
    }

    /** Keeps count of what the faucet issues. */
    ghost method CountIssued(amount: nat)
      requires Valid()
      modifies `issued
      ensures Valid() && View() == old(View()).(issued := old(View()).issued + amount)
    {
      issued := issued + amount;
    }

    /** Keeps count of what is spent on gas. */
    ghost method CountBurned(amount: nat)
      requires Valid()
      modifies `burned
      ensures Valid() && View() == old(View()).(burned := old(View()).burned + amount)
    {
      burned := burned + amount;
    }

    lemma ReadyToFlush()
      requires Valid()
      ensures Sound() && tree.acc == checksum
    {
    }

    /** Writes one account's cached entries into the tree. */
    method FlushAccount(id: Id)
      modifies tree
      ensures tree.acc == Accounts(Copy(old(tree.acc.balances), balances, id), Copy(old(tree.acc.stakes), stakes, id),
                                   Copy(old(tree.acc.rewards), rewards, id), Copy(old(tree.acc.gas), gas, id),
                                   Copy(old(tree.acc.code), contracts, id), Copy(old(tree.acc.vms), vms, id))
    {
      var acc := tree.acc;
      if id in balances {
        acc := acc.(balances := acc.balances[id := balances[id]]);
      }
      if id in stakes {
        acc := acc.(stakes := acc.stakes[id := stakes[id]]);
      }
      if id in rewards {
        acc := acc.(rewards := acc.rewards[id := rewards[id]]);
      }
      if id in gas {
        acc := acc.(gas := acc.gas[id := gas[id]]);
      }
      if id in contracts {
        acc := acc.(code := acc.code[id := contracts[id]]);
      }
      if id in vms {
        acc := acc.(vms := acc.vms[id := vms[id]]);
      }
      tree.acc := acc;
    }

    /** Brings the tree to what was seen through the cache, unless the tree has changed in the meantime. */
    method Flush() returns (ok: bool)
      requires Sound()
      modifies tree
      ensures ok == (old(tree.acc) == checksum)
      ensures tree.acc == if ok then View().acc else old(tree.acc)
    {
      if tree.acc != checksum {
        return false;
      }
      var i := 0;
      while i < |accountIds|
        invariant i <= |accountIds|
        invariant tree.acc == WriteBack(checksum, Cache(), accountIds[..i])
      {
        assert accountIds[..i + 1][..i] == accountIds[..i];
        FlushAccount(accountIds[i]);
        i := i + 1;
      }
      assert accountIds[..i] == accountIds;
      WriteBackIsMerge(checksum, Cache(), accountIds);
      ok := true;
    }
  }
}
