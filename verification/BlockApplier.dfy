/** Applying transactions and whole blocks through the write-back cache. */
module BlockApplier {
  import opened Bytes
  import opened Accounts
  import opened Applier
  import opened Collapse
  import opened CollapseContext

  /** The gas state that a transaction shares with all the calls it causes. */
  class ExecutorState {
    const payer: Id
    var limit: Amount
    var limitIsSet: bool
    ghost var first: Amount

    constructor (payer: Id)
      ensures Meter() == Idle(payer)
    {
      this.payer := payer;
      limit, limitIsSet, first := 0, false, 0;
    }

    ghost function Meter(): Meter
      reads this
    {
      if limitIsSet then Running(payer, first, limit) else Idle(payer)
    }
  }

  /** The context and the gas state are left as the specification says. */
  ghost predicate Matches(ctx: Context, state: ExecutorState, ok: bool, r: Applied)
    reads ctx, ctx.tree, state
  {
    ctx.Valid() && ctx.View() == r.ledger && state.Meter() == r.meter && ok == r.ok
  }

  method TransferBalance(ctx: Context, from: Id, to: Id, amount: Amount) returns (ok: bool)
    requires ctx.Valid()
    modifies ctx
    ensures ctx.Valid() && ok == (amount <= Held(old(ctx.View()).acc.balances, from))
    ensures ctx.View() == if ok then Pay(old(ctx.View()), from, to, amount) else old(ctx.View())
    ensures old(ctx.accounts) <= ctx.accounts
  {
    hide Context.Valid, Context.View;
    var value, _ := ctx.ReadBalance(from);
    if value < amount {
      return false;
    }
    ctx.WriteBalance(from, value - amount);
    var received, _ := ctx.ReadBalance(to);
    ctx.WriteBalance(to, Add64(received, amount));
    ok := true;
  }

  method TransferToGas(ctx: Context, from: Id, to: Id, amount: Amount) returns (ok: bool)
    requires ctx.Valid()
    modifies ctx
    ensures ctx.Valid() && ok == (amount <= Held(old(ctx.View()).acc.balances, from))
    ensures ctx.View() == if ok then Deposit(old(ctx.View()), from, to, amount) else old(ctx.View())
    ensures old(ctx.accounts) <= ctx.accounts
  {
    hide Context.Valid, Context.View;
    var value, _ := ctx.ReadBalance(from);
    if value < amount {
      return false;
    }
    ctx.WriteBalance(from, value - amount);
    var received, _ := ctx.ReadGas(to);
    ctx.WriteGas(to, Add64(received, amount));
    ok := true;
  }

  method ChargeGas(ctx: Context, payer: Id, contract: Id, spent: Amount, balance: Amount, deposit: Amount)
    requires ctx.Valid()
    requires balance == Held(ctx.View().acc.balances, payer) && deposit == Held(ctx.View().acc.gas, contract)
    requires spent <= deposit + balance
    modifies ctx
    ensures ctx.Valid() && ctx.View() == Charge(old(ctx.View()), payer, contract, spent)
    ensures old(ctx.accounts) <= ctx.accounts
  {
    hide Context.Valid, Context.View;
    if spent > deposit {
      ctx.WriteGas(contract, 0);
      assert spent - deposit <= balance;
      ctx.WriteBalance(payer, balance - (spent - deposit));
    } else {
      ctx.WriteGas(contract, deposit - spent);
    }
    ctx.CountBurned(spent);
  }

  method Execute(env: Env, ctx: Context, id: Id, sender: Id, contract: Id, code: seq<byte>, amount: Amount,
                 requested: Amount, func: string, params: seq<byte>, state: ExecutorState) returns (ok: bool)
    requires ctx.Valid()
    modifies ctx, state
    ensures Matches(ctx, state, ok, Applier.Execute(env, old(ctx.View()), old(state.Meter()), id, sender, contract,
                                                    code, amount, requested, func, params))
    ensures old(ctx.accounts) <= ctx.accounts
    decreases Fuel(state.Meter()), 0, 1
  {
    hide Context.Valid, Context.View;
    ghost var l := ctx.View();
    ghost var started := Started(state.Meter(), requested);
    var balance, _ := ctx.ReadBalance(state.payer);
    var deposit, _ := ctx.ReadGas(contract);
    var available := Add64(balance, deposit);
    if !state.limitIsSet {
      state.limit, state.limitIsSet := requested, true;
      state.first := requested;
    }
    assert state.Meter() == started;
    var cap := state.limit;
    if requested < cap {
      cap := requested;
    }
    if cap == 0 || available < cap {
      return false;
    }
    var vm := ctx.ReadState(contract);
    var out := env.vm(Call(contract, id, sender, amount, cap, func, params, code, vm, env.block));
    GasIsCovered(env, l, started, id, sender, contract, code, amount, requested, func, params);
    assert out.gas <= cap <= state.limit;
    assert Metered(env.vm);
    Settle(env, ctx, contract, out, balance, deposit, state);
    ok := true;
  }

  method Settle(env: Env, ctx: Context, contract: Id, out: Outcome, balance: Amount, deposit: Amount,
                state: ExecutorState)
    requires ctx.Valid() && state.limitIsSet && out.gas <= state.limit && (out.Done? ==> 1 <= out.gas)
    requires balance == Held(ctx.View().acc.balances, state.payer) && deposit == Held(ctx.View().acc.gas, contract)
    requires out.gas <= deposit + balance
    modifies ctx, state
    ensures Matches(ctx, state, true, Applier.Settle(env, old(ctx.View()), old(state.Meter()), contract, out))
    ensures old(ctx.accounts) <= ctx.accounts
    decreases Fuel(state.Meter()), 0, 0
  {
    hide Context.Valid, Context.View;
    ghost var l := ctx.View();
    match out {
      case Failed(spent) =>
        ChargeGas(ctx, state.payer, contract, spent, balance, deposit);
        state.limit := state.limit - spent;
      case Done(spent, vmState, queue) =>
        ctx.WriteState(contract, vmState);
        ChargeGas(ctx, state.payer, contract, spent, balance, deposit);
        state.limit := state.limit - spent;
        assert ctx.View() == SetVm(Charge(l, state.payer, contract, spent), contract, vmState);
        RunQueue(env, ctx, contract, queue, state);
    }
  }

  method RunQueue(env: Env, ctx: Context, contract: Id, queue: seq<Body>, state: ExecutorState)
    requires ctx.Valid() && state.limitIsSet
    modifies ctx, state
    ensures Matches(ctx, state, true, Applier.RunQueue(env, old(ctx.View()), old(state.Meter()), contract, queue))
    ensures old(ctx.accounts) <= ctx.accounts
    decreases Fuel(state.Meter()), 4, |queue|
  {
    hide Context.Valid, Context.View;
    ghost var start := Applier.RunQueue(env, ctx.View(), state.Meter(), contract, queue);
    var i := 0;
    while i < |queue|
      invariant i <= |queue| && ctx.Valid() && state.limitIsSet
      invariant Fuel(state.Meter()) <= old(Fuel(state.Meter()))
      invariant Applier.RunQueue(env, ctx.View(), state.Meter(), contract, queue[i..]) == start
      invariant old(ctx.accounts) <= ctx.accounts
    {
      assert queue[i..][1..] == queue[i + 1..];
      var _ := ApplyBody(env, ctx, NO_ID, contract, queue[i], state);
      i := i + 1;
    }
  }

  method ApplyBody(env: Env, ctx: Context, id: Id, sender: Id, body: Body, state: ExecutorState) returns (ok: bool)
    requires ctx.Valid()
    modifies ctx, state
    ensures Matches(ctx, state, ok, Applier.ApplyBody(env, old(ctx.View()), old(state.Meter()), id, sender, body))
    ensures old(ctx.accounts) <= ctx.accounts
    decreases Fuel(state.Meter()), 3, 0
  {
    hide Context.Valid, Context.View;
    match body {
      case One(payload) => ok := ApplyOne(env, ctx, id, sender, payload, state);
      case Batch(entries) => ok := ApplyBatch(env, ctx, id, sender, entries, state);
    }
  }

  method ApplyBatch(env: Env, ctx: Context, id: Id, sender: Id, entries: seq<Payload>, state: ExecutorState)
    returns (ok: bool)
    requires ctx.Valid()
    modifies ctx, state
    ensures Matches(ctx, state, ok, Applier.ApplyBatch(env, old(ctx.View()), old(state.Meter()), id, sender, entries))
    ensures old(ctx.accounts) <= ctx.accounts
    decreases Fuel(state.Meter()), 2, |entries|
  {
    hide Context.Valid, Context.View;
    ghost var start := Applier.ApplyBatch(env, ctx.View(), state.Meter(), id, sender, entries);
    var i := 0;
    while i < |entries|
      invariant i <= |entries| && ctx.Valid()
      invariant Fuel(state.Meter()) <= old(Fuel(state.Meter()))
      invariant Applier.ApplyBatch(env, ctx.View(), state.Meter(), id, sender, entries[i..]) == start
      invariant old(ctx.accounts) <= ctx.accounts
    {
      assert entries[i..][1..] == entries[i + 1..];
      ok := ApplyOne(env, ctx, id, sender, entries[i], state);
      if !ok {
        return false;
      }
      i := i + 1;
    }
    ok := true;
  }

  method ApplyOne(env: Env, ctx: Context, id: Id, sender: Id, p: Payload, state: ExecutorState) returns (ok: bool)
    requires ctx.Valid()
    modifies ctx, state
    ensures Matches(ctx, state, ok, Applier.ApplyOne(env, old(ctx.View()), old(state.Meter()), id, sender, p))
    ensures old(ctx.accounts) <= ctx.accounts
    decreases Fuel(state.Meter()), 1, 0
  {
    hide Context.Valid, Context.View;
    if !Parses(p) {
      return false;
    }
    match p {
      case Transfer(_, _, _, _, _, _) => ok := ApplyTransfer(env, ctx, id, sender, p, state);
      case Stake(op, amount) => ok := ApplyStake(ctx, env.block, sender, op, amount);
      case Contract(_, _, _, _) => ok := ApplyContract(env, ctx, id, sender, p, state);
      case UnknownTag => ok := true;
    }
  }

  method ApplyTransfer(env: Env, ctx: Context, id: Id, sender: Id, p: Payload, state: ExecutorState)
    returns (ok: bool)
    requires ctx.Valid() && p.Transfer?
    modifies ctx, state
    ensures Matches(ctx, state, ok, Applier.ApplyTransfer(env, old(ctx.View()), old(state.Meter()), id, sender, p))
    ensures old(ctx.accounts) <= ctx.accounts
    decreases Fuel(state.Meter()), 0, 2
  {
    hide Context.Valid, Context.View;
    var code, hasCode := ctx.ReadCode(p.recipient);
    if !hasCode && (p.gasLimit > 0 || p.func != "" || p.params != []) {
      return false;
    }
    if sender == FAUCET {
      var balance, _ := ctx.ReadBalance(p.recipient);
      ctx.WriteBalance(p.recipient, Add64(balance, p.amount));
      ctx.CountIssued(p.amount);
      return true;
    }
    ok := TransferBalance(ctx, sender, p.recipient, p.amount);
    if !ok {
      return;
    }
    if !hasCode {
      return true;
    }
    if p.gasDeposit != 0 {
      ok := TransferToGas(ctx, sender, p.recipient, p.gasDeposit);
      if !ok {
        return;
      }
    }
    if p.func == "" {
      return true;
    }
    ok := Execute(env, ctx, id, sender, p.recipient, code, p.amount, p.gasLimit, p.func, p.params, state);
  }

  method ApplyStake(ctx: Context, block: nat, sender: Id, op: Operation, amount: Amount) returns (ok: bool)
    requires ctx.Valid()
    modifies ctx
    ensures ctx.Valid() && (ctx.View(), ok) == Applier.ApplyStake(old(ctx.View()), block, sender, op, amount)
    ensures old(ctx.accounts) <= ctx.accounts
  {
    hide Context.Valid, Context.View;
    var balance, _ := ctx.ReadBalance(sender);
    var stake, _ := ctx.ReadStake(sender);
    var reward, _ := ctx.ReadReward(sender);
    match op {
      case PlaceStake =>
        if balance < amount {
          return false;
        }
        ctx.WriteBalance(sender, balance - amount);
        ctx.WriteStake(sender, Add64(stake, amount));
      case WithdrawStake =>
        if stake < amount {
          return false;
        }
        ctx.WriteBalance(sender, Add64(balance, amount));
        ctx.WriteStake(sender, stake - amount);
      case WithdrawReward =>
        if amount < MINIMUM_WITHDRAW || reward < amount {
          return false;
        }
        ctx.WriteReward(sender, reward - amount);
        ctx.StoreRequest(Request(sender, amount, block));
      case OtherOperation =>
    }
    ok := true;
  }

  method ApplyContract(env: Env, ctx: Context, id: Id, sender: Id, p: Payload, state: ExecutorState)
    returns (ok: bool)
    requires ctx.Valid() && p.Contract?
    modifies ctx, state
    ensures Matches(ctx, state, ok, Applier.ApplyContract(env, old(ctx.View()), old(state.Meter()), id, sender, p))
    ensures old(ctx.accounts) <= ctx.accounts
    decreases Fuel(state.Meter()), 0, 2
  {
    hide Context.Valid, Context.View;
    var _, hasCode := ctx.ReadCode(id);
    if hasCode || !env.validWasm(p.code) {
      return false;
    }
    ctx.WriteCode(id, p.code);
    if p.gasDeposit != 0 {
      ok := TransferToGas(ctx, sender, id, p.gasDeposit);
      if !ok {
        return;
      }
    }
    ok := Execute(env, ctx, id, sender, id, p.code, 0, p.gasLimit, "init", p.params, state);
  }

  method ApplyTransaction(env: Env, ctx: Context, tx: Tx) returns (ok: bool)
    requires ctx.Valid()
    modifies ctx
    ensures ctx.Valid() && ctx.View() == Applier.ApplyTransaction(env, old(ctx.View()), tx).ledger
    ensures ok == Applier.ApplyTransaction(env, old(ctx.View()), tx).ok
    ensures old(ctx.accounts) <= ctx.accounts
  {
    hide Context.Valid, Context.View;
    var state := new ExecutorState(tx.sender);
    ok := ApplyBody(env, ctx, tx.id, tx.sender, tx.body, state);
  }

  /** Takes the fee of one transaction and counts its sender's stake. */
  method ChargeFee(ctx: Context, tx: Tx, totalFee: Amount, totalStake: Amount, stakes: Pot, ghost r: Round)
    returns (ok: bool, totalFee': Amount, totalStake': Amount, stakes': Pot)
    requires ctx.Valid() && ctx.View() == r.ledger
    requires r.totalFee == totalFee && r.totalStake == totalStake && r.stakes == stakes
    modifies ctx
    ensures ctx.Valid() && ok == CanPay(r.ledger, tx)
    ensures !ok ==> ctx.View() == r.ledger && totalFee' == totalFee && totalStake' == totalStake && stakes' == stakes
    ensures ok ==> (TakeFee(r, tx)
      == r.(ledger := ctx.View(), totalFee := totalFee', totalStake := totalStake', stakes := stakes'))
    ensures old(ctx.accounts) <= ctx.accounts && stakes'.Keys <= stakes.Keys + ctx.accounts
  {
    hide Context.Valid, Context.View;
    totalFee', totalStake', stakes' := totalFee, totalStake, stakes;
    var fee := Fee(tx);
    var balance, _ := ctx.ReadBalance(tx.sender);
    if balance < fee {
      return false, totalFee, totalStake, stakes;
    }
    ctx.WriteBalance(tx.sender, balance - fee);
    totalFee' := Add64(totalFee, fee);
    var stake, _ := ctx.ReadStake(tx.sender);
    if stake >= MINIMUM_STAKE {
      if tx.sender !in stakes {
        stakes' := stakes[tx.sender := stake];
      } else {
        stakes' := stakes[tx.sender := Add64(stakes[tx.sender], stake)];
      }
      totalStake' := Add64(totalStake, stake);
    }
    ok := true;
  }

  /** Rewards the stakers in an order that is not fixed; no account is noted that was not noted before. */
  method DistributeRewards(share: Sharing, ctx: Context, totalFee: Amount, totalStake: Amount, stakes: Pot,
                           ghost r: Round)
    requires ctx.Valid() && ctx.View() == r.ledger
    requires r.totalFee == totalFee && r.totalStake == totalStake && r.stakes == stakes
    requires stakes.Keys <= ctx.accounts
    modifies ctx
    ensures ctx.Valid() && ctx.View() == Distribute(share, r)
    ensures ctx.accountIds == old(ctx.accountIds)
  {
    hide Context.Valid, Context.View;
    if totalStake == 0 {
      return;
    }
    ghost var before := r.ledger.acc.rewards;
    ghost var order := [];
    var left := stakes.Keys;
    while left != {}
      invariant left <= stakes.Keys && Once(order)
      invariant forall id :: id in stakes <==> id in left || id in order
      invariant forall id :: id in left ==> id !in order
      invariant forall i :: 0 <= i < |order| ==> order[i] in stakes
      invariant ctx.Valid() && stakes.Keys <= ctx.accounts && ctx.accountIds == old(ctx.accountIds)
      invariant ctx.View() == WithRewards(r.ledger, RewardInOrder(share, before, r, order))
      decreases left
    {
      var id :| id in left;
      var reward, _ := ctx.ReadReward(id);
      ctx.WriteReward(id, Add64(reward, share(totalFee, stakes[id], totalStake)));
      ghost var longer := order + [id];
      assert longer[..|longer| - 1] == order && longer[|longer| - 1] == id;
      order := longer;
      left := left - {id};
    }
    OrderDoesNotMatter(share, before, r, order);
  }

  ghost function WithRewards(l: Ledger, rewards: Pot): Ledger {
    l.(acc := l.acc.(rewards := rewards))
  }

  lemma {:induction false} PayDueNext(l: Ledger, limit: nat, requests: seq<Request>, i: nat)
    requires i < |requests|
    ensures
      var before, after := PayDue(l, limit, requests[..i]), PayDue(l, limit, requests[..i + 1]);
      var q := requests[i];
      after == if q.block > limit then before.(pending := before.pending + [q])
               else SetBalance(before, q.account, Add64(Held(before.acc.balances, q.account), q.amount))
  {
    assert requests[..i + 1][..i] == requests[..i];
  }

  method ProcessWithdrawals(ctx: Context, block: nat)
    requires ctx.Valid()
    modifies ctx
    ensures ctx.Valid() && ctx.View() == PayWithdrawals(old(ctx.View()), block)
  {
    hide Context.Valid, Context.View, Add64;
    if block < WITHDRAWAL_DELAY {
      return;
    }
    ghost var l := ctx.View();
    var limit := block - WITHDRAWAL_DELAY;
    var requests := ctx.Requests();
    var leftovers := [];
    var i := 0;
    assert requests[..0] == [];
    hide PayDue;
    while i < |requests|
      invariant i <= |requests| && ctx.Valid()
      invariant leftovers == PayDue(l, limit, requests[..i]).pending
      invariant ctx.View() == PayDue(l, limit, requests[..i]).(pending := l.pending)
    {
      var q := requests[i];
      PayDueNext(l, limit, requests, i);
      if q.block > limit {
        leftovers := leftovers + [q];
      } else {
        var balance, _ := ctx.ReadBalance(q.account);
        ctx.WriteBalance(q.account, Add64(balance, q.amount));
      }
      i := i + 1;
    }
    assert requests[..i] == l.pending;
    ctx.KeepRequests(leftovers);
  }

  /** Applies one transaction of a block, after its fee. */
  method ApplyInBlock(env: Env, ctx: Context, tx: Tx, totalFee: Amount, totalStake: Amount, stakes: Pot, ghost r: Round)
    returns (ok: bool, totalFee': Amount, totalStake': Amount, stakes': Pot)
    requires ctx.Valid() && ctx.View() == r.ledger && stakes.Keys <= ctx.accounts
    requires r.totalFee == totalFee && r.totalStake == totalStake && r.stakes == stakes
    modifies ctx
    ensures ctx.Valid() && stakes'.Keys <= ctx.accounts
    ensures Step(env, r, tx) == Round(ctx.View(), totalFee', totalStake', stakes',
                                      if ok then r.applied + [tx] else r.applied,
                                      if ok then r.rejected else r.rejected + [tx])
  {
    hide Context.Valid, Context.View;
    totalFee', totalStake', stakes' := totalFee, totalStake, stakes;
    if tx.sender != FAUCET {
      ok, totalFee', totalStake', stakes' := ChargeFee(ctx, tx, totalFee, totalStake, stakes, r);
      if !ok {
        return;
      }
    }
    ok := ApplyTransaction(env, ctx, tx);
  }

  /** A block, seen through a new context over the state tree; nothing has been flushed yet. */
  method ApplyBlock(env: Env, tree: StateTree, txs: seq<Tx>)
    returns (ctx: Context, applied: seq<Tx>, rejected: seq<Tx>)
    ensures
      var l := Ledger(tree.acc, [], 0, 0);
      && fresh(ctx) && ctx.Valid() && ctx.tree == tree && ctx.checksum == tree.acc
      && ctx.View() == Collapsed(env, l, txs)
      && applied == Rounds(env, Opening(l), txs).applied
      && rejected == Rounds(env, Opening(l), txs).rejected
  {
    hide Context.Valid, Context.View;
    ghost var l := Ledger(tree.acc, [], 0, 0);
    ctx := new Context(tree);
    var totalFee: Amount, totalStake: Amount, stakes: Pot := 0, 0, map[];
    applied, rejected := [], [];
    var i := 0;
    while i < |txs|
      invariant i <= |txs| && ctx.Valid() && ctx.tree == tree && ctx.checksum == tree.acc
      invariant stakes.Keys <= ctx.accounts
      invariant Rounds(env, Opening(l), txs[..i]) == Round(ctx.View(), totalFee, totalStake, stakes, applied, rejected)
    {
      ghost var r := Rounds(env, Opening(l), txs[..i]);
      assert txs[..i + 1][..i] == txs[..i];
      var done;
      done, totalFee, totalStake, stakes := ApplyInBlock(env, ctx, txs[i], totalFee, totalStake, stakes, r);
      if done {
        applied := applied + [txs[i]];
      } else {
        rejected := rejected + [txs[i]];
      }
      i := i + 1;
    }
    assert txs[..i] == txs;
    DistributeRewards(env.share, ctx, totalFee, totalStake, stakes, Rounds(env, Opening(l), txs));
    ProcessWithdrawals(ctx, env.block);
  }

  /** A block, from its transactions to the entries it leaves in a snapshot of the state tree. */
  method CollapseTransactions(env: Env, snapshot: StateTree, txs: seq<Tx>)
    returns (ok: bool, applied: seq<Tx>, rejected: seq<Tx>)
    modifies snapshot
    ensures
      var l := Ledger(old(snapshot.acc), [], 0, 0);
      && ok
      && snapshot.acc == Collapsed(env, l, txs).acc
      && applied == Rounds(env, Opening(l), txs).applied
      && rejected == Rounds(env, Opening(l), txs).rejected
  {
    var ctx;
    ctx, applied, rejected := ApplyBlock(env, snapshot, txs);
    ctx.ReadyToFlush();
    ok := ctx.Flush();
  }
}
