/** What holds of every transaction, however deeply its contracts call each other. */
module ApplierLaws {
  import opened Bytes
  import opened Accounts
  import opened Applier

  /** What has been charged against the first limit. */
  function Spent(m: Meter): int {
    if m.Idle? then 0 else m.first - m.limit
  }

  predicate Fits(m: Meter) {
    m.Running? ==> m.limit <= m.first
  }

  /** Code is written once. */
  predicate KeepsCode(l: Ledger, after: Ledger) {
    forall id :: id in l.acc.code ==> id in after.acc.code && after.acc.code[id] == l.acc.code[id]
  }

  /** Withdrawals are only ever added, each with the index of the block at hand. */
  predicate AddsRequests(block: nat, l: Ledger, after: Ledger) {
    && |l.pending| <= |after.pending|
    && after.pending[..|l.pending|] == l.pending
    && forall i :: |l.pending| <= i < |after.pending| ==> after.pending[i].block == block
  }

  ghost predicate NoWrap(l: Ledger, after: Ledger) {
    Wealth(l) + after.issued - l.issued < TWO64
  }

  /** What may happen to an account that takes no part: it can be paid, and nothing else. */
  ghost predicate Spared(l: Ledger, after: Ledger, id: Id) {
    && Held(after.acc.stakes, id) == Held(l.acc.stakes, id)
    && Held(after.acc.rewards, id) == Held(l.acc.rewards, id)
    && Held(after.acc.gas, id) == Held(l.acc.gas, id)
    && (NoWrap(l, after) ==> Held(l.acc.balances, id) <= Held(after.acc.balances, id))
  }

  /** Only the sender, the gas payer and contracts take part. */
  ghost predicate SparesOthers(sender: Id, payer: Id, l: Ledger, after: Ledger) {
    forall id :: id != sender && id != payer && id !in after.acc.code ==> Spared(l, after, id)
  }

  ghost predicate Lawful(block: nat, sender: Id, l: Ledger, m: Meter, after: Ledger, left: Meter) {
    && Accounted(l, after)
    && KeepsCode(l, after)
    && AddsRequests(block, l, after)
    && SparesOthers(sender, m.payer, l, after)
    && left.payer == m.payer
    && (Fits(m) ==> Fits(left) && after.burned - l.burned == Spent(left) - Spent(m))
  }

  lemma LawfulThen(block: nat, sender: Id, a: Ledger, ma: Meter, b: Ledger, mb: Meter, c: Ledger, mc: Meter)
    requires Lawful(block, sender, a, ma, b, mb) && Lawful(block, sender, b, mb, c, mc)
    ensures Lawful(block, sender, a, ma, c, mc)
  {
    AccountedThen(a, b, c);
    RequestsThen(block, a, b, c);
    SparesThen(sender, ma.payer, a, b, c);
  }

  lemma RequestsThen(block: nat, a: Ledger, b: Ledger, c: Ledger)
    requires AddsRequests(block, a, b) && AddsRequests(block, b, c)
    ensures AddsRequests(block, a, c)
  {
    assert c.pending[..|a.pending|] == c.pending[..|b.pending|][..|a.pending|];
    forall i | |a.pending| <= i < |c.pending|
      ensures c.pending[i].block == block
    {
      if i < |b.pending| {
        assert c.pending[i] == c.pending[..|b.pending|][i];
      }
    }
  }

  lemma SparesThen(sender: Id, payer: Id, a: Ledger, b: Ledger, c: Ledger)
    requires Accounted(a, b) && Accounted(b, c) && KeepsCode(b, c)
    requires SparesOthers(sender, payer, a, b) && SparesOthers(sender, payer, b, c)
    ensures SparesOthers(sender, payer, a, c)
  {
    forall id | id != sender && id != payer && id !in c.acc.code
      ensures Spared(a, c, id)
    {
      assert id !in b.acc.code;
      assert Spared(a, b, id) && Spared(b, c, id);
      if NoWrap(a, c) {
        AccountedExactly(a, b);
      }
    }
  }

  /** A transaction sent by a contract is lawful for whoever called that contract. */
  lemma LawfulForCaller(block: nat, contract: Id, sender: Id, l: Ledger, m: Meter, after: Ledger, left: Meter)
    requires Lawful(block, contract, l, m, after, left) && HasCode(l, contract)
    ensures Lawful(block, sender, l, m, after, left)
  {
  }

  // The steps that touch the ledger.

  lemma NothingIsLawful(block: nat, sender: Id, l: Ledger, m: Meter, left: Meter)
    requires left.payer == m.payer && Spent(left) == Spent(m) && (Fits(m) ==> Fits(left))
    ensures Lawful(block, sender, l, m, l, left)
  {
  }

  lemma PayIsLawful(block: nat, l: Ledger, m: Meter, from: Id, to: Id, amount: Amount)
    requires amount <= Held(l.acc.balances, from)
    ensures Lawful(block, from, l, m, Pay(l, from, to, amount), m)
  {
    hide Sum, Owed, Wealth;
    var taken := SetBalance(l, from, Held(l.acc.balances, from) - amount);
    SetBalanceWealth(l, from, Held(l.acc.balances, from) - amount);
    SetBalanceWealth(taken, to, Add64(Held(taken.acc.balances, to), amount));
    AccountedByAdd(l, Pay(l, from, to, amount), Held(taken.acc.balances, to), amount);
    HeldIsPart(taken.acc.balances, to);
  }

  lemma DepositIsLawful(block: nat, l: Ledger, m: Meter, from: Id, to: Id, amount: Amount)
    requires amount <= Held(l.acc.balances, from) && HasCode(l, to)
    ensures Lawful(block, from, l, m, Deposit(l, from, to, amount), m)
  {
    hide Sum, Owed, Wealth;
    var taken := SetBalance(l, from, Held(l.acc.balances, from) - amount);
    SetBalanceWealth(l, from, Held(l.acc.balances, from) - amount);
    SetGasWealth(taken, to, Add64(Held(taken.acc.gas, to), amount));
    AccountedByAdd(l, Deposit(l, from, to, amount), Held(taken.acc.gas, to), amount);
  }

  lemma IssueIsLawful(block: nat, l: Ledger, m: Meter, sender: Id, to: Id, amount: Amount)
    ensures Lawful(block, sender, l, m, Issue(l, to, amount), m)
  {
    hide Sum, Owed;
    SetBalanceWealth(l, to, Add64(Held(l.acc.balances, to), amount));
    AccountedByAdd(l, Issue(l, to, amount), Held(l.acc.balances, to), amount);
    HeldIsPart(l.acc.balances, to);
  }

  lemma ChargeIsLawful(block: nat, l: Ledger, m: Meter, sender: Id, contract: Id, gas: Amount)
    requires m.Running? && gas <= m.limit && HasCode(l, contract)
    requires gas <= Held(l.acc.gas, contract) + Held(l.acc.balances, m.payer)
    ensures Lawful(block, sender, l, m, Charge(l, m.payer, contract, gas), Running(m.payer, m.first, m.limit - gas))
  {
    hide Sum, Owed;
    var deposit := Held(l.acc.gas, contract);
    if gas > deposit {
      SetGasWealth(l, contract, 0);
      SetBalanceWealth(SetGas(l, contract, 0), m.payer, Held(l.acc.balances, m.payer) - (gas - deposit));
    } else {
      SetGasWealth(l, contract, deposit - gas);
    }
    assert Lost(l, Charge(l, m.payer, contract, gas)) == 0;
  }

  lemma StakeAccounted(block: nat, l: Ledger, sender: Id, op: Operation, amount: Amount)
    ensures Accounted(l, ApplyStake(l, block, sender, op, amount).0)
  {
    hide Sum, Owed, Wealth;
    var balance := Held(l.acc.balances, sender);
    var stake := Held(l.acc.stakes, sender);
    var reward := Held(l.acc.rewards, sender);
    match op
    case PlaceStake =>
      if amount <= balance {
        SetBalanceWealth(l, sender, balance - amount);
        SetStakeWealth(SetBalance(l, sender, balance - amount), sender, Add64(stake, amount));
        AccountedByAdd(l, ApplyStake(l, block, sender, op, amount).0, stake, amount);
      }
    case WithdrawStake =>
      if amount <= stake {
        SetBalanceWealth(l, sender, Add64(balance, amount));
        SetStakeWealth(SetBalance(l, sender, Add64(balance, amount)), sender, stake - amount);
        AccountedByAdd(l, ApplyStake(l, block, sender, op, amount).0, balance, amount);
      }
    case WithdrawReward =>
      if MINIMUM_WITHDRAW <= amount <= reward {
        SetRewardWealth(l, sender, reward - amount);
        RequestIsOwed(SetReward(l, sender, reward - amount), Request(sender, amount, block));
      }
    case OtherOperation =>
  }

  lemma StakeIsLawful(block: nat, l: Ledger, m: Meter, sender: Id, op: Operation, amount: Amount)
    ensures Lawful(block, sender, l, m, ApplyStake(l, block, sender, op, amount).0, m)
  {
    hide Sum, Owed, Wealth;
    StakeAccounted(block, l, sender, op, amount);
    StakeSpares(block, l, sender, op, amount);
  }

  lemma StakeSpares(block: nat, l: Ledger, sender: Id, op: Operation, amount: Amount)
    ensures forall id :: id != sender ==> Spared(l, ApplyStake(l, block, sender, op, amount).0, id)
  {
    hide Sum, Owed, Wealth;
  }

  lemma RequestIsOwed(l: Ledger, r: Request)
    ensures Wealth(l.(pending := l.pending + [r])) == Wealth(l) + r.amount
  {
    var longer := l.pending + [r];
    assert longer[..|longer| - 1] == l.pending;
  }

  lemma CodeIsLawful(block: nat, l: Ledger, m: Meter, sender: Id, id: Id, code: seq<byte>)
    requires !HasCode(l, id)
    ensures Lawful(block, sender, l, m, SetCode(l, id, code), m)
  {
  }

  lemma VmIsLawful(block: nat, l: Ledger, m: Meter, sender: Id, id: Id, s: VmState)
    ensures Lawful(block, sender, l, m, SetVm(l, id, s), m)
  {
  }

  // The whole of a transaction, by the same recursion.

  lemma CallIsLawful(env: Env, l: Ledger, m: Meter, id: Id, sender: Id, contract: Id, code: seq<byte>,
                     amount: Amount, requested: Amount, func: string, params: seq<byte>)
    requires HasCode(l, contract) && MayRun(l, Started(m, requested), contract, requested)
    ensures
      var started := Started(m, requested);
      var gas := env.vm(CallFor(env, l, started, id, sender, contract, code, amount, requested, func, params)).gas;
      && gas <= started.limit
      && gas <= Held(l.acc.gas, contract) + Held(l.acc.balances, m.payer)
      && Lawful(env.block, sender, l, m, Charge(l, m.payer, contract, gas),
                Running(m.payer, started.first, started.limit - gas))
  {
    var started := Started(m, requested);
    var call := CallFor(env, l, started, id, sender, contract, code, amount, requested, func, params);
    GasIsCovered(env, l, started, id, sender, contract, code, amount, requested, func, params);
    var gas := env.vm(call).gas;
    NothingIsLawful(env.block, sender, l, m, started);
    ChargeIsLawful(env.block, l, started, sender, contract, gas);
    LawfulThen(env.block, sender, l, m, l, started, Charge(l, m.payer, contract, gas),
               Running(m.payer, started.first, started.limit - gas));
  }

  /** After a call: its state is saved, then what it sent is applied. */
  lemma {:induction false} SaveThenRun(
      env: Env, sender: Id, start: Ledger, m: Meter, l: Ledger, left: Meter, contract: Id, state: VmState,
      queue: seq<Body>)
    requires Lawful(env.block, sender, start, m, l, left) && left.Running? && HasCode(l, contract)
    requires
      var r := RunQueue(env, SetVm(l, contract, state), left, contract, queue);
      Lawful(env.block, contract, SetVm(l, contract, state), left, r.ledger, r.meter)
    ensures
      var r := RunQueue(env, SetVm(l, contract, state), left, contract, queue);
      Lawful(env.block, sender, start, m, r.ledger, r.meter)
  {
    hide Lawful, RunQueue;
    var saved := SetVm(l, contract, state);
    var r := RunQueue(env, saved, left, contract, queue);
    VmIsLawful(env.block, l, left, sender, contract, state);
    LawfulThen(env.block, sender, start, m, l, left, saved, left);
    LawfulForCaller(env.block, contract, sender, saved, left, r.ledger, r.meter);
    LawfulThen(env.block, sender, start, m, saved, left, r.ledger, r.meter);
  }

  lemma {:induction false} ExecuteIsLawful(
      env: Env, l: Ledger, m: Meter, id: Id, sender: Id, contract: Id, code: seq<byte>, amount: Amount,
      requested: Amount, func: string, params: seq<byte>)
    requires HasCode(l, contract)
    ensures
      var r := Execute(env, l, m, id, sender, contract, code, amount, requested, func, params);
      Lawful(env.block, sender, l, m, r.ledger, r.meter)
    decreases Fuel(m), 0, 1
  {
    var started := Started(m, requested);
    if !MayRun(l, started, contract, requested) {
      NothingIsLawful(env.block, sender, l, m, started);
    } else {
      CallIsLawful(env, l, m, id, sender, contract, code, amount, requested, func, params);
      assert Metered(env.vm);
      var out := env.vm(CallFor(env, l, started, id, sender, contract, code, amount, requested, func, params));
      SettleIsLawful(env, l, m, sender, started, contract, out);
    }
  }

  lemma {:induction false} SettleIsLawful(
      env: Env, l: Ledger, m: Meter, sender: Id, started: Meter, contract: Id, out: Outcome)
    requires started.Running? && out.gas <= started.limit && (out.Done? ==> 1 <= out.gas)
    requires out.gas <= Held(l.acc.gas, contract) + Held(l.acc.balances, started.payer)
    requires HasCode(l, contract)
    requires Lawful(env.block, sender, l, m, Charge(l, started.payer, contract, out.gas),
                    Running(started.payer, started.first, started.limit - out.gas))
    ensures
      var r := Settle(env, l, started, contract, out);
      Lawful(env.block, sender, l, m, r.ledger, r.meter)
    decreases Fuel(started), 0, 0
  {
    if out.Done? {
      var charged := Charge(l, started.payer, contract, out.gas);
      var left := Running(started.payer, started.first, started.limit - out.gas);
      QueueIsLawful(env, SetVm(charged, contract, out.state), left, contract, out.queue);
      SaveThenRun(env, sender, l, m, charged, left, contract, out.state, out.queue);
    }
  }

  lemma {:induction false} QueueIsLawful(env: Env, l: Ledger, m: Meter, contract: Id, queue: seq<Body>)
    requires m.Running? && HasCode(l, contract)
    ensures
      var r := RunQueue(env, l, m, contract, queue);
      Lawful(env.block, contract, l, m, r.ledger, r.meter)
    decreases Fuel(m), 6, |queue|
  {
    if queue != [] {
      BodyIsLawful(env, l, m, NO_ID, contract, queue[0]);
      var r := ApplyBody(env, l, m, NO_ID, contract, queue[0]);
      QueueIsLawful(env, r.ledger, r.meter, contract, queue[1..]);
      var last := RunQueue(env, r.ledger, r.meter, contract, queue[1..]);
      LawfulThen(env.block, contract, l, m, r.ledger, r.meter, last.ledger, last.meter);
    }
  }

  lemma {:induction false} BodyIsLawful(env: Env, l: Ledger, m: Meter, id: Id, sender: Id, body: Body)
    ensures
      var r := ApplyBody(env, l, m, id, sender, body);
      Lawful(env.block, sender, l, m, r.ledger, r.meter)
    decreases Fuel(m), 5, 0
  {
    match body
    case One(payload) => OneIsLawful(env, l, m, id, sender, payload);
    case Batch(entries) => BatchIsLawful(env, l, m, id, sender, entries);
  }

  lemma {:induction false} BatchIsLawful(env: Env, l: Ledger, m: Meter, id: Id, sender: Id, entries: seq<Payload>)
    ensures
      var r := ApplyBatch(env, l, m, id, sender, entries);
      Lawful(env.block, sender, l, m, r.ledger, r.meter)
    decreases Fuel(m), 4, |entries|
  {
    if entries != [] {
      OneIsLawful(env, l, m, id, sender, entries[0]);
      var r := ApplyOne(env, l, m, id, sender, entries[0]);
      if r.ok {
        BatchIsLawful(env, r.ledger, r.meter, id, sender, entries[1..]);
        var last := ApplyBatch(env, r.ledger, r.meter, id, sender, entries[1..]);
        LawfulThen(env.block, sender, l, m, r.ledger, r.meter, last.ledger, last.meter);
      }
    }
  }

  lemma {:induction false} OneIsLawful(env: Env, l: Ledger, m: Meter, id: Id, sender: Id, p: Payload)
    ensures
      var r := ApplyOne(env, l, m, id, sender, p);
      Lawful(env.block, sender, l, m, r.ledger, r.meter)
    decreases Fuel(m), 3, 0
  {
    if Parses(p) {
      match p
      case Transfer(_, _, _, _, _, _) => TransferIsLawful(env, l, m, id, sender, p);
      case Stake(op, amount) => StakeIsLawful(env.block, l, m, sender, op, amount);
      case Contract(_, _, _, _) => ContractIsLawful(env, l, m, id, sender, p);
      case UnknownTag => NothingIsLawful(env.block, sender, l, m, m);
    }
  }

  lemma {:induction false} TransferIsLawful(env: Env, l: Ledger, m: Meter, id: Id, sender: Id, p: Payload)
    requires p.Transfer?
    ensures
      var r := ApplyTransfer(env, l, m, id, sender, p);
      Lawful(env.block, sender, l, m, r.ledger, r.meter)
    decreases Fuel(m), 2, 0
  {
    hide Lawful, Execute;
    var to := p.recipient;
    NothingIsLawful(env.block, sender, l, m, m);
    IssueIsLawful(env.block, l, m, sender, to, p.amount);
    if p.amount <= Held(l.acc.balances, sender) {
      var paid := Pay(l, sender, to, p.amount);
      PayIsLawful(env.block, l, m, sender, to, p.amount);
      if HasCode(l, to) && (p.gasDeposit == 0 || p.gasDeposit <= Held(paid.acc.balances, sender)) {
        FundThenRun(env, paid, m, id, sender, to, CodeOf(l, to), p.amount, p.gasLimit, p.gasDeposit, p.func, p.params);
        var funded := if p.gasDeposit != 0 then Deposit(paid, sender, to, p.gasDeposit) else paid;
        LawfulThen(env.block, sender, l, m, paid, m, funded, m);
        var r := Execute(env, funded, m, id, sender, to, CodeOf(l, to), p.amount, p.gasLimit, p.func, p.params);
        LawfulThen(env.block, sender, l, m, funded, m, r.ledger, r.meter);
      }
    }
  }

  lemma {:induction false} ContractIsLawful(env: Env, l: Ledger, m: Meter, id: Id, sender: Id, p: Payload)
    requires p.Contract?
    ensures
      var r := ApplyContract(env, l, m, id, sender, p);
      Lawful(env.block, sender, l, m, r.ledger, r.meter)
    decreases Fuel(m), 2, 0
  {
    hide Lawful, Execute;
    NothingIsLawful(env.block, sender, l, m, m);
    if !HasCode(l, id) {
      var created := SetCode(l, id, p.code);
      CodeIsLawful(env.block, l, m, sender, id, p.code);
      if p.gasDeposit == 0 || p.gasDeposit <= Held(created.acc.balances, sender) {
        FundThenRun(env, created, m, id, sender, id, p.code, 0, p.gasLimit, p.gasDeposit, "init", p.params);
        var funded := if p.gasDeposit != 0 then Deposit(created, sender, id, p.gasDeposit) else created;
        LawfulThen(env.block, sender, l, m, created, m, funded, m);
        var r := Execute(env, funded, m, id, sender, id, p.code, 0, p.gasLimit, "init", p.params);
        LawfulThen(env.block, sender, l, m, funded, m, r.ledger, r.meter);
      }
    }
  }

  /** The common end of transfers and contract creations: an optional gas deposit, then a call. */
  lemma {:induction false} FundThenRun(
      env: Env, l: Ledger, m: Meter, id: Id, sender: Id, contract: Id, code: seq<byte>, amount: Amount,
      requested: Amount, deposit: Amount, func: string, params: seq<byte>)
    requires HasCode(l, contract) && (deposit == 0 || deposit <= Held(l.acc.balances, sender))
    ensures
      var funded := if deposit != 0 then Deposit(l, sender, contract, deposit) else l;
      var r := Execute(env, funded, m, id, sender, contract, code, amount, requested, func, params);
      && Lawful(env.block, sender, l, m, funded, m)
      && Lawful(env.block, sender, funded, m, r.ledger, r.meter)
    decreases Fuel(m), 1, 0
  {
    NothingIsLawful(env.block, sender, l, m, m);
    var funded := if deposit != 0 then Deposit(l, sender, contract, deposit) else l;
    if deposit != 0 {
      DepositIsLawful(env.block, l, m, sender, contract, deposit);
    }
    ExecuteIsLawful(env, funded, m, id, sender, contract, code, amount, requested, func, params);
  }

  // What this says about one transaction.

  lemma TransactionAccounted(env: Env, l: Ledger, tx: Tx)
    ensures Accounted(l, ApplyTransaction(env, l, tx).ledger)
  {
    BodyIsLawful(env, l, Idle(tx.sender), tx.id, tx.sender, tx.body);
  }

  /** Money is conserved: what is there afterwards was there before, or the faucet has just issued it. */
  lemma TransactionConserves(env: Env, l: Ledger, tx: Tx)
    requires NoWrap(l, ApplyTransaction(env, l, tx).ledger)
    ensures
      var after := ApplyTransaction(env, l, tx).ledger;
      Wealth(after) == Wealth(l) + after.issued - l.issued
  {
    TransactionAccounted(env, l, tx);
    AccountedExactly(l, ApplyTransaction(env, l, tx).ledger);
  }

  /** An account that neither signed the transaction nor holds a contract can only gain by it. */
  lemma BystandersLoseNothing(env: Env, l: Ledger, tx: Tx, id: Id)
    requires id != tx.sender && id !in ApplyTransaction(env, l, tx).ledger.acc.code
    ensures Spared(l, ApplyTransaction(env, l, tx).ledger, id)
  {
    BodyIsLawful(env, l, Idle(tx.sender), tx.id, tx.sender, tx.body);
  }

  function LimitOf(p: Payload): Amount {
    if p.Transfer? || p.Contract? then p.gasLimit else 0
  }

  /** The first call to run fixes the limit, and the calls it makes do not raise it. */
  lemma {:induction false} FirstIsRequested(
      env: Env, l: Ledger, m: Meter, id: Id, sender: Id, contract: Id, code: seq<byte>, amount: Amount,
      requested: Amount, func: string, params: seq<byte>)
    requires m.Idle?
    ensures
      var left := Execute(env, l, m, id, sender, contract, code, amount, requested, func, params).meter;
      left.Running? && left.first == requested
  {
  }

  lemma {:induction false} FirstLimitOfOne(env: Env, l: Ledger, m: Meter, id: Id, sender: Id, p: Payload)
    requires m.Idle?
    ensures
      var left := ApplyOne(env, l, m, id, sender, p).meter;
      left.Running? ==> left.first == LimitOf(p)
  {
    if p.Transfer? {
      FirstLimitOfTransfer(env, l, m, id, sender, p);
    } else if p.Contract? {
      FirstLimitOfContract(env, l, m, id, sender, p);
    }
  }

  lemma {:induction false} FirstLimitOfTransfer(env: Env, l: Ledger, m: Meter, id: Id, sender: Id, p: Payload)
    requires m.Idle? && p.Transfer?
    ensures
      var left := ApplyTransfer(env, l, m, id, sender, p).meter;
      left.Running? ==> left.first == p.gasLimit
  {
    hide Execute;
    var to := p.recipient;
    if p.amount <= Held(l.acc.balances, sender) {
      var paid := Pay(l, sender, to, p.amount);
      if p.gasDeposit == 0 || p.gasDeposit <= Held(paid.acc.balances, sender) {
        var funded := if p.gasDeposit != 0 then Deposit(paid, sender, to, p.gasDeposit) else paid;
        FirstIsRequested(env, funded, m, id, sender, to, CodeOf(l, to), p.amount, p.gasLimit, p.func, p.params);
      }
    }
  }

  lemma {:induction false} FirstLimitOfContract(env: Env, l: Ledger, m: Meter, id: Id, sender: Id, p: Payload)
    requires m.Idle? && p.Contract?
    ensures
      var left := ApplyContract(env, l, m, id, sender, p).meter;
      left.Running? ==> left.first == p.gasLimit
  {
    hide Execute;
    var created := SetCode(l, id, p.code);
    if p.gasDeposit == 0 || p.gasDeposit <= Held(created.acc.balances, sender) {
      var funded := if p.gasDeposit != 0 then Deposit(created, sender, id, p.gasDeposit) else created;
      FirstIsRequested(env, funded, m, id, sender, id, p.code, 0, p.gasLimit, "init", p.params);
    }
  }

  /** A batch is its first part followed by its second, unless the first part fails. */
  lemma {:induction false} BatchInParts(
      env: Env, l: Ledger, m: Meter, id: Id, sender: Id, a: seq<Payload>, b: seq<Payload>)
    ensures
      var r := ApplyBatch(env, l, m, id, sender, a);
      ApplyBatch(env, l, m, id, sender, a + b) ==
        if r.ok then ApplyBatch(env, r.ledger, r.meter, id, sender, b) else r
    decreases |a|
  {
    if a == [] {
      assert a + b == b;
    } else {
      var r := ApplyOne(env, l, m, id, sender, a[0]);
      assert (a + b)[0] == a[0] && (a + b)[1..] == a[1..] + b;
      if r.ok {
        BatchInParts(env, r.ledger, r.meter, id, sender, a[1..], b);
      }
    }
  }

  lemma {:induction false} LastEntry(env: Env, before: Applied, id: Id, sender: Id, p: Payload)
    ensures ApplyBatch(env, before.ledger, before.meter, id, sender, [p])
      == ApplyOne(env, before.ledger, before.meter, id, sender, p)
  {
    assert [p][1..] == [];
  }

  /** Entry k makes the first call of a batch: the entries before it succeed without one. */
  ghost predicate FirstCall(env: Env, l: Ledger, m: Meter, id: Id, sender: Id, entries: seq<Payload>, k: nat) {
    k < |entries| &&
    var before := ApplyBatch(env, l, m, id, sender, entries[..k]);
    before.ok && before.meter.Idle? && ApplyOne(env, before.ledger, before.meter, id, sender, entries[k]).meter.Running?
  }

  /** If a batch has started the meter, some entry made the first call. */
  lemma {:induction false} SomeFirstCall(env: Env, l: Ledger, m: Meter, id: Id, sender: Id, entries: seq<Payload>)
    requires m.Idle? && ApplyBatch(env, l, m, id, sender, entries).meter.Running?
    ensures exists k: nat :: FirstCall(env, l, m, id, sender, entries, k)
    decreases |entries|
  {
    var n := |entries| - 1;
    var fewer := entries[..n];
    assert entries == fewer + [entries[n]];
    BatchInParts(env, l, m, id, sender, fewer, [entries[n]]);
    var before := ApplyBatch(env, l, m, id, sender, fewer);
    if before.meter.Running? {
      SomeFirstCall(env, l, m, id, sender, fewer);
      var k: nat :| FirstCall(env, l, m, id, sender, fewer, k);
      assert fewer[..k] == entries[..k];
      assert FirstCall(env, l, m, id, sender, entries, k);
    } else {
      LastEntry(env, before, id, sender, entries[n]);
      assert FirstCall(env, l, m, id, sender, entries, n);
    }
  }

  /** The entry that makes the first call fixes the limit for the whole batch. */
  lemma {:induction false} FirstCallFixes(
      env: Env, l: Ledger, m: Meter, id: Id, sender: Id, entries: seq<Payload>, k: nat)
    requires FirstCall(env, l, m, id, sender, entries, k)
    ensures
      var left := ApplyBatch(env, l, m, id, sender, entries).meter;
      left.Running? && left.first == LimitOf(entries[k])
  {
    var before := ApplyBatch(env, l, m, id, sender, entries[..k]);
    var rest := entries[k..];
    assert entries == entries[..k] + rest && rest[0] == entries[k];
    BatchInParts(env, l, m, id, sender, entries[..k], rest);
    FirstLimitOfOne(env, before.ledger, before.meter, id, sender, entries[k]);
  }

  /**
    * However many contracts call each other, all of their gas stays within the limit that the first call asked for:
    * that of the transaction, or of the entry of a batch that makes the first call.
    */
  lemma GasIsBounded(env: Env, l: Ledger, tx: Tx)
    ensures
      var r := ApplyTransaction(env, l, tx);
      var spent := r.ledger.burned - l.burned;
      && 0 <= spent
      && (spent > 0 ==> r.meter.Running? && spent <= r.meter.first)
      && match tx.body
         case One(p) => spent <= LimitOf(p)
         case Batch(entries) =>
           && (spent > 0 ==> exists k: nat :: FirstCall(env, l, Idle(tx.sender), tx.id, tx.sender, entries, k))
           && (forall k: nat :: FirstCall(env, l, Idle(tx.sender), tx.id, tx.sender, entries, k) ==>
                 r.meter.Running? && r.meter.first == LimitOf(entries[k]) && spent <= LimitOf(entries[k]))
  {
    var m := Idle(tx.sender);
    var r := ApplyTransaction(env, l, tx);
    BodyIsLawful(env, l, m, tx.id, tx.sender, tx.body);
    match tx.body
    case One(p) => FirstLimitOfOne(env, l, m, tx.id, tx.sender, p);
    case Batch(entries) =>
      if r.meter.Running? {
        SomeFirstCall(env, l, m, tx.id, tx.sender, entries);
      }
      forall k: nat | FirstCall(env, l, m, tx.id, tx.sender, entries, k)
        ensures r.meter.Running? && r.meter.first == LimitOf(entries[k])
      {
        FirstCallFixes(env, l, m, tx.id, tx.sender, entries, k);
      }
  }
}
