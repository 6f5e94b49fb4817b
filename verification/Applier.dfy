/** What one transaction does to the ledger, with every contract call and sub-transaction it causes. */
module Applier {
  import opened Bytes
  import opened SortedSeq
  import opened Accounts

  const FAUCET: Id := [
    0x0f, 0x56, 0x9c, 0x84, 0xd4, 0x34, 0xfb, 0x0c, 0xa6, 0x82, 0xc7, 0x33, 0x17, 0x6f, 0x7c, 0x0c,
    0x2d, 0x85, 0x3f, 0xce, 0x04, 0xd9, 0x5a, 0xe1, 0x31, 0xd2, 0xf9, 0xb4, 0x12, 0x4d, 0x93, 0xd8]

  const MINIMUM_WITHDRAW: nat := 100

  /** The identifier of a transaction that a contract sends: it is never filled in. */
  const NO_ID: Id := ZEROS

  datatype Operation = PlaceStake | WithdrawStake | WithdrawReward | OtherOperation

  datatype Payload =
    | Transfer(recipient: Id, amount: Amount, gasLimit: Amount, gasDeposit: Amount,
               func: string, params: seq<byte>)
    | Stake(op: Operation, stake: Amount)
    | Contract(gasLimit: Amount, gasDeposit: Amount, params: seq<byte>, code: seq<byte>)
    | Unreadable
    | UnknownTag

  /** Batches hold no batches. */
  datatype Body = One(payload: Payload) | Batch(entries: seq<Payload>)

  datatype Tx = Tx(id: Id, sender: Id, body: Body, size: Amount)

  /** The sanity checks made when a payload is parsed. */
  predicate Parses(p: Payload) {
    match p
    case Transfer(_, _, limit, _, func, _) => func != "init" && (func == "" || limit > 0)
    case Stake(op, amount) =>
      !op.OtherOperation? && amount > 0 && (op.WithdrawReward? ==> amount >= MINIMUM_WITHDRAW)
    case Contract(limit, _, _, code) => limit > 0 && code != []
    case Unreadable => false
    case UnknownTag => true
  }

  // Contract execution is a black box that meters itself.

  datatype Call = Call(contract: Id, txId: Id, sender: Id, amount: Amount, limit: Amount,
                       func: string, params: seq<byte>, code: seq<byte>, state: Option<VmState>, block: nat)

  datatype Outcome = Failed(gas: Amount) | Done(gas: Amount, state: VmState, queue: seq<Body>)

  ghost predicate Metered(f: Call -> Outcome) {
    forall c: Call :: f(c).gas <= c.limit && (f(c).Done? ==> 1 <= f(c).gas)
  }

  /** A virtual machine never runs past its limit, and a run that succeeds costs something. */
  type Machine = f: Call -> Outcome | Metered(f) ghost witness c => Failed(0)

  /** A staker's part of a block's fees, from the fees, the stake counted for them and all counted stake. */
  type Sharing = (Amount, Amount, Amount) -> Amount

  /** What a block is applied with: the machine, code validation, the arithmetic of rewards, and the tip's index. */
  datatype Env = Env(vm: Machine, validWasm: seq<byte> -> bool, share: Sharing, block: nat)

  /** Who pays for gas; once a contract has been called, the limit it set and what is left of it. */
  datatype Meter = Idle(payer: Id) | Running(payer: Id, first: Amount, limit: Amount)

  function Fuel(m: Meter): nat {
    if m.Idle? then TWO64 else m.limit
  }

  function Started(m: Meter, requested: Amount): Meter {
    if m.Idle? then Running(m.payer, requested, requested) else m
  }

  /** One call's limit is what it asks for, cut to what is left of the whole transaction's limit. */
  function RealLimit(m: Meter, requested: Amount): Amount
    requires m.Running?
  {
    if requested < m.limit then requested else m.limit
  }

  /** A meter only runs down, for the same payer and against the same first limit. */
  predicate RunsDown(m: Meter, after: Meter) {
    && after.payer == m.payer
    && Fuel(after) <= Fuel(m)
    && (m.Running? ==> after.Running? && after.first == m.first)
  }

  datatype Applied = Applied(ledger: Ledger, meter: Meter, ok: bool)

  predicate HasCode(l: Ledger, id: Id) {
    id in l.acc.code
  }

  function CodeOf(l: Ledger, id: Id): seq<byte> {
    if id in l.acc.code then l.acc.code[id] else []
  }

  function StateOf(l: Ledger, id: Id): Option<VmState> {
    if id in l.acc.vms then Some(l.acc.vms[id]) else None
  }

  function Pay(l: Ledger, from: Id, to: Id, amount: Amount): Ledger
    requires amount <= Held(l.acc.balances, from)
  {
    var taken := SetBalance(l, from, Held(l.acc.balances, from) - amount);
    SetBalance(taken, to, Add64(Held(taken.acc.balances, to), amount))
  }

  function Deposit(l: Ledger, from: Id, to: Id, amount: Amount): Ledger
    requires amount <= Held(l.acc.balances, from)
  {
    var taken := SetBalance(l, from, Held(l.acc.balances, from) - amount);
    SetGas(taken, to, Add64(Held(taken.acc.gas, to), amount))
  }

  /** Gas comes out of the contract's own deposit first, and out of the payer's balance after that. */
  function Charge(l: Ledger, payer: Id, contract: Id, gas: Amount): Ledger
    requires gas <= Held(l.acc.gas, contract) + Held(l.acc.balances, payer)
  {
    var deposit := Held(l.acc.gas, contract);
    var charged :=
      if gas > deposit then SetBalance(SetGas(l, contract, 0), payer, Held(l.acc.balances, payer) - (gas - deposit))
      else SetGas(l, contract, deposit - gas);
    charged.(burned := charged.burned + gas)
  }

  /** The tests a call must pass before it runs. */
  predicate MayRun(l: Ledger, m: Meter, contract: Id, requested: Amount)
    requires m.Running?
  {
    var cap := RealLimit(m, requested);
    cap > 0 && cap <= Add64(Held(l.acc.balances, m.payer), Held(l.acc.gas, contract))
  }

  function CallFor(env: Env, l: Ledger, m: Meter, id: Id, sender: Id, contract: Id, code: seq<byte>,
                   amount: Amount, requested: Amount, func: string, params: seq<byte>): Call
    requires m.Running?
  {
    Call(contract, id, sender, amount, RealLimit(m, requested), func, params, code, StateOf(l, contract), env.block)
  }

  /** Whenever a call runs, its gas is covered: the limit has room for it, and so have deposit and balance. */
  lemma GasIsCovered(env: Env, l: Ledger, m: Meter, id: Id, sender: Id, contract: Id, code: seq<byte>,
                     amount: Amount, requested: Amount, func: string, params: seq<byte>)
    requires m.Running? && MayRun(l, m, contract, requested)
    ensures
      var gas := env.vm(CallFor(env, l, m, id, sender, contract, code, amount, requested, func, params)).gas;
      && gas <= RealLimit(m, requested) <= m.limit
      && gas <= Held(l.acc.gas, contract) + Held(l.acc.balances, m.payer)
  {
    var call := CallFor(env, l, m, id, sender, contract, code, amount, requested, func, params);
    assert Metered(env.vm);
    assert env.vm(call).gas <= call.limit;
  }

  function Execute(env: Env, l: Ledger, m: Meter, id: Id, sender: Id, contract: Id, code: seq<byte>,
                   amount: Amount, requested: Amount, func: string, params: seq<byte>): (r: Applied)
    ensures RunsDown(m, r.meter)
    decreases Fuel(m), 0, 1
  {
    var started := Started(m, requested);
    if !MayRun(l, started, contract, requested) then Applied(l, started, false) else
      GasIsCovered(env, l, started, id, sender, contract, code, amount, requested, func, params);
      assert Metered(env.vm);
      Settle(env, l, started, contract,
             env.vm(CallFor(env, l, started, id, sender, contract, code, amount, requested, func, params)))
  }

  /** What a call used is charged in any case; its state and what it sent count only if it succeeded. */
  function Settle(env: Env, l: Ledger, m: Meter, contract: Id, out: Outcome): (r: Applied)
    requires m.Running? && out.gas <= m.limit && (out.Done? ==> 1 <= out.gas)
    requires out.gas <= Held(l.acc.gas, contract) + Held(l.acc.balances, m.payer)
    ensures RunsDown(m, r.meter)
    decreases Fuel(m), 0, 0
  {
    var left := Running(m.payer, m.first, m.limit - out.gas);
    var charged := Charge(l, m.payer, contract, out.gas);
    match out
    case Failed(_) => Applied(charged, left, true)
    case Done(_, state, queue) => RunQueue(env, SetVm(charged, contract, state), left, contract, queue)
  }

  /** The transactions a contract sent, in order; one that fails is left behind as it is. */
  function RunQueue(env: Env, l: Ledger, m: Meter, contract: Id, queue: seq<Body>): (r: Applied)
    requires m.Running?
    ensures RunsDown(m, r.meter) && r.ok
    decreases Fuel(m), 4, |queue|
  {
    if queue == [] then Applied(l, m, true) else
      var r := ApplyBody(env, l, m, NO_ID, contract, queue[0]);
      RunQueue(env, r.ledger, r.meter, contract, queue[1..])
  }

  function ApplyBody(env: Env, l: Ledger, m: Meter, id: Id, sender: Id, body: Body): (r: Applied)
    ensures RunsDown(m, r.meter)
    decreases Fuel(m), 3, 0
  {
    match body
    case One(payload) => ApplyOne(env, l, m, id, sender, payload)
    case Batch(entries) => ApplyBatch(env, l, m, id, sender, entries)
  }

  /** Entries are applied until one fails; what the earlier ones did stays. */
  function ApplyBatch(env: Env, l: Ledger, m: Meter, id: Id, sender: Id, entries: seq<Payload>): (r: Applied)
    ensures RunsDown(m, r.meter)
    decreases Fuel(m), 2, |entries|
  {
    if entries == [] then Applied(l, m, true) else
      var r := ApplyOne(env, l, m, id, sender, entries[0]);
      if !r.ok then r else ApplyBatch(env, r.ledger, r.meter, id, sender, entries[1..])
  }

  function ApplyOne(env: Env, l: Ledger, m: Meter, id: Id, sender: Id, p: Payload): (r: Applied)
    ensures RunsDown(m, r.meter)
    decreases Fuel(m), 1, 0
  {
    if !Parses(p) then Applied(l, m, false) else
      match p
      case Transfer(_, _, _, _, _, _) => ApplyTransfer(env, l, m, id, sender, p)
      case Stake(op, amount) => var (after, ok) := ApplyStake(l, env.block, sender, op, amount); Applied(after, m, ok)
      case Contract(_, _, _, _) => ApplyContract(env, l, m, id, sender, p)
      case UnknownTag => Applied(l, m, true)
  }

  function ApplyTransfer(env: Env, l: Ledger, m: Meter, id: Id, sender: Id, p: Payload): (r: Applied)
    requires p.Transfer?
    ensures RunsDown(m, r.meter)
    decreases Fuel(m), 0, 2
  {
    var to := p.recipient;
    if !HasCode(l, to) && (p.gasLimit > 0 || p.func != "" || p.params != []) then
      Applied(l, m, false)
    else if sender == FAUCET then
      Applied(Issue(l, to, p.amount), m, true)
    else if Held(l.acc.balances, sender) < p.amount then
      Applied(l, m, false)
    else
      var paid := Pay(l, sender, to, p.amount);
      if !HasCode(l, to) then
        Applied(paid, m, true)
      else if p.gasDeposit != 0 && Held(paid.acc.balances, sender) < p.gasDeposit then
        Applied(paid, m, false)
      else
        var funded := if p.gasDeposit != 0 then Deposit(paid, sender, to, p.gasDeposit) else paid;
        if p.func == "" then Applied(funded, m, true)
        else Execute(env, funded, m, id, sender, to, CodeOf(l, to), p.amount, p.gasLimit, p.func, p.params)
  }

  /** The faucet pays without being charged. */
  function Issue(l: Ledger, to: Id, amount: Amount): Ledger {
    var paid := SetBalance(l, to, Add64(Held(l.acc.balances, to), amount));
    paid.(issued := paid.issued + amount)
  }

  function ApplyStake(l: Ledger, block: nat, sender: Id, op: Operation, amount: Amount): (Ledger, bool) {
    var balance := Held(l.acc.balances, sender);
    var stake := Held(l.acc.stakes, sender);
    var reward := Held(l.acc.rewards, sender);
    match op
    case PlaceStake =>
      if balance < amount then (l, false)
      else (SetStake(SetBalance(l, sender, balance - amount), sender, Add64(stake, amount)), true)
    case WithdrawStake =>
      if stake < amount then (l, false)
      else (SetStake(SetBalance(l, sender, Add64(balance, amount)), sender, stake - amount), true)
    case WithdrawReward =>
      if amount < MINIMUM_WITHDRAW || reward < amount then (l, false)
      else
        var taken := SetReward(l, sender, reward - amount);
        (taken.(pending := taken.pending + [Request(sender, amount, block)]), true)
    case OtherOperation => (l, true)
  }

  function ApplyContract(env: Env, l: Ledger, m: Meter, id: Id, sender: Id, p: Payload): (r: Applied)
    requires p.Contract?
    ensures RunsDown(m, r.meter)
    decreases Fuel(m), 0, 2
  {
    if HasCode(l, id) || !env.validWasm(p.code) then Applied(l, m, false) else
      var created := SetCode(l, id, p.code);
      if p.gasDeposit != 0 && Held(created.acc.balances, sender) < p.gasDeposit then
        Applied(created, m, false)
      else
        var funded := if p.gasDeposit != 0 then Deposit(created, sender, id, p.gasDeposit) else created;
        Execute(env, funded, m, id, sender, id, p.code, 0, p.gasLimit, "init", p.params)
  }

  /** A transaction from the outside pays for its own gas. */
  function ApplyTransaction(env: Env, l: Ledger, tx: Tx): Applied {
    ApplyBody(env, l, Idle(tx.sender), tx.id, tx.sender, tx.body)
  }
}
