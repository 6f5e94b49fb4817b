/** What a rejected transaction leaves behind. Nothing is rolled back, so the question is how far it had got. */
module Rejection {
  import opened Bytes
  import opened Accounts
  import opened Applier
  import opened ApplierLaws
  import opened ApplierMeaning
  import opened Collapse

  /** Every holding, all code, all contract states, all requests and both counts are as before. */
  ghost predicate Untouched(l: Ledger, after: Ledger) {
    && SameHoldings(after.acc, l.acc)
    && after.acc.code == l.acc.code && after.acc.vms == l.acc.vms
    && after.pending == l.pending && after.issued == l.issued && after.burned == l.burned
  }

  /** A transfer to an account without code that asks for a call all the same. */
  predicate CallsNothing(l: Ledger, p: Payload)
    requires p.Transfer?
  {
    !HasCode(l, p.recipient) && (p.gasLimit > 0 || p.func != "" || p.params != [])
  }

  /**
    * A payload whose rejection leaves no trace: it does not parse, or it is stopped before the first write, or that
    * write moves nothing and the gas deposit is not made either.
    */
  predicate LeavesNoTrace(env: Env, l: Ledger, id: Id, sender: Id, p: Payload) {
    !Parses(p) ||
    match p
    case Transfer(to, amount, _, deposit, _, _) =>
      var balance := Held(l.acc.balances, sender);
      || CallsNothing(l, p)
      || balance < amount
      || ((amount == 0 || sender == to) && (deposit == 0 || balance < deposit))
    case Contract(_, _, _, code) => HasCode(l, id) || !env.validWasm(code)
    case _ => true
  }

  /** A call is rejected if and only if it may not run, and then it has done nothing. */
  lemma {:induction false} ExecuteFails(
      env: Env, l: Ledger, m: Meter, id: Id, sender: Id, contract: Id, code: seq<byte>, amount: Amount,
      requested: Amount, func: string, params: seq<byte>)
    ensures
      var r := Execute(env, l, m, id, sender, contract, code, amount, requested, func, params);
      && (r.ok <==> MayRun(l, Started(m, requested), contract, requested))
      && (!r.ok ==> r.ledger == l)
  {
    var started := Started(m, requested);
    if MayRun(l, started, contract, requested) {
      GasIsCovered(env, l, started, id, sender, contract, code, amount, requested, func, params);
    }
  }

  lemma PayIsSeenIff(l: Ledger, from: Id, to: Id, amount: Amount)
    requires amount <= Held(l.acc.balances, from)
    ensures
      var after := Pay(l, from, to, amount);
      && (Untouched(l, after) <==> amount == 0 || from == to)
      && (SamePot(after.acc.balances, l.acc.balances) <==> amount == 0 || from == to)
      && (amount == 0 || from == to ==> Held(after.acc.balances, from) == Held(l.acc.balances, from))
  {
    var p, after := l.acc.balances, Pay(l, from, to, amount);
    OtherPots(l.acc);
    if amount == 0 || from == to {
      forall id
        ensures Held(after.acc.balances, id) == Held(p, id)
      {
      }
    } else {
      assert Held(after.acc.balances, from) != Held(p, from);
    }
  }

  lemma DepositIsSeen(l: Ledger, from: Id, to: Id, amount: Amount)
    requires 0 < amount <= Held(l.acc.balances, from)
    ensures !SamePot(Deposit(l, from, to, amount).acc.gas, l.acc.gas)
  {
    var after := Deposit(l, from, to, amount);
    assert Held(after.acc.gas, to) == Add64(Held(l.acc.gas, to), amount) != Held(l.acc.gas, to);
  }

  lemma {:induction false} TransferTraces(env: Env, l: Ledger, m: Meter, id: Id, sender: Id, p: Payload)
    requires p.Transfer? && Parses(p) && !ApplyTransfer(env, l, m, id, sender, p).ok
    ensures Untouched(l, ApplyTransfer(env, l, m, id, sender, p).ledger) <==> LeavesNoTrace(env, l, id, sender, p)
  {
    hide Execute, Pay, Deposit, SamePot;
    OtherPots(l.acc);
    var to := p.recipient;
    if !CallsNothing(l, p) && p.amount <= Held(l.acc.balances, sender) {
      var paid := Pay(l, sender, to, p.amount);
      PayIsSeenIff(l, sender, to, p.amount);
      PayKeepsGas(l, sender, to, p.amount);
      if p.gasDeposit == 0 {
        ExecuteFails(env, paid, m, id, sender, to, CodeOf(l, to), p.amount, p.gasLimit, p.func, p.params);
      } else if p.gasDeposit <= Held(paid.acc.balances, sender) {
        var funded := Deposit(paid, sender, to, p.gasDeposit);
        ExecuteFails(env, funded, m, id, sender, to, CodeOf(l, to), p.amount, p.gasLimit, p.func, p.params);
        DepositIsSeen(paid, sender, to, p.gasDeposit);
      }
    }
  }

  lemma PayKeepsGas(l: Ledger, from: Id, to: Id, amount: Amount)
    requires amount <= Held(l.acc.balances, from)
    ensures Pay(l, from, to, amount).acc.gas == l.acc.gas
  {
  }

  lemma {:induction false} ContractTraces(env: Env, l: Ledger, m: Meter, id: Id, sender: Id, p: Payload)
    requires p.Contract? && Parses(p) && !ApplyContract(env, l, m, id, sender, p).ok
    ensures Untouched(l, ApplyContract(env, l, m, id, sender, p).ledger) <==> LeavesNoTrace(env, l, id, sender, p)
  {
    hide Execute, SamePot;
    OtherPots(l.acc);
    if !HasCode(l, id) && env.validWasm(p.code) {
      var created := SetCode(l, id, p.code);
      if p.gasDeposit == 0 || p.gasDeposit <= Held(created.acc.balances, sender) {
        var funded := if p.gasDeposit != 0 then Deposit(created, sender, id, p.gasDeposit) else created;
        ExecuteFails(env, funded, m, id, sender, id, p.code, 0, p.gasLimit, "init", p.params);
      }
    }
  }

  /** A rejected payload has changed nothing if and only if one of the guards in front of its writes stopped it. */
  lemma {:induction false} RejectedCleanlyIff(env: Env, l: Ledger, m: Meter, id: Id, sender: Id, p: Payload)
    requires !ApplyOne(env, l, m, id, sender, p).ok
    ensures Untouched(l, ApplyOne(env, l, m, id, sender, p).ledger) <==> LeavesNoTrace(env, l, id, sender, p)
  {
    OtherPots(l.acc);
    if Parses(p) {
      match p
      case Transfer(_, _, _, _, _, _) => TransferTraces(env, l, m, id, sender, p);
      case Contract(_, _, _, _) => ContractTraces(env, l, m, id, sender, p);
      case _ =>
    }
  }

  /** The amount of a transfer stays with a contract whose call could not be paid for. */
  lemma {:induction false} RejectedTransferPays(env: Env, l: Ledger, id: Id, sender: Id, p: Payload)
    requires p.Transfer? && Parses(p) && p.func != "" && p.gasDeposit == 0 && HasCode(l, p.recipient)
    requires sender != FAUCET && sender != p.recipient && Wealth(l) < TWO64
    requires 0 < p.amount <= Held(l.acc.balances, sender)
    requires p.gasLimit > Held(l.acc.balances, sender) - p.amount + Held(l.acc.gas, p.recipient)
    ensures
      var r := ApplyOne(env, l, Idle(sender), id, sender, p);
      && !r.ok
      && Held(r.ledger.acc.balances, p.recipient) == Held(l.acc.balances, p.recipient) + p.amount
      && Held(r.ledger.acc.balances, sender) == Held(l.acc.balances, sender) - p.amount
  {
    var paid := Pay(l, sender, p.recipient, p.amount);
    FitsAfterTaking(l.acc.balances, sender, p.recipient, p.amount);
    PaidBalances(l, sender, p.recipient, p.amount);
    var m := Idle(sender);
    ExecuteFails(env, paid, m, id, sender, p.recipient, CodeOf(l, p.recipient), p.amount, p.gasLimit, p.func, p.params);
    assert !MayRun(paid, Started(m, p.gasLimit), p.recipient, p.gasLimit);
  }

  // Batches.

  /** Entry k is the one that fails. */
  ghost predicate FailsAt(env: Env, l: Ledger, m: Meter, id: Id, sender: Id, entries: seq<Payload>, k: nat) {
    k < |entries| &&
    var before := ApplyBatch(env, l, m, id, sender, entries[..k]);
    before.ok && !ApplyOne(env, before.ledger, before.meter, id, sender, entries[k]).ok
  }

  lemma {:induction false} SomeEntryFails(env: Env, l: Ledger, m: Meter, id: Id, sender: Id, entries: seq<Payload>)
    requires !ApplyBatch(env, l, m, id, sender, entries).ok
    ensures exists k: nat :: FailsAt(env, l, m, id, sender, entries, k)
    decreases |entries|
  {
    var n := |entries| - 1;
    var fewer := entries[..n];
    assert entries == fewer + [entries[n]];
    BatchInParts(env, l, m, id, sender, fewer, [entries[n]]);
    var before := ApplyBatch(env, l, m, id, sender, fewer);
    if before.ok {
      LastEntry(env, before, id, sender, entries[n]);
      assert FailsAt(env, l, m, id, sender, entries, n);
    } else {
      SomeEntryFails(env, l, m, id, sender, fewer);
      var k: nat :| FailsAt(env, l, m, id, sender, fewer, k);
      assert fewer[..k] == entries[..k];
      assert FailsAt(env, l, m, id, sender, entries, k);
    }
  }

  /**
    * A rejected batch has an entry that fails. It leaves what the entries before that one did, and exactly that if
    * and only if the failing entry leaves no trace.
    */
  lemma {:induction false} RejectedBatch(env: Env, l: Ledger, m: Meter, id: Id, sender: Id, entries: seq<Payload>)
    requires !ApplyBatch(env, l, m, id, sender, entries).ok
    ensures exists k: nat :: FailsAt(env, l, m, id, sender, entries, k)
    ensures forall k: nat :: FailsAt(env, l, m, id, sender, entries, k) ==>
      var before := ApplyBatch(env, l, m, id, sender, entries[..k]).ledger;
      Untouched(before, ApplyBatch(env, l, m, id, sender, entries).ledger) <==>
        LeavesNoTrace(env, before, id, sender, entries[k])
  {
    SomeEntryFails(env, l, m, id, sender, entries);
    forall k: nat | FailsAt(env, l, m, id, sender, entries, k)
      ensures
        var before := ApplyBatch(env, l, m, id, sender, entries[..k]).ledger;
        Untouched(before, ApplyBatch(env, l, m, id, sender, entries).ledger) <==>
          LeavesNoTrace(env, before, id, sender, entries[k])
    {
      BatchEndsAt(env, l, m, id, sender, entries, k);
    }
  }

  lemma {:induction false} BatchEndsAt(env: Env, l: Ledger, m: Meter, id: Id, sender: Id, entries: seq<Payload>, k: nat)
    requires FailsAt(env, l, m, id, sender, entries, k)
    ensures
      var before := ApplyBatch(env, l, m, id, sender, entries[..k]);
      && ApplyBatch(env, l, m, id, sender, entries)
         == ApplyOne(env, before.ledger, before.meter, id, sender, entries[k])
      && (Untouched(before.ledger, ApplyBatch(env, l, m, id, sender, entries).ledger) <==>
            LeavesNoTrace(env, before.ledger, id, sender, entries[k]))
  {
    hide ApplyOne, Untouched, LeavesNoTrace;
    var before := ApplyBatch(env, l, m, id, sender, entries[..k]);
    assert entries == entries[..k] + entries[k..] && entries[k..][0] == entries[k];
    BatchInParts(env, l, m, id, sender, entries[..k], entries[k..]);
    RejectedCleanlyIff(env, before.ledger, before.meter, id, sender, entries[k]);
  }

  // Blocks.

  lemma {:induction false} SumDrop(p: Pot, id: Id)
    ensures Sum(p) == Held(p, id) + Sum(p - {id})
  {
    if id in p {
      SumWithout(p, id);
    } else {
      assert p - {id} == p;
    }
  }

  lemma SamePotWithout(p: Pot, q: Pot, id: Id)
    requires SamePot(p, q)
    ensures SamePot(p - {id}, q - {id})
  {
    forall k
      ensures Held(p - {id}, k) == Held(q - {id}, k)
    {
      assert Held(p, k) == Held(q, k);
    }
  }

  lemma {:induction false} SamePotSameSum(p: Pot, q: Pot)
    requires SamePot(p, q)
    ensures Sum(p) == Sum(q)
    decreases p.Keys + q.Keys
  {
    hide Sum, SamePot;
    if p.Keys + q.Keys == {} {
      assert p == map[] && q == map[];
    } else {
      var id :| id in p.Keys + q.Keys;
      SumDrop(p, id);
      SumDrop(q, id);
      SamePotWithout(p, q, id);
      assert (p - {id}).Keys + (q - {id}).Keys == p.Keys + q.Keys - {id};
      SamePotSameSum(p - {id}, q - {id});
      SameHeld(p, q, id);
    }
  }

  lemma SameHeld(p: Pot, q: Pot, id: Id)
    requires SamePot(p, q)
    ensures Held(p, id) == Held(q, id)
  {
  }

  lemma UntouchedKeepsWealth(l: Ledger, after: Ledger)
    requires Untouched(l, after)
    ensures Wealth(after) == Wealth(l)
  {
    hide Sum, SamePot, Owed;
    SamePotSameSum(after.acc.balances, l.acc.balances);
    SamePotSameSum(after.acc.stakes, l.acc.stakes);
    SamePotSameSum(after.acc.rewards, l.acc.rewards);
    SamePotSameSum(after.acc.gas, l.acc.gas);
  }

  /**
    * A transaction of a block, of whatever kind and with whatever outcome, leaves the ledger as it was if and only if
    * its sender cannot pay the fee: otherwise at least the fee is gone. The faucet pays none.
    */
  lemma FeeIsKept(env: Env, r: Round, tx: Tx)
    ensures tx.sender != FAUCET ==> (Untouched(r.ledger, Step(env, r, tx).ledger) <==> !CanPay(r.ledger, tx))
    ensures tx.sender != FAUCET && !CanPay(r.ledger, tx) ==> Step(env, r, tx) == r.(rejected := r.rejected + [tx])
    ensures tx.sender == FAUCET ==>
      Step(env, r, tx).ledger == ApplyTransaction(env, r.ledger, tx).ledger && Step(env, r, tx).totalFee == r.totalFee
  {
    hide Sum, SamePot, Owed, ApplyTransaction, Wealth;
    OtherPots(r.ledger.acc);
    if tx.sender != FAUCET && CanPay(r.ledger, tx) {
      var paid := TakeFee(r, tx).ledger;
      var after := Step(env, r, tx).ledger;
      SetBalanceWealth(r.ledger, tx.sender, Held(r.ledger.acc.balances, tx.sender) - Fee(tx));
      TransactionAccounted(env, paid, tx);
      if Untouched(r.ledger, after) {
        UntouchedKeepsWealth(r.ledger, after);
      }
    }
  }
}
