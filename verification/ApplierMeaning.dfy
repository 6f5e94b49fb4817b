/** Who ends up with what: the effects of single transactions, and what undoes them. */
module ApplierMeaning {
  import opened Bytes
  import opened Accounts
  import opened Applier
  import opened ApplierLaws

  /** Every account holds the same in both, entry or no entry. */
  ghost predicate SamePot(p: Pot, q: Pot) {
    forall id :: Held(p, id) == Held(q, id)
  }

  ghost predicate SameHoldings(a: Accounts, b: Accounts) {
    && SamePot(a.balances, b.balances) && SamePot(a.stakes, b.stakes)
    && SamePot(a.rewards, b.rewards) && SamePot(a.gas, b.gas)
  }

  /** Nothing wraps while the supply fits into 64 bits. */
  lemma {:induction false} FitsAfterTaking(p: Pot, from: Id, to: Id, amount: Amount)
    requires amount <= Held(p, from) && Sum(p) < TWO64
    ensures Held(p[from := Held(p, from) - amount], to) + amount < TWO64
  {
    hide Sum;
    SumSet(p, from, Held(p, from) - amount);
    HeldIsPart(p[from := Held(p, from) - amount], to);
  }

  lemma PotIsUndone(p: Pot, from: Id, to: Id, amount: Amount, x: Amount, y: Amount)
    requires amount <= Held(p, from)
    requires x == Held(p[from := Held(p, from) - amount], to) + amount
    requires y == Held(p[from := Held(p, from) - amount][to := x][to := x - amount], from) + amount
    ensures from == to ==> SamePot(p[from := Held(p, from) - amount][to := x], p)
    ensures SamePot(p[from := Held(p, from) - amount][to := x][to := x - amount][from := y], p)
  {
  }

  /** The balances after a payment, when nothing wraps. */
  lemma PaidBalances(l: Ledger, from: Id, to: Id, amount: Amount)
    requires amount <= Held(l.acc.balances, from)
    requires Held(l.acc.balances[from := Held(l.acc.balances, from) - amount], to) + amount < TWO64
    ensures
      var taken := l.acc.balances[from := Held(l.acc.balances, from) - amount];
      Pay(l, from, to, amount) == l.(acc := l.acc.(balances := taken[to := Held(taken, to) + amount]))
  {
  }

  /** Paying the amount back restores every holding, and paying oneself changes none. */
  lemma PayIsUndone(l: Ledger, from: Id, to: Id, amount: Amount)
    requires amount <= Held(l.acc.balances, from) && Wealth(l) < TWO64
    ensures from == to ==> SameHoldings(Pay(l, from, to, amount).acc, l.acc)
    ensures amount <= Held(Pay(l, from, to, amount).acc.balances, to)
    ensures SameHoldings(Pay(Pay(l, from, to, amount), to, from, amount).acc, l.acc)
  {
    hide Sum, Owed, SamePot, Pay;
    var p := l.acc.balances;
    var taken := p[from := Held(p, from) - amount];
    FitsAfterTaking(p, from, to, amount);
    var x := Held(taken, to) + amount;
    var y := Held(taken[to := x][to := x - amount], from) + amount;
    PaidBalances(l, from, to, amount);
    PaidBalances(Pay(l, from, to, amount), to, from, amount);
    PotIsUndone(p, from, to, amount, x, y);
    OtherPots(l.acc);
  }

  lemma OtherPots(a: Accounts)
    ensures SamePot(a.balances, a.balances) && SamePot(a.stakes, a.stakes)
    ensures SamePot(a.rewards, a.rewards) && SamePot(a.gas, a.gas)
  {
  }

  lemma SetBack(p: Pot, id: Id, v: Amount)
    ensures SamePot(p[id := v][id := Held(p, id)], p)
  {
  }

  /** What a transfer leaves with the sender, the recipient and everyone else. */
  lemma PayMoves(l: Ledger, from: Id, to: Id, amount: Amount, other: Id)
    requires amount <= Held(l.acc.balances, from) && Wealth(l) < TWO64 && from != to && other != from && other != to
    ensures
      var after := Pay(l, from, to, amount);
      && Held(after.acc.balances, from) == Held(l.acc.balances, from) - amount
      && Held(after.acc.balances, to) == Held(l.acc.balances, to) + amount
      && Held(after.acc.balances, other) == Held(l.acc.balances, other)
      && after == l.(acc := l.acc.(balances := after.acc.balances))
  {
    hide Sum, Owed;
    var taken := SetBalance(l, from, Held(l.acc.balances, from) - amount);
    SumSet(l.acc.balances, from, Held(l.acc.balances, from) - amount);
    HeldIsPart(taken.acc.balances, to);
  }

  /**
    * A transfer to an account without code, from anyone but the faucet: it succeeds if and only if it asks for no
    * call and the balance suffices, it then moves the amount, and otherwise it changes nothing.
    */
  lemma {:induction false} PlainTransfer(env: Env, l: Ledger, m: Meter, id: Id, sender: Id, p: Payload)
    requires p.Transfer? && !HasCode(l, p.recipient) && sender != FAUCET
    ensures
      var r := ApplyOne(env, l, m, id, sender, p);
      && r.meter == m
      && (r.ok <==> p.gasLimit == 0 && p.func == "" && p.params == [] && p.amount <= Held(l.acc.balances, sender))
      && (r.ok ==> r.ledger == Pay(l, sender, p.recipient, p.amount))
      && (!r.ok ==> r.ledger == l)
  {
  }

  /** A transfer that only pays. */
  predicate Plain(l: Ledger, p: Payload) {
    p.Transfer? && !HasCode(l, p.recipient) && p.gasLimit == 0 && p.func == "" && p.params == []
  }

  ghost predicate AllPlain(l: Ledger, entries: seq<Payload>) {
    forall i :: 0 <= i < |entries| ==> Plain(l, entries[i])
  }

  /** What the entries pay to anyone but the sender. */
  function PaidOut(sender: Id, entries: seq<Payload>): nat
    requires forall i :: 0 <= i < |entries| ==> entries[i].Transfer?
  {
    if entries == [] then 0
    else (if entries[0].recipient == sender then 0 else entries[0].amount) + PaidOut(sender, entries[1..])
  }

  /** What the entries pay to one account. */
  function PaidTo(id: Id, entries: seq<Payload>): nat
    requires forall i :: 0 <= i < |entries| ==> entries[i].Transfer?
  {
    if entries == [] then 0
    else (if entries[0].recipient == id then entries[0].amount else 0) + PaidTo(id, entries[1..])
  }

  /** Entry k can be paid from the balance once the ones before it have been. */
  predicate Affordable(balance: nat, sender: Id, entries: seq<Payload>, k: nat)
    requires k < |entries| && forall i :: 0 <= i < |entries| ==> entries[i].Transfer?
  {
    PaidOut(sender, entries[..k]) + entries[k].amount <= balance
  }

  lemma PayHolds(l: Ledger, from: Id, to: Id, amount: Amount, id: Id)
    requires amount <= Held(l.acc.balances, from) && Wealth(l) < TWO64
    ensures
      var after := Pay(l, from, to, amount);
      && Held(after.acc.balances, id) + (if id == from then amount else 0) ==
           Held(l.acc.balances, id) + (if id == to then amount else 0)
      && after == l.(acc := l.acc.(balances := after.acc.balances)) && Wealth(after) == Wealth(l)
  {
    hide Sum, Owed;
    var balances := l.acc.balances;
    var taken := balances[from := Held(balances, from) - amount];
    FitsAfterTaking(balances, from, to, amount);
    PaidBalances(l, from, to, amount);
    SumSet(balances, from, Held(balances, from) - amount);
    SumSet(taken, to, Held(taken, to) + amount);
  }

  lemma {:induction false} FirstOfPrefix(sender: Id, id: Id, entries: seq<Payload>, k: nat)
    requires 0 < k <= |entries| && forall i :: 0 <= i < |entries| ==> entries[i].Transfer?
    ensures
      var first, rest := entries[0], entries[1..];
      && PaidOut(sender, entries[..k]) ==
           (if first.recipient == sender then 0 else first.amount) + PaidOut(sender, rest[..k - 1])
      && PaidTo(id, entries[..k]) == (if first.recipient == id then first.amount else 0) + PaidTo(id, rest[..k - 1])
  {
    assert entries[..k][1..] == entries[1..][..k - 1];
  }

  /** Once the first entry has been paid, the others can be paid as far as before. */
  lemma {:induction false} RestIsAffordable(balance: nat, left: nat, sender: Id, entries: seq<Payload>, j: nat)
    requires j + 1 < |entries| && forall i :: 0 <= i < |entries| ==> entries[i].Transfer?
    requires left + (if entries[0].recipient == sender then 0 else entries[0].amount) == balance
    ensures Affordable(left, sender, entries[1..], j) <==> Affordable(balance, sender, entries, j + 1)
  {
    FirstOfPrefix(sender, sender, entries, j + 1);
  }

  /**
    * A batch of transfers that only pay, from anyone but the faucet, in which k entries can be paid one after the
    * other: exactly those are paid, and the batch succeeds if and only if they are all of it.
    */
  lemma {:induction false} PlainBatch(
      env: Env, l: Ledger, m: Meter, id: Id, sender: Id, entries: seq<Payload>, k: nat, other: Id)
    requires sender != FAUCET && other != sender && AllPlain(l, entries) && Wealth(l) < TWO64
    requires k <= |entries|
    requires forall j: nat | j < k :: Affordable(Held(l.acc.balances, sender), sender, entries, j)
    requires k < |entries| ==> !Affordable(Held(l.acc.balances, sender), sender, entries, k)
    ensures
      var r := ApplyBatch(env, l, m, id, sender, entries);
      && (r.ok <==> k == |entries|) && r.meter == m
      && Held(r.ledger.acc.balances, sender) == Held(l.acc.balances, sender) - PaidOut(sender, entries[..k])
      && Held(r.ledger.acc.balances, other) == Held(l.acc.balances, other) + PaidTo(other, entries[..k])
      && r.ledger == l.(acc := l.acc.(balances := r.ledger.acc.balances))
    decreases |entries|
  {
    hide Wealth, ApplyOne, Pay, Held;
    if entries != [] {
      var p, rest, balance := entries[0], entries[1..], Held(l.acc.balances, sender);
      PlainTransfer(env, l, m, id, sender, p);
      assert Affordable(balance, sender, entries, 0) <==> p.amount <= balance;
      if k > 0 {
        assert Affordable(balance, sender, entries, 0);
        hide Affordable;
        var paid := Pay(l, sender, p.recipient, p.amount);
        PayHolds(l, sender, p.recipient, p.amount, sender);
        PayHolds(l, sender, p.recipient, p.amount, other);
        FirstOfPrefix(sender, other, entries, k);
        hide PaidOut, PaidTo;
        forall j: nat | j < |rest|
          ensures Affordable(Held(paid.acc.balances, sender), sender, rest, j) <==>
                  Affordable(balance, sender, entries, j + 1)
        {
          RestIsAffordable(balance, Held(paid.acc.balances, sender), sender, entries, j);
        }
        PlainBatch(env, paid, m, id, sender, rest, k - 1, other);
      }
    }
  }

  /** A stake that has been placed can be withdrawn, which restores every holding. */
  lemma PlacedStakeIsUndone(l: Ledger, block: nat, sender: Id, amount: Amount)
    requires Wealth(l) < TWO64
    ensures
      var (placed, ok) := ApplyStake(l, block, sender, PlaceStake, amount);
      && (ok <==> amount <= Held(l.acc.balances, sender))
      && (!ok ==> placed == l)
      && (ok ==>
            var (back, done) := ApplyStake(placed, block, sender, WithdrawStake, amount);
            done && SameHoldings(back.acc, l.acc))
  {
    hide Sum, Owed, SamePot;
    HeldIsPart(l.acc.balances, sender);
    HeldIsPart(l.acc.stakes, sender);
    if amount <= Held(l.acc.balances, sender) {
      OtherPots(l.acc);
      SetBack(l.acc.balances, sender, Held(l.acc.balances, sender) - amount);
      SetBack(l.acc.stakes, sender, Held(l.acc.stakes, sender) + amount);
    }
  }

  /** A stake that has been withdrawn can be placed again, which restores every holding. */
  lemma WithdrawnStakeIsUndone(l: Ledger, block: nat, sender: Id, amount: Amount)
    requires Wealth(l) < TWO64
    ensures
      var (withdrawn, ok) := ApplyStake(l, block, sender, WithdrawStake, amount);
      && (ok <==> amount <= Held(l.acc.stakes, sender))
      && (!ok ==> withdrawn == l)
      && (ok ==>
            var (back, done) := ApplyStake(withdrawn, block, sender, PlaceStake, amount);
            done && SameHoldings(back.acc, l.acc))
  {
    hide Sum, Owed, SamePot;
    HeldIsPart(l.acc.balances, sender);
    HeldIsPart(l.acc.stakes, sender);
    if amount <= Held(l.acc.stakes, sender) {
      OtherPots(l.acc);
      SetBack(l.acc.balances, sender, Held(l.acc.balances, sender) + amount);
      SetBack(l.acc.stakes, sender, Held(l.acc.stakes, sender) - amount);
    }
  }

  /** The contract's deposit pays first; the payer makes up the rest; nobody else pays. */
  lemma ChargeSplits(l: Ledger, payer: Id, contract: Id, gas: Amount, other: Id)
    requires gas <= Held(l.acc.gas, contract) + Held(l.acc.balances, payer)
    ensures
      var after := Charge(l, payer, contract, gas);
      var fromDeposit := Held(l.acc.gas, contract) - Held(after.acc.gas, contract);
      var fromPayer := Held(l.acc.balances, payer) - Held(after.acc.balances, payer);
      && 0 <= fromDeposit && 0 <= fromPayer && fromDeposit + fromPayer == gas
      && (fromPayer > 0 ==> Held(after.acc.gas, contract) == 0)
      && (other != payer ==> Held(after.acc.balances, other) == Held(l.acc.balances, other))
      && (other != contract ==> Held(after.acc.gas, other) == Held(l.acc.gas, other))
  {
    var deposit, balance := Held(l.acc.gas, contract), Held(l.acc.balances, payer);
    var after := Charge(l, payer, contract, gas);
    if gas > deposit {
      assert after.acc.balances == l.acc.balances[payer := balance - (gas - deposit)];
      assert after.acc.gas == l.acc.gas[contract := 0];
    } else {
      assert after.acc.balances == l.acc.balances;
      assert after.acc.gas == l.acc.gas[contract := deposit - gas];
    }
  }

  /** A contract is created under its transaction's ID once: its code is there from then on, and a second try fails. */
  lemma {:induction false} ContractIsCreatedOnce(env: Env, l: Ledger, m: Meter, id: Id, sender: Id, p: Payload)
    requires p.Contract? && Parses(p)
    ensures
      var r := ApplyOne(env, l, m, id, sender, p);
      && (HasCode(l, id) || !env.validWasm(p.code) ==> r == Applied(l, m, false))
      && (!HasCode(l, id) && env.validWasm(p.code) ==> HasCode(r.ledger, id) && CodeOf(r.ledger, id) == p.code)
    ensures
      var r := ApplyOne(env, l, m, id, sender, p);
      env.validWasm(p.code) ==> ApplyOne(env, r.ledger, r.meter, id, sender, p) == Applied(r.ledger, r.meter, false)
  {
    if !HasCode(l, id) && env.validWasm(p.code) {
      var created := SetCode(l, id, p.code);
      if p.gasDeposit == 0 || p.gasDeposit <= Held(created.acc.balances, sender) {
        FundThenRun(env, created, m, id, sender, id, p.code, 0, p.gasLimit, p.gasDeposit, "init", p.params);
      }
    }
  }

  /**
    * A call that runs and fails costs its gas and nothing else: the contract's deposit and the payer's balance fall by
    * the gas between them, and no state, code, request or sub-transaction remains of it.
    */
  lemma {:induction false} FailedCallOnlyCosts(
      env: Env, l: Ledger, m: Meter, id: Id, sender: Id, contract: Id, code: seq<byte>, amount: Amount,
      requested: Amount, func: string, params: seq<byte>, other: Id)
    requires MayRun(l, Started(m, requested), contract, requested)
    requires
      var started := Started(m, requested);
      env.vm(CallFor(env, l, started, id, sender, contract, code, amount, requested, func, params)).Failed?
    ensures
      var started := Started(m, requested);
      var gas := env.vm(CallFor(env, l, started, id, sender, contract, code, amount, requested, func, params)).gas;
      var r := Execute(env, l, m, id, sender, contract, code, amount, requested, func, params);
      var after := r.ledger.acc;
      && r.ok && gas <= requested
      && r.meter == Running(m.payer, started.first, started.limit - gas)
      && r.ledger == l.(acc := l.acc.(balances := after.balances, gas := after.gas), burned := l.burned + gas)
      && Held(after.gas, contract) + Held(after.balances, m.payer) + gas
         == Held(l.acc.gas, contract) + Held(l.acc.balances, m.payer)
      && (other != m.payer ==> Held(after.balances, other) == Held(l.acc.balances, other))
      && (other != contract ==> Held(after.gas, other) == Held(l.acc.gas, other))
  {
    var started := Started(m, requested);
    GasIsCovered(env, l, started, id, sender, contract, code, amount, requested, func, params);
    var gas := env.vm(CallFor(env, l, started, id, sender, contract, code, amount, requested, func, params)).gas;
    ChargeSplits(l, m.payer, contract, gas, other);
  }

  /** A batch succeeds if and only if each entry succeeds on what the entries before it left. */
  lemma {:induction false} BatchSucceeds(env: Env, l: Ledger, m: Meter, id: Id, sender: Id, entries: seq<Payload>)
    ensures ApplyBatch(env, l, m, id, sender, entries).ok <==>
      forall k :: 0 <= k < |entries| ==>
        var before := ApplyBatch(env, l, m, id, sender, entries[..k]);
        before.ok && ApplyOne(env, before.ledger, before.meter, id, sender, entries[k]).ok
    decreases |entries|
  {
    if entries != [] {
      var n := |entries| - 1;
      var fewer := entries[..n];
      BatchSucceeds(env, l, m, id, sender, fewer);
      assert entries == fewer + [entries[n]];
      BatchInParts(env, l, m, id, sender, fewer, [entries[n]]);
      var before := ApplyBatch(env, l, m, id, sender, fewer);
      LastEntry(env, before, id, sender, entries[n]);
      assert forall k :: 0 <= k < n ==> fewer[..k] == entries[..k] && fewer[k] == entries[k];
    }
  }
}
