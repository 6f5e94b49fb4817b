/** The account entries of the state tree, and how much they hold in total. */
module Accounts {
  import opened Bytes

  const ZEROS: Key := [
    0, 0, 0, 0, 0, 0, 0, 0, 0, 0, 0, 0, 0, 0, 0, 0,
    0, 0, 0, 0, 0, 0, 0, 0, 0, 0, 0, 0, 0, 0, 0, 0]

  /** A 32-byte identifier. */
  type Id = k: Key | |k| == 32 witness ZEROS

  /** A 64-bit amount of PERLs. */
  type Amount = x: nat | x < TWO64

  /** 64-bit addition wraps around. */
  function Add64(a: Amount, b: Amount): Amount {
    if a + b < TWO64 then a + b else a + b - TWO64
  }

  type Pot = map<Id, Amount>

  /** A signed 64-bit number. */
  type Word = x: int | -0x8000_0000_0000_0000 <= x < 0x8000_0000_0000_0000

  /** Linear memory, of a size that fits into 64 bits. */
  type LinearMemory = s: seq<byte> | |s| < TWO64

  /** The globals and the linear memory of a contract. */
  datatype VmState = VmState(globals: seq<Word>, memory: LinearMemory)

  datatype Accounts = Accounts(
    balances: Pot,
    stakes: Pot,
    rewards: Pot,
    gas: Pot,
    code: map<Id, seq<byte>>,
    vms: map<Id, VmState>)

  datatype Request = Request(account: Id, amount: Amount, block: nat)

  /**
    * The accounts as a block sees them, with the withdrawals that wait to be paid and two running
    * counts: what the faucet has issued, and what has been spent on gas.
    */
  datatype Ledger = Ledger(acc: Accounts, pending: seq<Request>, issued: nat, burned: nat)

  /** An account without an entry holds nothing. */
  function Held(p: Pot, id: Id): Amount {
    if id in p then p[id] else 0
  }

  function SetBalance(l: Ledger, id: Id, v: Amount): Ledger {
    l.(acc := l.acc.(balances := l.acc.balances[id := v]))
  }

  function SetStake(l: Ledger, id: Id, v: Amount): Ledger {
    l.(acc := l.acc.(stakes := l.acc.stakes[id := v]))
  }

  function SetReward(l: Ledger, id: Id, v: Amount): Ledger {
    l.(acc := l.acc.(rewards := l.acc.rewards[id := v]))
  }

  function SetGas(l: Ledger, id: Id, v: Amount): Ledger {
    l.(acc := l.acc.(gas := l.acc.gas[id := v]))
  }

  function SetCode(l: Ledger, id: Id, code: seq<byte>): Ledger {
    l.(acc := l.acc.(code := l.acc.code[id := code]))
  }

  function SetVm(l: Ledger, id: Id, s: VmState): Ledger {
    l.(acc := l.acc.(vms := l.acc.vms[id := s]))
  }

  // Totals.

  ghost function Sum(p: Pot): nat {
    if p == map[] then 0 else
      var id :| id in p;
      p[id] + Sum(p - {id})
  }

  lemma EmptySum()
    ensures Sum(map[]) == 0
  {
  }

  lemma {:induction false} SumWithout(p: Pot, id: Id)
    requires id in p
    ensures Sum(p) == p[id] + Sum(p - {id})
    decreases |p|
  {
    var first :| first in p && Sum(p) == p[first] + Sum(p - {first});
    if first != id {
      SumWithout(p - {first}, id);
      SumWithout(p - {id}, first);
      assert p - {first} - {id} == p - {id} - {first};
    }
  }

  lemma SumSet(p: Pot, id: Id, v: Amount)
    ensures Sum(p[id := v]) == Sum(p) - Held(p, id) + v
  {
    SumWithout(p[id := v], id);
    assert p[id := v] - {id} == p - {id};
    if id in p {
      SumWithout(p, id);
    } else {
      assert p - {id} == p;
    }
  }

  lemma {:induction false} HeldIsPart(p: Pot, id: Id)
    ensures Held(p, id) <= Sum(p)
  {
    if id in p {
      SumWithout(p, id);
    }
  }

  ghost function Owed(rs: seq<Request>): nat {
    if rs == [] then 0 else Owed(rs[..|rs| - 1]) + rs[|rs| - 1].amount
  }

  /** Everything there is: what accounts hold, what waits to be paid, and what went into gas. */
  ghost function Wealth(l: Ledger): nat {
    Sum(l.acc.balances) + Sum(l.acc.stakes) + Sum(l.acc.rewards) + Sum(l.acc.gas)
    + Owed(l.pending) + l.burned
  }

  lemma SetBalanceWealth(l: Ledger, id: Id, v: Amount)
    ensures Wealth(SetBalance(l, id, v)) == Wealth(l) - Held(l.acc.balances, id) + v
  {
    SumSet(l.acc.balances, id, v);
  }

  lemma SetStakeWealth(l: Ledger, id: Id, v: Amount)
    ensures Wealth(SetStake(l, id, v)) == Wealth(l) - Held(l.acc.stakes, id) + v
  {
    SumSet(l.acc.stakes, id, v);
  }

  lemma SetRewardWealth(l: Ledger, id: Id, v: Amount)
    ensures Wealth(SetReward(l, id, v)) == Wealth(l) - Held(l.acc.rewards, id) + v
  {
    SumSet(l.acc.rewards, id, v);
  }

  lemma SetGasWealth(l: Ledger, id: Id, v: Amount)
    ensures Wealth(SetGas(l, id, v)) == Wealth(l) - Held(l.acc.gas, id) + v
  {
    SumSet(l.acc.gas, id, v);
  }

  /** What is missing after a step, beyond what the faucet issued in it. */
  ghost function Lost(l: Ledger, after: Ledger): int {
    Wealth(l) + after.issued - l.issued - Wealth(after)
  }

  /** Nothing is created but by the faucet, and nothing is lost but in whole wraps of 64 bits. */
  ghost predicate Accounted(l: Ledger, after: Ledger) {
    && l.issued <= after.issued
    && l.burned <= after.burned
    && 0 <= Lost(l, after)
    && Lost(l, after) % TWO64 == 0
  }

  lemma AccountedThen(a: Ledger, b: Ledger, c: Ledger)
    requires Accounted(a, b) && Accounted(b, c)
    ensures Accounted(a, c)
  {
    assert Lost(a, c) == Lost(a, b) + Lost(b, c);
  }

  /** An addition is the only place where anything can go missing. */
  lemma AccountedByAdd(l: Ledger, after: Ledger, x: Amount, amount: Amount)
    requires l.issued <= after.issued && l.burned <= after.burned
    requires Lost(l, after) == x + amount - Add64(x, amount)
    ensures Accounted(l, after)
  {
  }

  /** As long as the supply fits into 64 bits the account is exact. */
  lemma AccountedExactly(l: Ledger, after: Ledger)
    requires Accounted(l, after)
    requires Wealth(l) + after.issued - l.issued < TWO64
    ensures Wealth(after) == Wealth(l) + after.issued - l.issued
  {
    assert 0 <= Lost(l, after) < TWO64;
  }
}
