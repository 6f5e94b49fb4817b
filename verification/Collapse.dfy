/** What a finalized block does to the ledger: fees, transactions, rewards and withdrawals. */
module Collapse {
  import opened Bytes
  import opened Accounts
  import opened Applier
  import opened ApplierLaws

  const MINIMUM_FEE: Amount := 2
  const MINIMUM_STAKE: Amount := 100
  const WITHDRAWAL_DELAY: nat := 50

  /** A twentieth of the payload's size. */
  function Fee(tx: Tx): Amount {
    if tx.size / 20 < MINIMUM_FEE then MINIMUM_FEE else tx.size / 20
  }

  /** How far a block has got: the fees taken, and for each sender the stake counted for their transactions. */
  datatype Round = Round(ledger: Ledger, totalFee: Amount, totalStake: Amount, stakes: Pot,
                         applied: seq<Tx>, rejected: seq<Tx>)

  predicate CanPay(l: Ledger, tx: Tx) {
    Fee(tx) <= Held(l.acc.balances, tx.sender)
  }

  function TakeFee(r: Round, tx: Tx): Round
    requires CanPay(r.ledger, tx)
  {
    var paid := SetBalance(r.ledger, tx.sender, Held(r.ledger.acc.balances, tx.sender) - Fee(tx));
    var stake := Held(r.ledger.acc.stakes, tx.sender);
    var fees := r.(ledger := paid, totalFee := Add64(r.totalFee, Fee(tx)));
    if stake < MINIMUM_STAKE then fees
    else fees.(stakes := r.stakes[tx.sender := Add64(Held(r.stakes, tx.sender), stake)],
               totalStake := Add64(r.totalStake, stake))
  }

  /** A transaction that fails keeps what it did up to there, and its fee is not returned. */
  function Finish(env: Env, r: Round, tx: Tx): Round {
    var a := ApplyTransaction(env, r.ledger, tx);
    if a.ok then r.(ledger := a.ledger, applied := r.applied + [tx])
    else r.(ledger := a.ledger, rejected := r.rejected + [tx])
  }

  function Step(env: Env, r: Round, tx: Tx): Round {
    if tx.sender == FAUCET then Finish(env, r, tx)
    else if !CanPay(r.ledger, tx) then r.(rejected := r.rejected + [tx])
    else Finish(env, TakeFee(r, tx), tx)
  }

  function Rounds(env: Env, r: Round, txs: seq<Tx>): Round {
    if txs == [] then r else Step(env, Rounds(env, r, txs[..|txs| - 1]), txs[|txs| - 1])
  }

  function Opening(l: Ledger): Round {
    Round(l, 0, 0, map[], [], [])
  }

  /** What each staker gets. */
  function SharePot(share: Sharing, r: Round): Pot {
    map id | id in r.stakes :: share(r.totalFee, r.stakes[id], r.totalStake)
  }

  function Rewarded(share: Sharing, rewards: Pot, r: Round): Pot {
    map id | id in rewards.Keys + r.stakes.Keys ::
      if id in r.stakes then Add64(Held(rewards, id), share(r.totalFee, r.stakes[id], r.totalStake)) else rewards[id]
  }

  function Distribute(share: Sharing, r: Round): Ledger {
    if r.totalStake == 0 then r.ledger
    else r.ledger.(acc := r.ledger.acc.(rewards := Rewarded(share, r.ledger.acc.rewards, r)))
  }

  /** Pays the requests that are due, in order, and keeps the others waiting. */
  function PayDue(l: Ledger, limit: nat, requests: seq<Request>): Ledger {
    if requests == [] then l.(pending := []) else
      var before := PayDue(l, limit, requests[..|requests| - 1]);
      var q := requests[|requests| - 1];
      if q.block > limit then before.(pending := before.pending + [q])
      else SetBalance(before, q.account, Add64(Held(before.acc.balances, q.account), q.amount))
  }

  function PayWithdrawals(l: Ledger, block: nat): Ledger {
    if block < WITHDRAWAL_DELAY then l else PayDue(l, block - WITHDRAWAL_DELAY, l.pending)
  }

  function Collapsed(env: Env, l: Ledger, txs: seq<Tx>): Ledger {
    PayWithdrawals(Distribute(env.share, Rounds(env, Opening(l), txs)), env.block)
  }

  // Every transaction is either applied or rejected.

  ghost function Decided(r: Round): multiset<Tx> {
    multiset(r.applied) + multiset(r.rejected)
  }

  lemma StepDecides(env: Env, r: Round, tx: Tx)
    ensures Decided(Step(env, r, tx)) == Decided(r) + multiset{tx}
  {
    hide ApplyTransaction;
    var after := Step(env, r, tx);
    assert
      || (after.applied == r.applied + [tx] && after.rejected == r.rejected)
      || (after.applied == r.applied && after.rejected == r.rejected + [tx]);
  }

  lemma {:induction false} EveryTransactionIsDecided(env: Env, r: Round, txs: seq<Tx>)
    ensures Decided(Rounds(env, r, txs)) == Decided(r) + multiset(txs)
  {
    hide Step, Decided;
    if txs != [] {
      var fewer, tx := txs[..|txs| - 1], txs[|txs| - 1];
      EveryTransactionIsDecided(env, r, fewer);
      StepDecides(env, Rounds(env, r, fewer), tx);
      assert txs == fewer + [tx];
    }
  }

  // The tally of a block.

  /** The stake that a transaction adds to the tally. */
  function CountedStake(r: Round, tx: Tx): Amount {
    var stake := Held(r.ledger.acc.stakes, tx.sender);
    if tx.sender != FAUCET && CanPay(r.ledger, tx) && stake >= MINIMUM_STAKE then stake else 0
  }

  /** All the stake counted in a block, without wrapping. */
  function Counted(env: Env, r: Round, txs: seq<Tx>): nat {
    if txs == [] then 0
    else
      var fewer := txs[..|txs| - 1];
      Counted(env, r, fewer) + CountedStake(Rounds(env, r, fewer), txs[|txs| - 1])
  }

  /** Fees taken are still accounted for, and the counted stakes add up to the total. */
  ghost predicate Tallied(start: Ledger, counted: nat, r: Round) {
    && start.issued <= r.ledger.issued
    && Wealth(r.ledger) + r.totalFee == Wealth(start) + r.ledger.issued - start.issued
    && Sum(r.stakes) == r.totalStake == counted
  }

  lemma StakeIsCounted(stakes: Pot, id: Id, stake: Amount)
    requires Sum(stakes) + stake < TWO64
    ensures
      var more := Add64(Held(stakes, id), stake);
      Sum(stakes[id := more]) == Sum(stakes) + stake == Add64(Sum(stakes), stake)
  {
    hide Sum;
    HeldIsPart(stakes, id);
    SumSet(stakes, id, Add64(Held(stakes, id), stake));
  }

  lemma TakeFeeTallied(start: Ledger, counted: nat, r: Round, tx: Tx)
    requires Tallied(start, counted, r) && CanPay(r.ledger, tx) && tx.sender != FAUCET
    requires NoWrap(start, r.ledger) && counted + CountedStake(r, tx) < TWO64
    ensures Tallied(start, counted + CountedStake(r, tx), TakeFee(r, tx))
  {
    hide Sum;
    var balance, stake := Held(r.ledger.acc.balances, tx.sender), Held(r.ledger.acc.stakes, tx.sender);
    SetBalanceWealth(r.ledger, tx.sender, balance - Fee(tx));
    HeldIsPart(r.ledger.acc.balances, tx.sender);
    if stake >= MINIMUM_STAKE {
      StakeIsCounted(r.stakes, tx.sender, stake);
    }
  }

  lemma FinishTallied(env: Env, start: Ledger, counted: nat, r: Round, tx: Tx)
    requires Tallied(start, counted, r)
    requires NoWrap(start, Finish(env, r, tx).ledger)
    ensures Tallied(start, counted, Finish(env, r, tx))
  {
    BodyIsLawful(env, r.ledger, Idle(tx.sender), tx.id, tx.sender, tx.body);
    AccountedExactly(r.ledger, Finish(env, r, tx).ledger);
  }

  lemma IssuedGrows(env: Env, r: Round, tx: Tx)
    ensures r.ledger.issued <= Step(env, r, tx).ledger.issued
  {
    BodyIsLawful(env, r.ledger, Idle(tx.sender), tx.id, tx.sender, tx.body);
    if CanPay(r.ledger, tx) {
      BodyIsLawful(env, TakeFee(r, tx).ledger, Idle(tx.sender), tx.id, tx.sender, tx.body);
    }
  }

  lemma StepTallied(env: Env, start: Ledger, counted: nat, r: Round, tx: Tx)
    requires Tallied(start, counted, r)
    requires NoWrap(start, Step(env, r, tx).ledger) && counted + CountedStake(r, tx) < TWO64
    ensures Tallied(start, counted + CountedStake(r, tx), Step(env, r, tx))
  {
    IssuedGrows(env, r, tx);
    if tx.sender == FAUCET {
      FinishTallied(env, start, counted, r, tx);
    } else if CanPay(r.ledger, tx) {
      TakeFeeTallied(start, counted, r, tx);
      FinishTallied(env, start, counted + CountedStake(r, tx), TakeFee(r, tx), tx);
    }
  }

  lemma {:induction false} RoundsTallied(env: Env, start: Ledger, txs: seq<Tx>)
    requires NoWrap(start, Rounds(env, Opening(start), txs).ledger) && Counted(env, Opening(start), txs) < TWO64
    ensures Tallied(start, Counted(env, Opening(start), txs), Rounds(env, Opening(start), txs))
  {
    if txs != [] {
      var fewer := txs[..|txs| - 1];
      var before := Rounds(env, Opening(start), fewer);
      IssuedGrows(env, before, txs[|txs| - 1]);
      RoundsTallied(env, start, fewer);
      StepTallied(env, start, Counted(env, Opening(start), fewer), before, txs[|txs| - 1]);
    }
  }

  /** Only senders whose stake reached the minimum share in the fees. */
  lemma {:induction false} StakersQualify(env: Env, start: Ledger, txs: seq<Tx>, id: Id)
    requires NoWrap(start, Rounds(env, Opening(start), txs).ledger) && Counted(env, Opening(start), txs) < TWO64
    requires id in Rounds(env, Opening(start), txs).stakes
    ensures Rounds(env, Opening(start), txs).stakes[id] >= MINIMUM_STAKE
    ensures exists i :: 0 <= i < |txs| && txs[i].sender == id && id != FAUCET
  {
    var before, tx := Rounds(env, Opening(start), txs[..|txs| - 1]), txs[|txs| - 1];
    IssuedGrows(env, before, tx);
    RoundsTallied(env, start, txs[..|txs| - 1]);
    StakeStep(env, before, tx, id);
    if id in before.stakes {
      StakersQualify(env, start, txs[..|txs| - 1], id);
      HeldIsPart(before.stakes, id);
      var i :| 0 <= i < |txs| - 1 && txs[..|txs| - 1][i].sender == id;
      assert txs[i].sender == id;
    }
  }

  /** How one transaction changes the counted stake of an account. */
  lemma StakeStep(env: Env, r: Round, tx: Tx, id: Id)
    ensures
      var counts := CountedStake(r, tx) > 0 && tx.sender == id;
      var after := Step(env, r, tx).stakes;
      && (id in after <==> id in r.stakes || counts)
      && Held(after, id) == if counts then Add64(Held(r.stakes, id), CountedStake(r, tx)) else Held(r.stakes, id)
  {
    hide ApplyTransaction;
  }

  // Rewards.

  /** The exact quotient, rounded down. */
  function ExactShare(fee: Amount, stake: Amount, total: Amount): Amount {
    if total == 0 then 0 else (fee * stake / total) % TWO64
  }

  ghost predicate Exactly(share: Sharing) {
    forall fee, stake, total :: share(fee, stake, total) == ExactShare(fee, stake, total)
  }

  /** q is fee * stake / total, rounded down. */
  predicate Quotient(fee: nat, total: nat, stake: nat, q: nat) {
    total * q <= fee * stake < total * q + total
  }

  lemma MulGap(t: nat, a: nat, b: nat)
    ensures a > b ==> t * a >= t * b + t
  {
    if a > b {
      assert t * a == t * (b + 1) + t * (a - b - 1);
    }
  }

  lemma QuotientAtMost(fee: nat, total: nat, stake: nat, q: nat)
    requires stake <= total && Quotient(fee, total, stake, q)
    ensures q <= fee
  {
    assert fee * stake <= fee * total;
    MulGap(total, q, fee);
  }

  lemma DivisionRounds(x: nat, total: nat)
    requires total > 0
    ensures total * (x / total) <= x < total * (x / total) + total
  {
  }

  lemma ShareIsQuotient(fee: Amount, stake: Amount, total: Amount)
    requires total > 0 && stake <= total
    ensures Quotient(fee, total, stake, ExactShare(fee, stake, total))
  {
    var q := fee * stake / total;
    assert Quotient(fee, total, stake, q) by {
      DivisionRounds(fee * stake, total);
    }
    assert q <= fee by {
      QuotientAtMost(fee, total, stake, q);
    }
    WrapsNot(q);
  }

  lemma WrapsNot(q: nat)
    requires q < TWO64
    ensures q % TWO64 == q
  {
  }

  /** n quotients that sum to shares, of stakes that sum to stakes. */
  predicate Rounded(fee: nat, total: nat, stakes: nat, shares: nat, n: nat) {
    total * shares <= fee * stakes <= total * (shares + n) - n
  }

  lemma NoneRounded(fee: nat, total: nat, stakes: nat, shares: nat, n: nat)
    requires stakes == shares == n == 0
    ensures Rounded(fee, total, stakes, shares, n)
  {
  }

  lemma OneMoreRounded(fee: nat, total: nat, s: nat, q: nat, stakes: nat, shares: nat, n: nat,
                       allStakes: nat, allShares: nat, all: nat)
    requires Quotient(fee, total, s, q) && Rounded(fee, total, stakes, shares, n)
    requires allStakes == s + stakes && allShares == q + shares && all == n + 1
    ensures Rounded(fee, total, allStakes, allShares, all)
  {
    assert fee * allStakes == fee * s + fee * stakes;
    assert total * allShares == total * q + total * shares;
    assert total * (allShares + all) == total * q + total + total * (shares + n);
  }

  ghost predicate AreQuotients(fee: nat, total: nat, stakes: Pot, shares: Pot) {
    shares.Keys == stakes.Keys && forall id :: id in stakes ==> Quotient(fee, total, stakes[id], shares[id])
  }

  lemma OneFewer(p: Pot, id: Id)
    requires id in p
    ensures (p - {id}).Keys == p.Keys - {id} && |(p - {id}).Keys| == |p.Keys| - 1
  {
  }

  lemma NoQuotients(fee: nat, total: nat, shares: Pot)
    requires AreQuotients(fee, total, map[], shares)
    ensures shares == map[]
  {
  }

  lemma QuotientAt(fee: nat, total: nat, stakes: Pot, shares: Pot, id: Id)
    requires AreQuotients(fee, total, stakes, shares) && id in stakes
    ensures id in shares && Quotient(fee, total, stakes[id], shares[id])
  {
  }

  lemma QuotientsWithout(fee: nat, total: nat, stakes: Pot, shares: Pot, id: Id)
    requires AreQuotients(fee, total, stakes, shares) && id in stakes
    ensures AreQuotients(fee, total, stakes - {id}, shares - {id})
  {
  }

  lemma {:induction false} SharesRoundDown(fee: nat, total: nat, stakes: Pot, shares: Pot)
    requires AreQuotients(fee, total, stakes, shares)
    ensures Rounded(fee, total, Sum(stakes), Sum(shares), |stakes.Keys|)
    decreases stakes.Keys
  {
    hide Sum, Rounded, AreQuotients, Quotient;
    if stakes == map[] {
      NoQuotients(fee, total, shares);
      EmptySum();
      NoneRounded(fee, total, Sum(stakes), Sum(shares), |stakes.Keys|);
    } else {
      var id :| id in stakes;
      var fewer, rest := stakes - {id}, shares - {id};
      OneFewer(stakes, id);
      QuotientsWithout(fee, total, stakes, shares, id);
      SharesRoundDown(fee, total, fewer, rest);
      QuotientAt(fee, total, stakes, shares, id);
      SumWithout(stakes, id);
      SumWithout(shares, id);
      OneMoreRounded(fee, total, stakes[id], shares[id], Sum(fewer), Sum(rest), |fewer.Keys|,
                     Sum(stakes), Sum(shares), |stakes.Keys|);
    }
  }

  lemma CancelTotal(total: nat, shares: nat, fee: nat, n: nat)
    requires total > 0 && n > 0 && Rounded(fee, total, total, shares, n)
    ensures shares <= fee < shares + n
  {
    MulGap(total, shares, fee);
    MulGap(total, fee + 1, shares + n);
    assert total * (fee + 1) == total * fee + total;
  }

  /** Shared out exactly, the fees are never exceeded, and rounding leaves less than one PERL a staker. */
  lemma SharesFit(share: Sharing, r: Round)
    requires Exactly(share) && r.totalStake > 0 && Sum(r.stakes) == r.totalStake
    ensures Sum(SharePot(share, r)) <= r.totalFee < Sum(SharePot(share, r)) + |r.stakes.Keys|
  {
    var shares := SharePot(share, r);
    forall id | id in r.stakes
      ensures Quotient(r.totalFee, r.totalStake, r.stakes[id], shares[id])
    {
      HeldIsPart(r.stakes, id);
      ShareIsQuotient(r.totalFee, r.stakes[id], r.totalStake);
    }
    SharesRoundDown(r.totalFee, r.totalStake, r.stakes, shares);
    assert r.stakes != map[];
    CancelTotal(r.totalStake, Sum(shares), r.totalFee, |r.stakes.Keys|);
  }

  /** Rewarding the stakers one at a time, in whatever order the map yields them. */
  function RewardInOrder(share: Sharing, rewards: Pot, r: Round, order: seq<Id>): Pot
    requires forall i :: 0 <= i < |order| ==> order[i] in r.stakes
  {
    if order == [] then rewards else
      var before := RewardInOrder(share, rewards, r, order[..|order| - 1]);
      var id := order[|order| - 1];
      before[id := Add64(Held(before, id), share(r.totalFee, r.stakes[id], r.totalStake))]
  }

  predicate Once(order: seq<Id>) {
    forall i, j :: 0 <= i < j < |order| ==> order[i] != order[j]
  }

  lemma {:induction false} RewardAt(share: Sharing, rewards: Pot, r: Round, order: seq<Id>, id: Id)
    requires Once(order) && forall i :: 0 <= i < |order| ==> order[i] in r.stakes
    ensures
      var after := RewardInOrder(share, rewards, r, order);
      && (id in after <==> id in rewards || id in order)
      && (id in order ==> id in SharePot(share, r) && id in after)
      && (id in order ==> after[id] == Add64(Held(rewards, id), SharePot(share, r)[id]))
      && (id !in order && id in rewards ==> id in after && after[id] == rewards[id])
  {
    if order != [] {
      var before := order[..|order| - 1];
      assert order == before + [order[|order| - 1]];
      RewardAt(share, rewards, r, before, id);
      if id in before {
        var i :| 0 <= i < |before| && before[i] == id;
        assert order[i] == id;
      }
    }
  }

  /** The outcome does not depend on the order. */
  lemma {:induction false} OrderDoesNotMatter(share: Sharing, rewards: Pot, r: Round, order: seq<Id>)
    requires Once(order) && forall i :: 0 <= i < |order| ==> order[i] in r.stakes
    requires forall id :: id in r.stakes ==> id in order
    ensures RewardInOrder(share, rewards, r, order) == Rewarded(share, rewards, r)
  {
    var after := RewardInOrder(share, rewards, r, order);
    forall id
      ensures id in after <==> id in Rewarded(share, rewards, r)
      ensures id in after ==> after[id] == Rewarded(share, rewards, r)[id]
    {
      RewardAt(share, rewards, r, order, id);
    }
  }

  predicate Adds(rewards: Pot, shares: Pot, after: Pot) {
    && after.Keys == rewards.Keys + shares.Keys
    && forall id :: id in after ==> after[id] == Add64(Held(rewards, id), Held(shares, id))
  }

  lemma AddsOne(rewards: Pot, shares: Pot, after: Pot, id: Id)
    requires Adds(rewards, shares, after) && id in shares
    ensures Adds(rewards[id := Add64(Held(rewards, id), shares[id])], shares - {id}, after)
  {
    var paid, rest := rewards[id := Add64(Held(rewards, id), shares[id])], shares - {id};
    assert after.Keys == paid.Keys + rest.Keys;
    forall k | k in after
      ensures after[k] == Add64(Held(paid, k), Held(rest, k))
    {
    }
  }

  lemma AddsNothing(rewards: Pot, after: Pot)
    requires Adds(rewards, map[], after)
    ensures after == rewards
  {
  }

  lemma RewardedAdds(share: Sharing, rewards: Pot, r: Round)
    ensures Adds(rewards, SharePot(share, r), Rewarded(share, rewards, r))
  {
    assert SharePot(share, r).Keys == r.stakes.Keys;
  }

  lemma ShareMoves(rewards: Pot, shares: Pot, id: Id)
    requires id in shares && Sum(rewards) + Sum(shares) < TWO64
    ensures Sum(rewards[id := Add64(Held(rewards, id), shares[id])]) + Sum(shares - {id}) == Sum(rewards) + Sum(shares)
  {
    hide Sum;
    SumWithout(shares, id);
    HeldIsPart(rewards, id);
    SumSet(rewards, id, Add64(Held(rewards, id), shares[id]));
  }

  /** A pot with every staker's share added. */
  lemma {:induction false} SharesAdd(rewards: Pot, shares: Pot, after: Pot)
    requires Adds(rewards, shares, after) && Sum(rewards) + Sum(shares) < TWO64
    ensures Sum(after) == Sum(rewards) + Sum(shares)
    decreases shares.Keys
  {
    hide Adds, Sum;
    if shares == map[] {
      AddsNothing(rewards, after);
      EmptySum();
    } else {
      var id :| id in shares;
      AddsOne(rewards, shares, after, id);
      OneFewer(shares, id);
      ShareMoves(rewards, shares, id);
      SharesAdd(rewards[id := Add64(Held(rewards, id), shares[id])], shares - {id}, after);
    }
  }

  /** What is handed out: nothing when no stake was counted. */
  ghost function HandedOut(share: Sharing, r: Round): nat {
    if r.totalStake == 0 then 0 else Sum(SharePot(share, r))
  }

  /** However the shares are computed, in floating point for one, distribution adds exactly their sum. */
  lemma DistributeAdds(share: Sharing, r: Round)
    requires Wealth(r.ledger) + HandedOut(share, r) < TWO64
    ensures Wealth(Distribute(share, r)) == Wealth(r.ledger) + HandedOut(share, r)
  {
    if r.totalStake > 0 {
      RewardedAdds(share, r.ledger.acc.rewards, r);
      SharesAdd(r.ledger.acc.rewards, SharePot(share, r), Rewarded(share, r.ledger.acc.rewards, r));
    }
  }

  /** Shared out exactly, all the fees go but the dust of rounding, and with no stake counted, none of them. */
  lemma DistributeConserves(share: Sharing, start: Ledger, counted: nat, r: Round)
    requires Exactly(share) && Tallied(start, counted, r) && NoWrap(start, r.ledger)
    ensures
      var dust := Wealth(r.ledger) + r.totalFee - Wealth(Distribute(share, r));
      if r.totalStake == 0 then dust == r.totalFee else 0 <= dust < |r.stakes.Keys|
  {
    if r.totalStake > 0 {
      SharesFit(share, r);
    }
    DistributeAdds(share, r);
  }

  // Withdrawals.

  function Waiting(requests: seq<Request>, limit: nat): seq<Request> {
    if requests == [] then [] else
      var q := requests[|requests| - 1];
      Waiting(requests[..|requests| - 1], limit) + if q.block > limit then [q] else []
  }

  function DueTo(requests: seq<Request>, limit: nat, id: Id): nat {
    if requests == [] then 0 else
      var q := requests[|requests| - 1];
      DueTo(requests[..|requests| - 1], limit, id) + if q.block <= limit && q.account == id then q.amount else 0
  }

  /** Exactly the requests that are old enough are paid, to those who made them, and the others keep their order. */
  lemma {:induction false} DueIsPaid(l: Ledger, limit: nat, requests: seq<Request>, id: Id)
    ensures
      var after := PayDue(l, limit, requests);
      && after.pending == Waiting(requests, limit)
      && (Held(l.acc.balances, id) + DueTo(requests, limit, id) < TWO64 ==>
            Held(after.acc.balances, id) == Held(l.acc.balances, id) + DueTo(requests, limit, id))
  {
    if requests != [] {
      DueIsPaid(l, limit, requests[..|requests| - 1], id);
    }
  }

  lemma {:induction false} PayDueAccounted(l: Ledger, limit: nat, requests: seq<Request>)
    ensures
      var after := PayDue(l, limit, requests);
      var owing := l.(pending := requests);
      && Accounted(owing, after)
      && after.issued == l.issued
      && after == after.(acc := l.acc.(balances := after.acc.balances), burned := l.burned)
  {
    hide Sum, Owed, Wealth;
    if requests == [] {
      assert PayDue(l, limit, requests) == l.(pending := requests);
    } else {
      var fewer := requests[..|requests| - 1];
      var q := requests[|requests| - 1];
      var before := PayDue(l, limit, fewer);
      PayDueAccounted(l, limit, fewer);
      assert requests == fewer + [q];
      RequestIsOwed(l.(pending := fewer), q);
      if q.block > limit {
        RequestIsOwed(before, q);
      } else {
        PaidIsAccounted(before, q);
      }
    }
  }

  lemma PaidIsAccounted(l: Ledger, q: Request)
    ensures
      var after := SetBalance(l, q.account, Add64(Held(l.acc.balances, q.account), q.amount));
      Wealth(after) == Wealth(l) + q.amount || Wealth(after) == Wealth(l) + q.amount - TWO64
  {
    SetBalanceWealth(l, q.account, Add64(Held(l.acc.balances, q.account), q.amount));
  }

  lemma WithdrawalsConserve(l: Ledger, block: nat)
    requires Wealth(l) < TWO64
    ensures Wealth(PayWithdrawals(l, block)) == Wealth(l)
    ensures PayWithdrawals(l, block).issued == l.issued
  {
    if block >= WITHDRAWAL_DELAY {
      PayDueAccounted(l, block - WITHDRAWAL_DELAY, l.pending);
      AccountedExactly(l, PayWithdrawals(l, block));
    }
  }

  lemma {:induction false} YoungWait(l: Ledger, limit: nat, requests: seq<Request>)
    requires forall i :: 0 <= i < |requests| ==> requests[i].block > limit
    ensures PayDue(l, limit, requests) == l.(pending := requests)
  {
    if requests != [] {
      var fewer := requests[..|requests| - 1];
      YoungWait(l, limit, fewer);
      assert requests == fewer + [requests[|requests| - 1]];
    }
  }

  predicate AllFrom(block: nat, requests: seq<Request>) {
    forall i :: 0 <= i < |requests| ==> requests[i].block == block
  }

  lemma YoungStay(block: nat, l: Ledger, after: Ledger)
    requires AddsRequests(block, l, after) && AllFrom(block, l.pending)
    ensures AllFrom(block, after.pending)
  {
    forall i | 0 <= i < |after.pending|
      ensures after.pending[i].block == block
    {
      if i < |l.pending| {
        assert after.pending[i] == after.pending[..|l.pending|][i];
      }
    }
  }

  lemma FinishIsYoung(env: Env, r: Round, tx: Tx)
    requires AllFrom(env.block, r.ledger.pending)
    ensures AllFrom(env.block, Finish(env, r, tx).ledger.pending)
  {
    BodyIsLawful(env, r.ledger, Idle(tx.sender), tx.id, tx.sender, tx.body);
    YoungStay(env.block, r.ledger, ApplyTransaction(env, r.ledger, tx).ledger);
  }

  lemma {:induction false} RequestsAreYoung(env: Env, l: Ledger, txs: seq<Tx>)
    requires l.pending == []
    ensures AllFrom(env.block, Rounds(env, Opening(l), txs).ledger.pending)
  {
    if txs != [] {
      var tx := txs[|txs| - 1];
      var before := Rounds(env, Opening(l), txs[..|txs| - 1]);
      RequestsAreYoung(env, l, txs[..|txs| - 1]);
      FinishIsYoung(env, before, tx);
      if CanPay(before.ledger, tx) {
        FinishIsYoung(env, TakeFee(before, tx), tx);
      }
    }
  }

  /**
    * A block starts with no requests and pays only old ones, so it pays none: what it leaves is what
    * the distribution left, with every request of the block still waiting.
    */
  lemma {:induction false} NoWithdrawalIsPaid(env: Env, l: Ledger, txs: seq<Tx>)
    requires l.pending == []
    ensures Collapsed(env, l, txs) == Distribute(env.share, Rounds(env, Opening(l), txs))
  {
    RequestsAreYoung(env, l, txs);
    var left := Distribute(env.share, Rounds(env, Opening(l), txs));
    assert AllFrom(env.block, left.pending);
    if env.block >= WITHDRAWAL_DELAY {
      YoungWait(left, env.block - WITHDRAWAL_DELAY, left.pending);
    }
  }

  /**
    * The whole block, however shares are computed: what the accounts hold, plus gas, plus what waits to be paid, is
    * what was there before plus what the faucet issued, less the fees, plus what was handed out of them. So nothing
    * but the faucet creates value if and only if no more than the fees is handed out.
    */
  lemma {:induction false} BlockAccounts(env: Env, l: Ledger, txs: seq<Tx>)
    requires NoWrap(l, Rounds(env, Opening(l), txs).ledger) && Counted(env, Opening(l), txs) < TWO64
    requires
      var r := Rounds(env, Opening(l), txs);
      Wealth(r.ledger) + HandedOut(env.share, r) < TWO64
    ensures
      var r := Rounds(env, Opening(l), txs);
      var after := Collapsed(env, l, txs);
      && after.issued >= l.issued
      && Wealth(after) + r.totalFee == Wealth(l) + after.issued - l.issued + HandedOut(env.share, r)
      && (Wealth(after) <= Wealth(l) + after.issued - l.issued <==> HandedOut(env.share, r) <= r.totalFee)
  {
    var r := Rounds(env, Opening(l), txs);
    RoundsTallied(env, l, txs);
    DistributeAdds(env.share, r);
    WithdrawalsConserve(Distribute(env.share, r), env.block);
  }

  /** With exact division no value is created, and less than one PERL a staker is lost, or all fees without stakers. */
  lemma {:induction false} BlockConserves(env: Env, l: Ledger, txs: seq<Tx>)
    requires NoWrap(l, Rounds(env, Opening(l), txs).ledger) && Counted(env, Opening(l), txs) < TWO64
    requires Exactly(env.share)
    ensures
      var r := Rounds(env, Opening(l), txs);
      var after := Collapsed(env, l, txs);
      var dust := Wealth(l) + after.issued - l.issued - Wealth(after);
      && after.issued >= l.issued
      && if r.totalStake == 0 then dust == r.totalFee else 0 <= dust < |r.stakes.Keys|
  {
    var r := Rounds(env, Opening(l), txs);
    RoundsTallied(env, l, txs);
    if r.totalStake > 0 {
      SharesFit(env.share, r);
    }
    BlockAccounts(env, l, txs);
  }
}
