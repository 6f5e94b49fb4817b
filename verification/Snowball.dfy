/** The Snowball sampler (snowball.go). Tallies are taken over the reals and are otherwise arbitrary. */
module Snowball {
  import opened SortedSeq

  /** A vote for an ID; None is the zero ID of an empty vote. */
  datatype Vote<I> = Vote(id: Option<I>, tally: real)

  datatype Params = Params(alpha: real, beta: int)

  datatype State<I> = State(
    count: nat, counts: map<I, nat>, preferred: Option<Vote<I>>, last: Option<Vote<I>>, decided: bool, stalled: nat)

  /** Counters are 16 bits wide. */
  const COUNTER: nat := 65536

  function Initial<I>(): State<I> {
    State(0, map[], None, None, false, 0)
  }

  /** The vote with the highest tally among those with an ID, the first one on a tie. */
  function Majority<I>(votes: seq<Vote<I>>): Option<Vote<I>> {
    if votes == [] then None
    else
      var best := Majority(votes[..|votes| - 1]);
      var v := votes[|votes| - 1];
      if v.id.Some? && (best.None? || v.tally > best.value.tally) then Some(v) else best
  }

  function Threshold(p: Params, n: nat): real {
    p.alpha * 2.0 / (if n < 2 then 2 else n) as real
  }

  /** The majority, if it reaches the threshold. */
  function Quorum<I>(p: Params, votes: seq<Vote<I>>): Option<Vote<I>> {
    var m := Majority(votes);
    if m.None? || m.value.tally < Threshold(p, |votes|) then None else m
  }

  function CountOf<I(==)>(counts: map<I, nat>, id: I): nat {
    if id in counts then counts[id] else 0
  }

  /** A round without a quorum. */
  function Missed<I>(p: Params, s: State<I>, votes: seq<Vote<I>>): State<I> {
    if Majority(votes).Some? && s.preferred.Some? then
      if s.stalled + 1 > p.beta * 10 then s.(count := 0, preferred := None, stalled := 0)
      else s.(count := 0, stalled := s.stalled + 1)
    else s.(count := 0)
  }

  /** A round with a quorum for m. */
  function Won<I(==)>(p: Params, s: State<I>, m: Vote<I>): State<I>
    requires m.id.Some?
    requires s.preferred.Some? ==> s.preferred.value.id.Some?
    requires s.last.Some? ==> s.last.value.id.Some?
  {
    var id := m.id.value;
    var counts := s.counts[id := (CountOf(s.counts, id) + 1) % COUNTER];
    var preferred :=
      if s.preferred.None? || CountOf(counts, id) > CountOf(counts, s.preferred.value.id.value) then Some(m)
      else s.preferred;
    if s.last.None? || s.last.value.id != m.id then
      State(1, counts, preferred, Some(m), s.decided, 0)
    else
      State(s.count + 1, counts, preferred, s.last, s.decided || s.count + 1 > p.beta, 0)
  }

  /** The votes the sampler keeps have an ID. */
  predicate Named<I>(s: State<I>) {
    (s.preferred.Some? ==> s.preferred.value.id.Some?) && (s.last.Some? ==> s.last.value.id.Some?)
  }

  lemma {:induction false} MajorityIsBest<I>(votes: seq<Vote<I>>)
    ensures Majority(votes).None? <==> forall i :: 0 <= i < |votes| ==> votes[i].id.None?
    ensures Majority(votes).Some? ==>
      exists k :: 0 <= k < |votes| && Majority(votes) == Some(votes[k]) && votes[k].id.Some?
        && (forall i :: 0 <= i < |votes| && votes[i].id.Some? ==> votes[i].tally <= votes[k].tally)
        && (forall i :: 0 <= i < k && votes[i].id.Some? ==> votes[i].tally < votes[k].tally)
  {
    if votes != [] {
      var n := |votes| - 1;
      MajorityIsBest(votes[..n]);
      var best := Majority(votes[..n]);
      if votes[n].id.Some? && (best.None? || votes[n].tally > best.value.tally) {
        assert Majority(votes) == Some(votes[n]);
      } else if best.Some? {
        var k :| 0 <= k < n && best == Some(votes[..n][k]) && votes[..n][k].id.Some?
          && (forall i :: 0 <= i < n && votes[..n][i].id.Some? ==> votes[..n][i].tally <= votes[..n][k].tally)
          && (forall i :: 0 <= i < k && votes[..n][i].id.Some? ==> votes[..n][i].tally < votes[..n][k].tally);
        assert Majority(votes) == Some(votes[k]);
      }
    }
  }

  function Tick<I(==)>(p: Params, s: State<I>, votes: seq<Vote<I>>): (r: State<I>)
    requires Named(s)
    ensures Named(r)
  {
    MajorityIsBest(votes);
    if s.decided then s
    else
      var q := Quorum(p, votes);
      if q.None? then Missed(p, s, votes) else Won(p, s, q.value)
  }

  /** What happens to a sampler between two resets. */
  datatype Event<I> = Ticked(votes: seq<Vote<I>>) | Preferred(vote: Vote<I>)

  predicate Proper<I>(events: seq<Event<I>>) {
    forall i :: 0 <= i < |events| && events[i].Preferred? ==> events[i].vote.id.Some?
  }

  function Step<I(==)>(p: Params, s: State<I>, e: Event<I>): (r: State<I>)
    requires Named(s) && (e.Preferred? ==> e.vote.id.Some?)
    ensures Named(r)
  {
    match e
    case Ticked(votes) => Tick(p, s, votes)
    case Preferred(vote) => s.(preferred := Some(vote))
  }

  function Run<I(==)>(p: Params, events: seq<Event<I>>): (r: State<I>)
    requires Proper(events)
    ensures Named(r)
  {
    if events == [] then Initial() else Step(p, Run(p, events[..|events| - 1]), events[|events| - 1])
  }

  /** The ID that wins a tick, if any. */
  function Outcome<I>(p: Params, votes: seq<Vote<I>>): Option<I> {
    var m := Quorum(p, votes);
    if m.None? then None else m.value.id
  }

  /** The ID that won each tick, if any. */
  function Outcomes<I>(p: Params, events: seq<Event<I>>): seq<Option<I>> {
    if events == [] then []
    else
      var before := Outcomes(p, events[..|events| - 1]);
      match events[|events| - 1]
      case Ticked(votes) => before + [Outcome(p, votes)]
      case Preferred(_) => before
  }

  /** k consecutive ticks, ending before position end, were won by one ID. */
  ghost predicate StreakAt<I>(q: seq<Option<I>>, end: nat, k: nat, id: I) {
    k <= end <= |q| && forall j :: end - k <= j < end ==> q[j] == Some(id)
  }

  ghost predicate HasStreak<I(!new)>(q: seq<Option<I>>, k: nat) {
    exists end: nat, id :: StreakAt(q, end, k, id)
  }

  /** count is the length of the streak of the last winner that ends the history. */
  ghost predicate Trail<I>(s: State<I>, q: seq<Option<I>>) {
    if s.last.None? then s.count == 0 && forall j :: 0 <= j < |q| ==> q[j] == None
    else
      && s.last.value.id.Some?
      && StreakAt(q, |q|, s.count, s.last.value.id.value)
      && (s.count < |q| ==> q[|q| - 1 - s.count] != s.last.value.id)
      && (s.count == 0 && q != [] ==> q[|q| - 1] == None)
  }

  lemma StreakGrows<I(!new)>(q: seq<Option<I>>, o: Option<I>, k: nat)
    requires HasStreak(q, k)
    ensures HasStreak(q + [o], k)
  {
    var end: nat, id :| StreakAt(q, end, k, id);
    assert StreakAt(q + [o], end, k, id);
  }

  /** A streak that a new outcome completes ends with it. */
  lemma NewStreakEnds<I(!new)>(q: seq<Option<I>>, o: Option<I>, k: nat)
    requires k > 0 && !HasStreak(q, k) && HasStreak(q + [o], k)
    ensures o.Some? && StreakAt(q + [o], |q| + 1, k, o.value)
  {
    var end: nat, id :| StreakAt(q + [o], end, k, id);
    if end <= |q| {
      assert forall j :: end - k <= j < end ==> q[j] == (q + [o])[j];
      assert StreakAt(q, end, k, id);
    } else {
      assert (q + [o])[|q|] == Some(id);
    }
  }

  /** One tick of an undecided sampler, against the outcomes so far. */
  lemma TickTrail<I(!new)>(p: Params, s: State<I>, votes: seq<Vote<I>>, q: seq<Option<I>>)
    requires p.beta >= 1 && Named(s) && !s.decided
    requires Trail(s, q) && !HasStreak(q, p.beta + 1) && s.count <= p.beta
    ensures var s' := Tick(p, s, votes); var q' := q + [Outcome(p, votes)];
      && (s'.decided <==> HasStreak(q', p.beta + 1))
      && (!s'.decided ==> Trail(s', q') && s'.count <= p.beta)
  {
    MajorityIsBest(votes);
    var o := Outcome(p, votes);
    var q' := q + [o];
    if HasStreak(q', p.beta + 1) {
      NewStreakEnds(q, o, p.beta + 1);
    }
    if o.Some? {
      if s.last.Some? && s.last.value.id == o {
        assert StreakAt(q', |q'|, s.count + 1, o.value);
        if s.count < |q| && s.count < p.beta {
          assert q'[|q'| - 1 - (s.count + 1)] == q[|q| - 1 - s.count];
        }
      } else {
        assert q != [] ==> q[|q| - 1] != o;
        assert StreakAt(q', |q'|, 1, o.value);
        assert q != [] ==> q'[|q| - 1] == q[|q| - 1];
      }
    }
  }

  /**
   * Since the last reset, whatever was preferred in between: the sampler has decided if and only if some beta + 1
   * consecutive ticks had a quorum for one ID.
   */
  lemma {:induction false} DecidedIffStreak<I(!new)>(p: Params, events: seq<Event<I>>)
    requires p.beta >= 1 && Proper(events)
    ensures Run(p, events).decided <==> HasStreak(Outcomes(p, events), p.beta + 1)
    ensures !Run(p, events).decided ==> Trail(Run(p, events), Outcomes(p, events)) && Run(p, events).count <= p.beta
    decreases |events|
  {
    if events == [] {
      assert Outcomes(p, events) == [];
    } else {
      var n := |events| - 1;
      DecidedIffStreak(p, events[..n]);
      var s, q := Run(p, events[..n]), Outcomes(p, events[..n]);
      match events[n]
      case Preferred(_) =>
      case Ticked(votes) =>
        if s.decided {
          StreakGrows(q, Outcome(p, votes), p.beta + 1);
        } else {
          TickTrail(p, s, votes, q);
        }
    }
  }

  /** With beta at 0 a single win does not decide a fresh sampler: the first win of a streak is never checked. */
  lemma {:induction false} BetaZeroFails<I(!new)>(p: Params, id: I)
    requires p.beta == 0
    ensures var events := [Ticked([Vote(Some(id), Threshold(p, 1))])];
      !Run(p, events).decided && HasStreak(Outcomes(p, events), p.beta + 1)
  {
    var votes := [Vote(Some(id), Threshold(p, 1))];
    var events := [Ticked(votes)];
    assert votes[..0] == [] && events[..0] == [];
    assert Majority(votes) == Some(votes[0]);
    assert Outcomes(p, events) == Outcomes(p, events[..0]) + [Outcome(p, votes)];
    assert Outcomes(p, events) == [Some(id)];
    assert StreakAt(Outcomes(p, events), 1, 1, id);
  }

  /** The ID of the latest tick that was won. */
  function LastWin<I>(q: seq<Option<I>>): Option<I> {
    if q == [] then None else if q[|q| - 1].Some? then q[|q| - 1] else LastWin(q[..|q| - 1])
  }

  /** Two wins in a row, whatever was missed between them, went to one ID. */
  predicate Repeats<I(==)>(q: seq<Option<I>>) {
    q != [] && (Repeats(q[..|q| - 1]) || (q[|q| - 1].Some? && LastWin(q[..|q| - 1]) == q[|q| - 1]))
  }

  /** With beta at 0 it is the second win in a row that decides, and missed ticks between the two do not matter. */
  lemma {:induction false} DecidedAtZero<I(!new)>(p: Params, events: seq<Event<I>>)
    requires p.beta == 0 && Proper(events)
    ensures Run(p, events).decided <==> Repeats(Outcomes(p, events))
    ensures !Run(p, events).decided ==>
      LastWin(Outcomes(p, events)) == (if Run(p, events).last.None? then None else Run(p, events).last.value.id)
    decreases |events|
  {
    if events != [] {
      var n := |events| - 1;
      DecidedAtZero(p, events[..n]);
      var q := Outcomes(p, events[..n]);
      match events[n]
      case Preferred(_) =>
      case Ticked(votes) =>
        MajorityIsBest(votes);
        var o := Outcome(p, votes);
        assert (q + [o])[..|q|] == q && (q + [o])[|q|] == o;
    }
  }

  /** How often an ID won. */
  function Wins<I(==)>(q: seq<Option<I>>, id: I): nat {
    if q == [] then 0 else Wins(q[..|q| - 1], id) + (if q[|q| - 1] == Some(id) then 1 else 0)
  }

  function Quorums<I>(q: seq<Option<I>>): nat {
    if q == [] then 0 else Quorums(q[..|q| - 1]) + (if q[|q| - 1].Some? then 1 else 0)
  }

  lemma {:induction false} WinsAtMostQuorums<I>(q: seq<Option<I>>, id: I)
    ensures Wins(q, id) <= Quorums(q)
  {
    if q != [] { WinsAtMostQuorums(q[..|q| - 1], id); }
  }

  lemma {:induction false} StreakWins<I>(q: seq<Option<I>>, k: nat, id: I)
    requires StreakAt(q, |q|, k, id)
    ensures Wins(q, id) >= k
  {
    if k > 0 {
      assert StreakAt(q[..|q| - 1], |q| - 1, k - 1, id);
      StreakWins(q[..|q| - 1], k - 1, id);
    }
  }

  /** While undecided and below the counter's width, the counters are exact. */
  ghost predicate CountsExact<I(!new)>(s: State<I>, q: seq<Option<I>>) {
    forall id :: CountOf(s.counts, id) == Wins(q, id)
  }

  lemma {:induction false} TickCounts<I(!new)>(p: Params, s: State<I>, votes: seq<Vote<I>>, q: seq<Option<I>>)
    requires Named(s) && !s.decided && CountsExact(s, q)
    requires Quorums(q + [Outcome(p, votes)]) < COUNTER
    ensures CountsExact(Tick(p, s, votes), q + [Outcome(p, votes)])
  {
    MajorityIsBest(votes);
    var o := Outcome(p, votes);
    var q' := q + [o];
    assert q'[..|q'| - 1] == q;
    if o.Some? {
      WinsAtMostQuorums(q', o.value);
    }
  }

  lemma {:induction false} CountsAreWins<I(!new)>(p: Params, events: seq<Event<I>>)
    requires Proper(events) && !Run(p, events).decided && Quorums(Outcomes(p, events)) < COUNTER
    ensures CountsExact(Run(p, events), Outcomes(p, events))
    decreases |events|
  {
    if events != [] {
      var n := |events| - 1;
      var q, q' := Outcomes(p, events[..n]), Outcomes(p, events);
      assert q' == q || q'[..|q'| - 1] == q;
      CountsAreWins(p, events[..n]);
      if events[n].Ticked? {
        TickCounts(p, Run(p, events[..n]), events[n].votes, q);
      }
    }
  }

  /** After the tick that decides, the preferred vote has won no less often than the winner of that tick. */
  lemma TickPrefers<I>(p: Params, s: State<I>, votes: seq<Vote<I>>)
    requires Named(s) && !s.decided && Tick(p, s, votes).decided
    ensures var s' := Tick(p, s, votes);
      && Outcome(p, votes).Some? && s'.preferred.Some? && s'.preferred.value.id.Some?
      && CountOf(s'.counts, s'.preferred.value.id.value) >= CountOf(s'.counts, Outcome(p, votes).value)
  {
    MajorityIsBest(votes);
  }

  /**
   * At the tick that decides, with fewer than 65,536 quorum ticks since the reset, the preferred vote has itself won
   * at least beta + 1 ticks, although it need not be the one with the streak.
   */
  lemma {:induction false} PreferredHasWon<I(!new)>(p: Params, events: seq<Event<I>>, votes: seq<Vote<I>>)
    requires p.beta >= 1 && Proper(events) && !Run(p, events).decided
    requires Tick(p, Run(p, events), votes).decided
    requires Quorums(Outcomes(p, events) + [Outcome(p, votes)]) < COUNTER
    ensures var s := Tick(p, Run(p, events), votes);
      && s.preferred.Some? && s.preferred.value.id.Some?
      && Wins(Outcomes(p, events) + [Outcome(p, votes)], s.preferred.value.id.value) >= p.beta + 1
  {
    hide Run, Outcomes, Trail, Tick, Outcome, Wins, StreakAt;
    var s, q, o := Run(p, events), Outcomes(p, events), Outcome(p, votes);
    var q' := q + [o];
    assert q'[..|q'| - 1] == q;
    CountsAreWins(p, events);
    TickCounts(p, s, votes, q);
    DecidedIffStreak(p, events);
    TickTrail(p, s, votes, q);
    NewStreakEnds(q, o, p.beta + 1);
    StreakWins(q', p.beta + 1, o.value);
    TickPrefers(p, s, votes);
    var s' := Tick(p, s, votes);
    assert CountOf(s'.counts, o.value) == Wins(q', o.value);
    assert CountOf(s'.counts, s'.preferred.value.id.value) == Wins(q', s'.preferred.value.id.value);
  }

  function TickAll<I(==)>(p: Params, s: State<I>, ticks: seq<seq<Vote<I>>>): (r: State<I>)
    requires Named(s)
    ensures Named(r)
  {
    if ticks == [] then s else Tick(p, TickAll(p, s, ticks[..|ticks| - 1]), ticks[|ticks| - 1])
  }

  /** How many of these ticks had a majority at all. */
  function Stalls<I>(ticks: seq<seq<Vote<I>>>): nat {
    if ticks == [] then 0
    else Stalls(ticks[..|ticks| - 1]) + if Majority(ticks[|ticks| - 1]).Some? then 1 else 0
  }

  /**
   * Any ticks without a quorum, in any order: the preferred vote is given up if and only if the stalls, which are the
   * ticks with a majority, exceed ten times beta, and no win is counted or forgotten meanwhile.
   */
  lemma {:induction false} StallsGiveUp<I>(p: Params, s: State<I>, ticks: seq<seq<Vote<I>>>)
    requires Named(s) && !s.decided && s.preferred.Some? && s.stalled <= p.beta * 10
    requires forall i :: 0 <= i < |ticks| ==> Quorum(p, ticks[i]).None?
    ensures
      var after := TickAll(p, s, ticks);
      && (after.preferred.None? <==> s.stalled + Stalls(ticks) > p.beta * 10)
      && (after.preferred.Some? ==> after.preferred == s.preferred && after.stalled == s.stalled + Stalls(ticks))
      && (after.preferred.None? ==> after.stalled == 0)
      && !after.decided && after.counts == s.counts && after.last == s.last && (ticks != [] ==> after.count == 0)
    decreases |ticks|
  {
    if ticks != [] {
      StallsGiveUp(p, s, ticks[..|ticks| - 1]);
    }
  }

  class Sampler<I(==)> {
    const params: Params
    var state: State<I>

    ghost predicate Valid()
      reads this
    {
      Named(state)
    }

    constructor (params: Params)
      ensures Valid() && this.params == params && state == Initial()
    {
      this.params := params;
      state := Initial();
    }

    method Reset()
      modifies this
      ensures Valid() && state == Initial()
    {
      state := Initial();
    }

    method Prefer(vote: Vote<I>)
      requires Valid() && vote.id.Some?
      modifies this
      ensures Valid() && state == Step(params, old(state), Preferred(vote))
    {
      state := state.(preferred := Some(vote));
    }

    method FindMajority(votes: seq<Vote<I>>) returns (majority: Option<Vote<I>>)
      ensures majority == Majority(votes)
    {
      majority := None;
      for i := 0 to |votes|
        invariant majority == Majority(votes[..i])
      {
        assert votes[..i + 1][..i] == votes[..i];
        if votes[i].id.None? {
          continue;
        }
        if majority.None? || votes[i].tally > majority.value.tally {
          majority := Some(votes[i]);
        }
      }
      assert votes[..|votes|] == votes;
    }

    /** Ticks after the decision change nothing. */
    method TickVotes(votes: seq<Vote<I>>)
      requires Valid()
      modifies this
      ensures Valid() && state == Tick(params, old(state), votes)
      ensures old(state.decided) ==> state == old(state)
    {
      if state.decided {
        return;
      }
      var majority := FindMajority(votes);
      MajorityIsBest(votes);
      if majority.None? || majority.value.tally < Threshold(params, |votes|) {
        if majority.Some? && state.preferred.Some? {
          state := state.(stalled := state.stalled + 1);
          if state.stalled > params.beta * 10 {
            state := state.(preferred := None, stalled := 0);
          }
        }
        state := state.(count := 0);
        return;
      }
      var m := majority.value;
      var id := m.id.value;
      state := state.(counts := state.counts[id := (CountOf(state.counts, id) + 1) % COUNTER], stalled := 0);
      if state.preferred.None? || CountOf(state.counts, id) > CountOf(state.counts, state.preferred.value.id.value) {
        state := state.(preferred := Some(m));
      }
      if state.last.None? || m.id != state.last.value.id {
        state := state.(last := Some(m), count := 1);
      } else {
        state := state.(count := state.count + 1);
        if state.count > params.beta {
          state := state.(decided := true);
        }
      }
    }
  }
}
