/** What the header step guarantees over whole branches: confirmations by a quorum, overlap of
    conflicting quorums, and the numeric and schedule invariants of every reachable state. */
module Consensus {
  import opened Basics
  import opened HeaderState
  import opened Voting

  // ---------------------------------------------------------------- branches

  ghost predicate Step(s: State, h: Header, s': State) {
    s.c.active.producers != [] && NextBlock(s, h) == Success(s')
  }

  /** states[i+1] is the header state after applying headers[i] to states[i]. */
  ghost predicate IsBranch(states: seq<State>, headers: seq<Header>) {
    && |states| == |headers| + 1
    && forall i | 0 <= i < |headers| :: Step(states[i], headers[i], states[i+1])
  }

  /** Schedules announced in headers respect the producer limit that the contract interface
      imposes when a schedule is proposed. */
  predicate ScheduleBounded(h: Header) {
    h.newProducers.Some? ==> |h.newProducers.value.producers| <= MAX_PRODUCERS
  }

  // ---------------------------------------------------------------- numeric invariant

  ghost predicate Invariant(s: State) {
    var c := s.c;
    && 0 < |c.active.producers| <= MAX_PRODUCERS
    && |s.pending.schedule.producers| <= MAX_PRODUCERS
    && (forall i | 0 <= i < |c.confirmCount| :: c.confirmCount[i] > 0)
    && c.proposed + |c.confirmCount| <= c.blockNum
    && c.lib <= c.proposed
    && (forall p | p in c.lastImplied :: c.lastImplied[p] <= c.proposed)
  }

  /** The greatest backed number does not exceed the largest implied number. */
  lemma LastIrreversibleBounded(implied: map<Name, nat>, bound: nat)
    requires forall p | p in implied :: implied[p] <= bound
    ensures LastIrreversible(implied) <= bound
  {
    if implied != map[] {
      var v := LastIrreversible(implied);
      assert Backed(implied, v);
      assert |Backers(implied, v)| > 0;
      var p :| p in Backers(implied, v);
    }
  }

  /** The counters after one step, written out. */
  lemma ConfirmationFacts(c: Common, confirmed: nat)
    requires 0 < |c.active.producers| <= MAX_PRODUCERS
    requires forall i | 0 <= i < |c.confirmCount| :: c.confirmCount[i] > 0
    requires c.proposed + |c.confirmCount| <= c.blockNum
    ensures var r := NextConfirmation(c, confirmed);
            && (forall i | 0 <= i < |r.counts| :: r.counts[i] > 0)
            && (r.ready.Some? ==>
                  && NextProposed(c, confirmed) == c.blockNum + 1 - |r.counts|
                  && NextProposed(c, confirmed) > c.proposed)
            && (r.ready.None? ==> NextProposed(c, confirmed) == c.proposed)
            && NextProposed(c, confirmed) + |r.counts| <= c.blockNum + 1
  {
    hide Confirm;
    var required := Byte(Quorum(|c.active.producers|));
    assert 0 < required == Quorum(|c.active.producers|) < 256;
    var grown := Grown(c.confirmCount, required);
    assert forall i | 0 <= i < |grown| :: grown[i] > 0;
    ConfirmAt(grown, confirmed + 1);
  }

  lemma InvariantStep(s: State, h: Header, s': State)
    requires Invariant(s) && Step(s, h, s') && ScheduleBounded(h)
    ensures Invariant(s')
    ensures s.c.proposed <= s'.c.proposed && s'.c.blockNum == s.c.blockNum + 1
  {
    hide Confirm, Grown, LastIrreversible;
    ConfirmationFacts(s.c, h.confirmed);
    LastIrreversibleBounded(ImpliedWith(s.c, h.producer), s.c.proposed);
  }

  /** Every state of every branch: counters positive, the list no longer than the distance to the
      proposed block, implied numbers and lib at most proposed, proposed at most the block number,
      and proposed never drops. */
  lemma {:induction false} InvariantOnBranch(states: seq<State>, headers: seq<Header>)
    requires IsBranch(states, headers) && Invariant(states[0])
    requires forall i | 0 <= i < |headers| :: ScheduleBounded(headers[i])
    ensures forall i | 0 <= i < |states| ::
              Invariant(states[i]) && states[i].c.blockNum == states[0].c.blockNum + i
    ensures forall i, j | 0 <= i <= j < |states| :: states[i].c.proposed <= states[j].c.proposed
  {
    hide Step, Invariant, ScheduleBounded;
    if headers != [] {
      var n := |headers| - 1;
      InvariantOnBranch(states[..n+1], headers[..n]);
      assert states[..n+1][n] == states[n];
      InvariantStep(states[n], headers[n], states[n+1]);
    }
  }

  /** initialize_blockchain_state: one producer, also pending, nothing produced yet. */
  function Genesis(id: nat, slot: nat, producer: Name): (s: State) {
    var initial := Schedule(0, [producer]);
    State(Common(1, 0, 0, initial, map[], map[], [], false, None), id, slot,
          PendingSchedule(0, initial))
  }

  lemma GenesisInvariant(id: nat, slot: nat, producer: Name)
    ensures Invariant(Genesis(id, slot, producer))
  {
  }

  // ---------------------------------------------------------------- quorum of confirmations

  /** The vote that each block of the branch casts; the schedule of its parent decides how many
      confirmations it will need itself. */
  ghost function Votes(states: seq<State>, headers: seq<Header>): (votes: seq<Vote>)
    requires |states| == |headers| + 1
    ensures |votes| == |headers|
  {
    seq(|headers|, j requires 0 <= j < |headers| =>
      Vote(headers[j].producer, headers[j].confirmed, Quorum(|states[j].c.active.producers|)))
  }

  /** Standby scheduling stays off, and no header claims more confirmations than there are blocks
      below it, so that the 32-bit subtraction of the double-confirmation check does not wrap. */
  ghost predicate Regular(states: seq<State>, headers: seq<Header>) {
    && IsBranch(states, headers) && Invariant(states[0])
    && (forall i | 0 <= i < |states| :: !states[i].c.standby)
    && (forall i | 0 <= i < |headers| ::
          ScheduleBounded(headers[i]) && headers[i].confirmed <= states[i].c.blockNum + 1)
  }

  /** A producer of block j on the branch is either remembered with at least that number, or has
      left the schedule and cannot return before a schedule announced after block j is active. */
  ghost predicate Remembered(s: State, p: Name, num: nat) {
    if p in s.c.lastProduced then num <= s.c.lastProduced[p]
    else p !in s.c.active.producers
         && (s.pending.schedule.producers != [] ==> num < s.pending.libNum)
  }

  lemma RememberedStep(s: State, h: Header, s': State, p: Name, num: nat)
    requires Invariant(s) && Step(s, h, s') && !s.c.standby && !h.standby
    requires Remembered(s, p, num) && num <= s.c.blockNum
    ensures Remembered(s', p, num)
  {
  }

  /** The range check keeps the ranges of one producer apart. */
  lemma ConfirmsOnce(s: State, h: Header, s': State, num: nat)
    requires Step(s, h, s') && Remembered(s, h.producer, num)
    requires h.confirmed <= s.c.blockNum + 1
    ensures num < s'.c.blockNum - h.confirmed
  {
  }

  ghost predicate AllRemembered(states: seq<State>, headers: seq<Header>)
    requires |states| == |headers| + 1
  {
    forall j | 0 <= j < |headers| ::
      Remembered(states[|headers|], headers[j].producer, states[j+1].c.blockNum)
  }

  lemma RegularPrefix(states: seq<State>, headers: seq<Header>, n: nat)
    requires Regular(states, headers) && n <= |headers|
    ensures Regular(states[..n+1], headers[..n])
  {
    var ss, hh := states[..n+1], headers[..n];
    forall i | 0 <= i < |hh| ensures Step(ss[i], hh[i], ss[i+1]) {
      assert Step(states[i], headers[i], states[i+1]);
    }
  }

  lemma StepHeader(s: State, h: Header, s': State)
    requires Step(s, h, s')
    ensures s'.c.blockNum == s.c.blockNum + 1 && s'.c.standby == h.standby
    ensures h.producer in s.c.active.producers
    ensures h.producer in s'.c.lastProduced && s'.c.lastProduced[h.producer] == s'.c.blockNum
  {
  }

  lemma {:induction false} RememberedOnBranch(states: seq<State>, headers: seq<Header>)
    requires Regular(states, headers)
    ensures AllRemembered(states, headers)
  {
    hide Step, Invariant, ScheduleBounded;
    if headers != [] {
      var n := |headers| - 1;
      var ss, hh := states[..n+1], headers[..n];
      RegularPrefix(states, headers, n);
      RememberedOnBranch(ss, hh);
      InvariantOnBranch(ss, hh);
      assert Invariant(ss[n]) && Step(states[n], headers[n], states[n+1]);
      StepHeader(states[n], headers[n], states[n+1]);
      forall j | 0 <= j < |headers|
        ensures Remembered(states[n+1], headers[j].producer, states[j+1].c.blockNum)
      {
        if j < n {
          assert Remembered(ss[n], hh[j].producer, ss[j+1].c.blockNum);
          assert ss[j+1].c.blockNum <= ss[n].c.blockNum;
          RememberedStep(states[n], headers[n], states[n+1],
                         headers[j].producer, states[j+1].c.blockNum);
        }
      }
    }
  }

  /** No two votes of one producer overlap on one branch. */
  lemma VotesDisjoint(states: seq<State>, headers: seq<Header>)
    requires Regular(states, headers)
    ensures OneVoteEach(Votes(states, headers))
  {
    forall i, j | 0 <= i < j < |headers| && headers[i].producer == headers[j].producer
      ensures i < j - headers[j].confirmed
    {
      var ss, hh := states[..j+1], headers[..j];
      RegularPrefix(states, headers, j);
      RememberedOnBranch(ss, hh);
      InvariantOnBranch(states, headers);
      assert Remembered(ss[j], hh[i].producer, ss[i+1].c.blockNum);
      ConfirmsOnce(states[j], headers[j], states[j+1], states[i+1].c.blockNum);
    }
  }

  lemma VotesPrefix(states: seq<State>, headers: seq<Header>, n: nat)
    requires |states| == |headers| + 1 && n <= |headers|
    ensures Votes(states, headers)[..n] == Votes(states[..n+1], headers[..n])
  {
  }

  /** The position on the branch of the block that step i made the proposed irreversible one. */
  ghost function ProposedAt(states: seq<State>, i: nat): int
    requires i + 1 < |states|
  {
    states[i+1].c.proposed - states[0].c.blockNum - 1
  }

  /** The counters of the last state count what each block of the branch is missing. */
  lemma {:induction false} Tracking(states: seq<State>, headers: seq<Header>)
    requires Regular(states, headers)
    ensures Counted(Votes(states, headers), states[|headers|].c.confirmCount)
  {
    if headers != [] {
      var n := |headers| - 1;
      RegularPrefix(states, headers, n);
      Tracking(states[..n+1], headers[..n]);
      TrackingAt(states, headers, n);
      assert Votes(states, headers)[..n+1] == Votes(states, headers);
    }
  }

  lemma TrackingAt(states: seq<State>, headers: seq<Header>, n: nat)
    requires Regular(states, headers) && n < |headers|
    requires Counted(Votes(states[..n+1], headers[..n]), states[n].c.confirmCount)
    ensures Counted(Votes(states, headers)[..n+1], states[n+1].c.confirmCount)
    ensures states[n+1].c.proposed != states[n].c.proposed ==>
              && ProposedAt(states, n) <= n
              && (ProposedAt(states, n) >= 0 ==>
                    Missing(Votes(states, headers)[..n+1], ProposedAt(states, n)) == 0)
  {
    hide Step, Invariant, Counted, Missing, OneVoteEach;
    var all := Votes(states, headers);
    var v := all[n];
    VotesPrefix(states, headers, n);
    assert all[..n] + [v] == all[..n+1];
    VotesDisjoint(states, headers);
    OneVotePrefix(all, n + 1);
    InvariantOnBranch(states, headers);
    TrackingStep(all[..n], v, states[n], headers[n], states[n+1], states[0].c.blockNum);
  }

  lemma TrackingStep(votes: seq<Vote>, v: Vote, s: State, h: Header, s': State, start: nat)
    requires Invariant(s) && Step(s, h, s') && s.c.blockNum == start + |votes|
    requires v == Vote(h.producer, h.confirmed, Quorum(|s.c.active.producers|))
    requires OneVoteEach(votes + [v]) && Counted(votes, s.c.confirmCount)
    ensures Counted(votes + [v], s'.c.confirmCount)
    ensures s'.c.proposed != s.c.proposed ==>
              var r := s'.c.proposed - start - 1;
              r <= |votes| && (r >= 0 ==> Missing(votes + [v], r) == 0)
  {
    hide Step, Invariant, Counted, Missing, OneVoteEach, Confirm;
    StepPositive(s, h);
    StepConfirmation(s, h, s');
    CountedStep(votes, v, s.c.confirmCount, NextConfirmation(s.c, h.confirmed));
  }

  lemma StepPositive(s: State, h: Header)
    requires Invariant(s)
    ensures forall i | 0 <= i < |s.c.confirmCount| :: s.c.confirmCount[i] > 0
  {
  }

  lemma StepConfirmation(s: State, h: Header, s': State)
    requires Invariant(s) && Step(s, h, s')
    ensures s'.c.confirmCount == NextConfirmation(s.c, h.confirmed).counts
    ensures s'.c.proposed != s.c.proposed ==>
              && NextConfirmation(s.c, h.confirmed).ready.Some?
              && s'.c.proposed == s.c.blockNum + 1 - |s'.c.confirmCount|
    ensures 0 < Quorum(|s.c.active.producers|) == Byte(Quorum(|s.c.active.producers|))
  {
    ConfirmationFacts(s.c, h.confirmed);
  }

  /** Whenever a block of the branch becomes the proposed irreversible one, exactly
      floor(2n/3)+1 distinct producers have confirmed it, n being the size of the schedule that
      its parent had active, and no producer confirmed it twice. Schedule changes are allowed. */
  lemma ProposedByQuorum(states: seq<State>, headers: seq<Header>, i: nat)
    requires Regular(states, headers) && i < |headers|
    requires states[i+1].c.proposed != states[i].c.proposed && ProposedAt(states, i) >= 0
    ensures var r := ProposedAt(states, i);
            var votes := Votes(states, headers)[..i+1];
            && r <= i
            && |Confirmers(votes, r)| == Quorum(|states[r].c.active.producers|)
            && (forall a, b | 0 <= a < b <= i && Covers(votes, a, r) && Covers(votes, b, r) ::
                  headers[a].producer != headers[b].producer)
  {
    RegularPrefix(states, headers, i);
    Tracking(states[..i+1], headers[..i]);
    TrackingAt(states, headers, i);
    VotesDisjoint(states, headers);
  }

  // ---------------------------------------------------------------- conflicting branches

  ghost predicate FixedSchedule(states: seq<State>, producers: seq<Name>) {
    forall i | 0 <= i < |states| :: states[i].c.active.producers == producers
  }

  ghost function Names(names: seq<Name>): set<Name> { set p | p in names }

  lemma {:induction false} NamesBounded(names: seq<Name>)
    ensures |Names(names)| <= |names|
  {
    if names != [] {
      NamesBounded(names[1..]);
      assert Names(names) == {names[0]} + Names(names[1..]);
    }
  }

  lemma ConfirmersScheduled(states: seq<State>, headers: seq<Header>, producers: seq<Name>, n: nat, r: int)
    requires IsBranch(states, headers) && FixedSchedule(states, producers) && n <= |headers|
    ensures Confirmers(Votes(states, headers)[..n], r) <= Names(producers)
  {
    var votes := Votes(states, headers)[..n];
    forall j | 0 <= j < n ensures votes[j].producer in producers {
      StepHeader(states[j], headers[j], states[j+1]);
    }
  }

  /** Two quorums out of n names share more than a third of them. */
  lemma QuorumsOverlap(a: set<Name>, b: set<Name>, names: seq<Name>)
    requires a <= Names(names) && b <= Names(names)
    requires |a| == |b| == Quorum(|names|)
    ensures 3 * |a * b| > |names|
  {
    NamesBounded(names);
    SubsetSize(a + b, Names(names));
    assert |a + b| + |a * b| == |a| + |b|;
  }

  /** Two branches from a common state under one schedule of n producers: if a block at the same
      height becomes proposed irreversible on each, then more than a third of the producers
      confirmed that height on both. */
  lemma ConflictingQuorumsOverlap(
      states: seq<State>, headers: seq<Header>, i: nat,
      states': seq<State>, headers': seq<Header>, i': nat, producers: seq<Name>)
    requires Regular(states, headers) && Regular(states', headers') && states[0] == states'[0]
    requires FixedSchedule(states, producers) && FixedSchedule(states', producers)
    requires i < |headers| && i' < |headers'|
    requires states[i+1].c.proposed != states[i].c.proposed
    requires states'[i'+1].c.proposed != states'[i'].c.proposed
    requires ProposedAt(states, i) == ProposedAt(states', i') >= 0
    ensures var r := ProposedAt(states, i);
            3 * |Confirmers(Votes(states, headers)[..i+1], r)
                 * Confirmers(Votes(states', headers')[..i'+1], r)| > |producers|
  {
    ScheduledQuorum(states, headers, producers, i);
    ScheduledQuorum(states', headers', producers, i');
    var r := ProposedAt(states, i);
    QuorumsOverlap(Confirmers(Votes(states, headers)[..i+1], r),
                   Confirmers(Votes(states', headers')[..i'+1], r), producers);
  }

  lemma ScheduledQuorum(states: seq<State>, headers: seq<Header>, producers: seq<Name>, i: nat)
    requires Regular(states, headers) && FixedSchedule(states, producers) && i < |headers|
    requires states[i+1].c.proposed != states[i].c.proposed && ProposedAt(states, i) >= 0
    ensures var confirmers := Confirmers(Votes(states, headers)[..i+1], ProposedAt(states, i));
            confirmers <= Names(producers) && |confirmers| == Quorum(|producers|)
  {
    ProposedByQuorum(states, headers, i);
    ConfirmersScheduled(states, headers, producers, i + 1, ProposedAt(states, i));
  }

  // ---------------------------------------------------------------- the wrapping range check

  /** The 32-bit check keeps a producer's ranges apart exactly when the header does not claim more
      blocks than there are. */
  lemma RangeCheckExact(last: nat, blockNum: nat, confirmed: nat)
    requires last <= blockNum < TWO32 && confirmed < 0x1_0000
    ensures ((last < ConfirmedFrom(blockNum, confirmed)) <==> last < blockNum + 1 - confirmed)
            <==> confirmed <= blockNum + 1
  {
  }

  // ---------------------------------------------------------------- the last irreversible number

  ghost predicate TracksActive(s: State) {
    s.c.lastImplied.Keys == set p | p in s.c.active.producers
  }

  /** The reported number is still backed by the table it will next be computed from. */
  ghost predicate Settled(s: State) {
    s.c.lastImplied != map[] && Backed(s.c.lastImplied, s.c.lib)
  }

  lemma BackedMonotone(m: map<Name, nat>, m': map<Name, nat>, v: nat)
    requires m.Keys == m'.Keys && forall p | p in m :: m[p] <= m'[p]
    requires Backed(m, v)
    ensures Backed(m', v)
  {
    SubsetSize(Backers(m, v), Backers(m', v));
    assert |m| == |m.Keys| == |m'.Keys| == |m'|;
  }

  /** From a settled state the number does not drop, and only a promotion can leave the next state
      unsettled. */
  lemma LibStep(s: State, h: Header, s': State)
    requires Invariant(s) && Step(s, h, s') && TracksActive(s) && Settled(s)
    requires Promotes(s, h.producer) ==> Settled(s')
    ensures s.c.lib <= s'.c.lib && TracksActive(s') && Settled(s')
  {
    hide Confirm, Grown, Backed;
    StepHeader(s, h, s');
    var implied := ImpliedWith(s.c, h.producer);
    BackedMonotone(s.c.lastImplied, implied, s.c.lib);
    assert Promotes(s, h.producer) || s'.c.lastImplied == implied;
  }

  /** The last irreversible number never drops on a branch from a settled state on which every schedule
      promotion leaves a settled state, that is, one where a quorum of the new schedule backs it. */
  lemma {:induction false} LibNeverDrops(states: seq<State>, headers: seq<Header>)
    requires IsBranch(states, headers) && Invariant(states[0])
    requires forall i | 0 <= i < |headers| ::
               ScheduleBounded(headers[i]) && (Promotes(states[i], headers[i].producer) ==> Settled(states[i+1]))
    requires TracksActive(states[0]) && Settled(states[0])
    ensures forall i, j | 0 <= i <= j < |states| :: states[i].c.lib <= states[j].c.lib
    ensures TracksActive(states[|headers|]) && Settled(states[|headers|])
  {
    hide Step, Invariant, Settled, TracksActive, Promotes, ScheduleBounded;
    if headers != [] {
      var n := |headers| - 1;
      var ss, hh := states[..n+1], headers[..n];
      LibNeverDrops(ss, hh);
      InvariantOnBranch(states, headers);
      assert ss[n] == states[n];
      LibStep(states[n], headers[n], states[n+1]);
      forall i, j | 0 <= i <= j < |states| ensures states[i].c.lib <= states[j].c.lib {
        if j == n + 1 && i <= n { assert ss[i].c.lib <= ss[n].c.lib; }
        else if j <= n { assert ss[i].c.lib <= ss[j].c.lib; }
      }
    }
  }

  /** The first block after genesis leaves a settled state. */
  lemma GenesisSettled(g: State, h: Header, s': State)
    requires exists id, slot, p :: g == Genesis(id, slot, p)
    requires Step(g, h, s')
    ensures TracksActive(s') && Settled(s') && g.c.lib == s'.c.lib == 0
  {
    hide Confirm, Grown;
    assert ImpliedWith(g.c, h.producer) == map[];
    assert h.producer in s'.c.lastImplied;
    ZeroBacked(s'.c.lastImplied);
  }

  /** So from genesis on it never drops as long as every later promotion leaves a settled state. */
  lemma LibNeverDropsFromGenesis(states: seq<State>, headers: seq<Header>)
    requires IsBranch(states, headers) && exists id, slot, p :: states[0] == Genesis(id, slot, p)
    requires forall i | 0 <= i < |headers| :: ScheduleBounded(headers[i])
    requires forall i | 0 < i < |headers| :: Promotes(states[i], headers[i].producer) ==> Settled(states[i+1])
    ensures forall i, j | 0 <= i <= j < |states| :: states[i].c.lib <= states[j].c.lib
  {
    hide Step, Settled, TracksActive, Promotes, ScheduleBounded, Invariant;
    if headers != [] {
      var id, slot, p :| states[0] == Genesis(id, slot, p);
      GenesisInvariant(id, slot, p);
      GenesisSettled(states[0], headers[0], states[1]);
      InvariantOnBranch(states, headers);
      hide Genesis;
      var later, rest := states[1..], headers[1..];
      LibNeverDrops(later, rest);
      forall i, j | 0 <= i <= j < |states| ensures states[i].c.lib <= states[j].c.lib {
        if i > 0 { assert later[i-1].c.lib <= later[j-1].c.lib; }
      }
    }
  }

  /** In general the next block keeps the number exactly when a quorum of the producers now tracked
      still backs it. */
  lemma LibKeptExactly(s: State, h: Header, s': State)
    requires Step(s, h, s') && s.c.lastImplied != map[]
    ensures s.c.lib <= s'.c.lib <==> Backed(ImpliedWith(s.c, h.producer), s.c.lib)
  {
    var implied := ImpliedWith(s.c, h.producer);
    assert implied.Keys == s.c.lastImplied.Keys;
    if s.c.lib <= s'.c.lib {
      BackedAntitone(implied, s.c.lib, s'.c.lib);
    }
  }

  // ---------------------------------------------------------------- schedule versions

  ghost predicate ScheduleInvariant(s: State) {
    && !s.c.standby && s.c.active.producers != [] && TracksActive(s)
    && (s.pending.schedule.producers != [] ==>
          s.pending.schedule.version == s.c.active.version + 1 && s.pending.libNum <= s.c.blockNum)
  }

  lemma ScheduleStep(s: State, h: Header, s': State)
    requires Step(s, h, s') && !s.c.standby && !h.standby
    requires ScheduleInvariant(s)
    ensures ScheduleInvariant(s')
    ensures s'.c.active == s.c.active ||
            (s'.c.active.version == s.c.active.version + 1
             && s'.c.active == s.pending.schedule && s.pending.schedule.producers != []
             && s.pending.libNum <= s'.c.lib)
    ensures s'.pending.schedule.producers == [] || s'.pending == s.pending
            || (h.newProducers == Some(s'.pending.schedule) && s'.pending.libNum == s'.c.blockNum)
  {
    hide Confirm, Grown, LastIrreversible;
    StepHeader(s, h, s');
  }

  lemma GenesisStep(g: State, h: Header, s': State)
    requires exists id, slot, p :: g == Genesis(id, slot, p)
    requires Step(g, h, s') && !h.standby
    ensures ScheduleInvariant(s') && s'.c.active == g.c.active && s'.pending.schedule.producers == []
  {
    hide Confirm, Grown;
    assert ImpliedWith(g.c, h.producer) == map[];
  }

  /** The pending schedule of state i was announced by block j. */
  ghost predicate AnnouncedBy(states: seq<State>, headers: seq<Header>, pending: PendingSchedule, j: int) {
    && 0 <= j < |headers| && j + 1 < |states|
    && headers[j].newProducers == Some(pending.schedule)
    && states[j+1].c.blockNum == pending.libNum
  }

  ghost predicate ScheduleHistory(states: seq<State>, headers: seq<Header>, i: nat)
    requires i < |states|
  {
    && ScheduleInvariant(states[i])
    && (states[i].pending.schedule.producers != [] ==>
          exists j :: j < i && AnnouncedBy(states, headers, states[i].pending, j))
  }

  lemma {:induction false} ScheduleHistoryHolds(states: seq<State>, headers: seq<Header>, i: nat)
    requires IsBranch(states, headers) && 0 < i < |states|
    requires exists id, slot, p :: states[0] == Genesis(id, slot, p)
    requires forall k | 0 <= k < |headers| :: !headers[k].standby
    ensures ScheduleHistory(states, headers, i)
  {
    if i == 1 {
      GenesisStep(states[0], headers[0], states[1]);
    } else {
      ScheduleHistoryHolds(states, headers, i - 1);
      var s, h, s' := states[i-1], headers[i-1], states[i];
      ScheduleStep(s, h, s');
      if s'.pending.schedule.producers != [] {
        if s'.pending == s.pending {
          var j :| j < i - 1 && AnnouncedBy(states, headers, s.pending, j);
          assert AnnouncedBy(states, headers, s'.pending, j);
        } else {
          assert AnnouncedBy(states, headers, s'.pending, i - 1);
        }
      }
    }
  }

  /** With standby scheduling off, from the first block after genesis on: a pending schedule has the
      next version, the table of implied numbers tracks exactly the active producers, and a block
      changes the active schedule only by one version, to a schedule that an earlier block of this
      branch announced and that this block reports irreversible. */
  lemma SchedulesOnBranch(states: seq<State>, headers: seq<Header>, i: nat)
    requires IsBranch(states, headers) && 0 < i < |headers|
    requires exists id, slot, p :: states[0] == Genesis(id, slot, p)
    requires forall k | 0 <= k < |headers| :: !headers[k].standby
    ensures ScheduleInvariant(states[i]) && ScheduleInvariant(states[i+1])
    ensures states[i+1].c.active != states[i].c.active ==>
              && states[i+1].c.active.version == states[i].c.active.version + 1
              && exists j :: 0 <= j < i && headers[j].newProducers == Some(states[i+1].c.active)
                             && states[j+1].c.blockNum <= states[i+1].c.lib
  {
    ScheduleHistoryHolds(states, headers, i);
    ScheduleStep(states[i], headers[i], states[i+1]);
    if states[i+1].c.active != states[i].c.active {
      var j :| j < i && AnnouncedBy(states, headers, states[i].pending, j);
      assert headers[j].newProducers == Some(states[i+1].c.active);
    }
  }
}
