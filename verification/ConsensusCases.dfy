/** Two branches from genesis on which a plain statement about the header step fails: one vote range
    that wraps around, and one schedule change after which the irreversible number drops. */
module ConsensusCases {
  import opened Basics
  import opened HeaderState
  import opened Voting
  import opened Consensus

  const ONE := Schedule(0, [1])
  const FOUR := Schedule(1, [1, 2, 3, 4])
  const TWO := Schedule(2, [4, 5])

  // ---------------------------------------------------------------- one block at a time

  /** Everything a header must match. */
  ghost predicate Fits(s: State, h: Header) {
    && s.c.active.producers != [] && !s.c.standby && !h.standby && h.standbyBlockNum == None
    && s.slot < h.slot && h.previous == s.id && h.scheduleVersion == s.c.active.version
    && h.producer == ScheduledProducer(s.c.active, h.slot)
    && ConfirmRangeAllowed(s.c, h.producer, h.confirmed)
  }

  /** The counters and the proposed number after a header. */
  ghost predicate Counts(s: State, h: Header, counts: seq<int>, proposed: nat) {
    NextConfirmation(s.c, h.confirmed).counts == counts && NextProposed(s.c, h.confirmed) == proposed
  }

  lemma PlainStep(s: State, h: Header, lib: nat, counts: seq<int>, proposed: nat, s': State)
    requires Fits(s, h) && Counts(s, h, counts, proposed) && NextLib(s, h.producer) == lib
    requires s.pending.schedule.producers == [] || (lib < s.pending.libNum && h.newProducers == None)
    requires h.newProducers.Some? ==> h.newProducers.value.version == s.c.active.version + 1
    requires s' == State(
               Common(s.c.blockNum + 1, proposed, lib, s.c.active, s.c.lastProduced[h.producer := s.c.blockNum + 1],
                      s.c.lastImplied[h.producer := s.c.proposed], counts, false, None),
               h.id, h.slot,
               if h.newProducers.Some? then PendingSchedule(s.c.blockNum + 1, h.newProducers.value) else s.pending)
    ensures Step(s, h, s')
  {
    hide NextLib, NextConfirmation, NextProposed, ScheduledProducer, ConfirmRangeAllowed;
  }

  lemma PromotingStep(s: State, h: Header, lib: nat, counts: seq<int>, proposed: nat, s': State)
    requires Fits(s, h) && Counts(s, h, counts, proposed) && NextLib(s, h.producer) == lib
    requires s.pending.schedule.producers != [] && s.pending.libNum <= lib && h.newProducers == None
    requires var active := s.pending.schedule;
             var implied := Carried(active.producers, s.c.lastImplied, lib);
             s' == State(
               Common(s.c.blockNum + 1, proposed, lib, active,
                      Carried(active.producers, s.c.lastProduced, lib)[h.producer := s.c.blockNum + 1],
                      if h.producer in active.producers then implied[h.producer := s.c.proposed] else implied,
                      counts, false, None),
               h.id, h.slot, PendingSchedule(s.pending.libNum, Schedule(active.version, [])))
    ensures Step(s, h, s')
  {
    hide NextLib, NextConfirmation, NextProposed, ScheduledProducer, ConfirmRangeAllowed, Carried;
  }

  /** A quorum reaches v and no quorum exceeds it. */
  lemma LibIs(implied: map<Name, nat>, v: nat, up: set<Name>, over: set<Name>)
    requires implied != map[] && up <= implied.Keys && forall p | p in up :: implied[p] >= v
    requires forall p | p in implied && implied[p] > v :: p in over
    requires |over| < Quorum(|implied|) <= |up|
    ensures LastIrreversible(implied) == v
  {
    SubsetSize(up, Backers(implied, v));
    SubsetSize(Backers(implied, v + 1), over);
    GreatestBackedBy(implied, v);
  }

  lemma LibAlone(implied: map<Name, nat>, v: nat)
    requires implied == map[1 := v]
    ensures LastIrreversible(implied) == v
  {
    assert implied.Keys == {1} && |implied| == |implied.Keys|;
    LibIs(implied, v, {1}, {});
  }

  /** A schedule of one producer proposes each block at once. */
  lemma AloneCounts(s: State, h: Header)
    requires s.c.active.producers == [1] && s.c.confirmCount == [] && h.confirmed == 0
    ensures Counts(s, h, [], s.c.blockNum + 1)
  {
    hide Confirm;
    assert Quorum(1) == 1;
    assert Grown([], 1) == [1];
    ConfirmAlone();
  }

  lemma ConfirmAlone()
    ensures Confirm([1], 1) == Confirmation([], Some(0))
  {
    assert HighestReady([1], 0, 1) == Some(0);
    assert [1][1..] == [];
  }

  lemma ConfirmAll(counts: seq<int>, many: nat)
    requires counts == [3] || counts == [2, 3] || counts == [1, 2, 3]
    requires many >= |counts|
    ensures counts == [3] ==> Confirm(counts, many) == Confirmation([2], None)
    ensures counts == [2, 3] ==> Confirm(counts, many) == Confirmation([1, 2], None)
    ensures counts == [1, 2, 3] ==> Confirm(counts, many) == Confirmation([1, 2], Some(0))
  {
    HighestReadyFacts(counts, 0, |counts|);
    hide HighestReady;
    var r := HighestReady(counts, 0, |counts|);
    if counts == [1, 2, 3] {
      assert r == Some(0) by { assert Decrement(counts[0]) == 0 && Decrement(counts[1]) == 1 && Decrement(counts[2]) == 2; }
      assert DecrementAll(counts[1..]) == [1, 2];
    } else {
      assert r == None;
      assert counts[..0] + DecrementAll(counts[0..]) == if counts == [3] then [2] else [1, 2];
    }
  }

  /** Counters under a vote that covers the whole list, with a quorum of three. */
  lemma ThreeVotes(s: State, h: Header)
    requires |s.c.active.producers| == 4 && |s.c.confirmCount| <= h.confirmed
    requires s.c.confirmCount == [] || s.c.confirmCount == [2] || s.c.confirmCount == [1, 2]
    requires s.c.confirmCount == [1, 2] ==> s.c.blockNum >= 1
    ensures s.c.confirmCount == [] ==> Counts(s, h, [2], s.c.proposed)
    ensures s.c.confirmCount == [2] ==> Counts(s, h, [1, 2], s.c.proposed)
    ensures s.c.confirmCount == [1, 2] ==> Counts(s, h, [1, 2], s.c.blockNum - 1)
  {
    hide Confirm;
    var g := Grown(s.c.confirmCount, 3);
    assert g == s.c.confirmCount + [3] && Quorum(4) == 3;
    ConfirmAll(g, h.confirmed + 1);
  }

  /** A vote for the new block only. */
  lemma OneVote(s: State, h: Header)
    requires |s.c.active.producers| in {2, 4} && h.confirmed == 0 && |s.c.confirmCount| < 10
    ensures Counts(s, h, s.c.confirmCount + [if |s.c.active.producers| == 4 then 2 else 1], s.c.proposed)
  {
    hide Confirm;
    var required := if |s.c.active.producers| == 4 then 3 else 2;
    assert Byte(Quorum(|s.c.active.producers|)) == required;
    var g := Grown(s.c.confirmCount, required);
    assert g == s.c.confirmCount + [required];
    ConfirmAt(g, 1);
    var c := Confirm(g, 1);
    assert c.ready == None;
    assert c.counts == s.c.confirmCount + [required - 1];
  }

  lemma Extended(states: seq<State>, headers: seq<Header>, h: Header, s': State)
    requires IsBranch(states, headers) && |states| > 0 && Step(states[|states|-1], h, s')
    ensures IsBranch(states + [s'], headers + [h])
  {
    hide Step;
    var longer, more := states + [s'], headers + [h];
    forall i | 0 <= i < |more| ensures Step(longer[i], more[i], longer[i+1]) { }
  }

  // ---------------------------------------------------------------- the common beginning

  /** Header of block num, announcing nothing. */
  function Block(num: nat, slot: nat, producer: Name, confirmed: nat, version: nat): Header
    requires num > 0
  {
    Header(num, slot, producer, confirmed, num - 1, version, None, false, None)
  }

  function Tables(a: nat, b: nat, c: nat, d: nat): map<Name, nat> { map[1 := a, 2 := b, 3 := c, 4 := d] }

  function At(num: nat, slot: nat, proposed: nat, lib: nat, produced: map<Name, nat>, implied: map<Name, nat>,
      counts: seq<int>, pending: PendingSchedule): State
  {
    State(Common(num, proposed, lib, FOUR, produced, implied, counts, false, None), num, slot, pending)
  }

  function Alone(num: nat, lib: nat, proposed: nat, pending: PendingSchedule): State
    requires num >= 2
  {
    State(Common(num, proposed, lib, ONE, map[1 := num], map[1 := lib], [], false, None), num, num - 1, pending)
  }

  const PENDING_NONE := PendingSchedule(3, Schedule(1, []))

  /** The state after block 4, with the schedule of four active. */
  const L4 := At(4, 3, 4, 3, Tables(4, 3, 3, 3), Tables(3, 3, 3, 3), [], PENDING_NONE)

  /** Blocks 2 to 4: the genesis schedule, then four producers announced in block 3 and active after
      block 4. */
  lemma Beginning() returns (states: seq<State>, headers: seq<Header>)
    ensures IsBranch(states, headers) && |headers| == 3 && |states| == 4 && states[0] == Genesis(1, 0, 1)
    ensures states[3] == L4
    ensures forall i | 0 <= i < |headers| :: Modest(headers[i]) && MadeByOne(headers[i])
  {
    hide *;
    var s1, s2 := Genesis(1, 0, 1), Alone(2, 0, 2, PendingSchedule(0, Schedule(0, [])));
    var s3 := Alone(3, 2, 3, PendingSchedule(3, FOUR));
    var s4 := L4;
    var h2, h3, h4 := Block(2, 1, 1, 0, 0), Block(3, 2, 1, 0, 0).(newProducers := Some(FOUR)), Block(4, 3, 1, 0, 0);
    SecondBlock(s1, s2);
    ThirdBlock(s2, s3);
    FourthBlock(s3, s4);
    Began(s1, s2, s3, s4, h2, h3, h4);
    states, headers := [s1, s2, s3, s4], [h2, h3, h4];
  }

  /** No standby schedule, no schedule that is too long, and no claim that is too large. */
  predicate Modest(h: Header) { !h.standby && ScheduleBounded(h) && h.confirmed <= 2 }

  predicate MadeByOne(h: Header) { !h.standby && ScheduleBounded(h) && h.producer == 1 }

  lemma Began(s1: State, s2: State, s3: State, s4: State, h2: Header, h3: Header, h4: Header)
    requires Step(s1, h2, s2) && Step(s2, h3, s3) && Step(s3, h4, s4)
    ensures IsBranch([s1, s2, s3, s4], [h2, h3, h4])
  {
    hide Step;
    var states, headers := [s1, s2, s3, s4], [h2, h3, h4];
    forall i | 0 <= i < 3 ensures Step(states[i], headers[i], states[i+1]) {
      assert i == 0 || i == 1 || i == 2;
    }
  }

  lemma SecondBlock(g: State, s2: State)
    requires g == Genesis(1, 0, 1) && s2 == Alone(2, 0, 2, PendingSchedule(0, Schedule(0, [])))
    ensures Step(g, Block(2, 1, 1, 0, 0), s2) && Modest(Block(2, 1, 1, 0, 0)) && MadeByOne(Block(2, 1, 1, 0, 0))
  {
    var h := Block(2, 1, 1, 0, 0);
    AloneCounts(g, h);
    assert ImpliedWith(g.c, 1) == map[];
    PromotingStep(g, h, 0, [], 2, s2);
  }

  lemma ThirdBlock(s2: State, s3: State)
    requires s2 == Alone(2, 0, 2, PendingSchedule(0, Schedule(0, []))) && s3 == Alone(3, 2, 3, PendingSchedule(3, FOUR))
    ensures Step(s2, Block(3, 2, 1, 0, 0).(newProducers := Some(FOUR)), s3)
    ensures Modest(Block(3, 2, 1, 0, 0).(newProducers := Some(FOUR)))
    ensures MadeByOne(Block(3, 2, 1, 0, 0).(newProducers := Some(FOUR)))
  {
    var h := Block(3, 2, 1, 0, 0).(newProducers := Some(FOUR));
    AloneCounts(s2, h);
    assert ImpliedWith(s2.c, 1) == map[1 := 2];
    LibAlone(ImpliedWith(s2.c, 1), 2);
    PlainStep(s2, h, 2, [], 3, s3);
  }

  lemma FourCarried(known: map<Name, nat>, own: nat)
    requires known.Keys == {1}
    ensures Carried([1, 2, 3, 4], known, 3)[1 := own] == Tables(own, 3, 3, 3)
  {
  }

  lemma FourthBlock(s3: State, s4: State)
    requires s3 == Alone(3, 2, 3, PendingSchedule(3, FOUR))
    requires s4 == L4
    ensures Step(s3, Block(4, 3, 1, 0, 0), s4) && Modest(Block(4, 3, 1, 0, 0)) && MadeByOne(Block(4, 3, 1, 0, 0))
  {
    var h := Block(4, 3, 1, 0, 0);
    AloneCounts(s3, h);
    assert ImpliedWith(s3.c, 1) == map[1 := 3];
    LibAlone(ImpliedWith(s3.c, 1), 3);
    hide Carried, Tables, Counts;
    FourCarried(s3.c.lastImplied, 3);
    FourCarried(s3.c.lastProduced, 4);
    PromotingStep(s3, h, 3, [], 4, s4);
  }

  // ---------------------------------------------------------------- a vote range that wraps around

  /** Three of the four producers reach the number that the third one implies. */
  lemma LibFour(a: nat, b: nat, c: nat, d: nat)
    requires d <= c <= a && c <= b
    ensures LastIrreversible(Tables(a, b, c, d)) == c
  {
    var implied := Tables(a, b, c, d);
    assert implied.Keys == {1, 2, 3, 4} && |implied| == |implied.Keys| == 4;
    LibIs(implied, c, {1, 2, 3}, {1, 2});
  }

  lemma TablesSet(a: nat, b: nat, c: nat, d: nat, x: nat)
    ensures Tables(a, b, c, d)[1 := x] == Tables(x, b, c, d)
    ensures Tables(a, b, c, d)[2 := x] == Tables(a, x, c, d)
    ensures Tables(a, b, c, d)[3 := x] == Tables(a, b, x, d)
    ensures var m := Tables(a, b, c, d);
            m.Keys == {1, 2, 3, 4} && m[1] == a && m[2] == b && m[3] == c && m[4] == d
  {
  }

  lemma FourFits(s: State, h: Header)
    requires s.c.active == FOUR && !s.c.standby && !h.standby && h.standbyBlockNum == None
    requires s.slot < h.slot && h.previous == s.id && h.scheduleVersion == 1 && h.producer == h.slot % 48 / 12 + 1
    requires h.producer in s.c.lastProduced
    requires s.c.lastProduced[h.producer] + h.confirmed <= s.c.blockNum
    ensures Fits(s, h)
  {
  }

  /** A block of producer 1, 2 or 3 while the schedule of four is active. */
  lemma FourStep(s: State, h: Header, a: nat, b: nat, c: nat, d: nat, counts: seq<int>, proposed: nat, s': State)
    requires Fits(s, h) && s.c.active == FOUR && Counts(s, h, counts, proposed)
    requires h.producer in s.c.lastImplied && s.c.lastImplied[h.producer := s.c.proposed] == Tables(a, b, c, d)
    requires d <= c <= a && c <= b
    requires s.pending.schedule.producers == [] || (c < s.pending.libNum && h.newProducers == None)
    requires h.newProducers.Some? ==> h.newProducers.value.version == 2
    requires s' == At(s.c.blockNum + 1, h.slot, proposed, c, s.c.lastProduced[h.producer := s.c.blockNum + 1],
                      Tables(a, b, c, d), counts,
                      if h.newProducers.Some? then PendingSchedule(s.c.blockNum + 1, h.newProducers.value) else s.pending)
    requires h.id == s.c.blockNum + 1
    ensures Step(s, h, s')
  {
    assert ImpliedWith(s.c, h.producer) == s.c.lastImplied[h.producer := s.c.proposed];
    LibFour(a, b, c, d);
    hide Fits, Counts, Tables, Step, LastIrreversible;
    PlainStep(s, h, c, counts, proposed, s');
  }

  /** Producer 1 after block num of the run, having made every block since block 4. */
  function Runaway(num: nat, proposed: nat, counts: seq<int>): State
    requires num >= 4
  {
    At(num, num - 1, proposed, 3, Tables(num, 3, 3, 3), Tables(if num == 4 then 3 else 4, 3, 3, 3), counts, PENDING_NONE)
  }

  lemma RunawayStep(num: nat, counts: seq<int>, counts': seq<int>, proposed: nat)
    requires 4 <= num <= 6
    requires Counts(Runaway(num, 4, counts), Block(num + 1, num, 1, 20, 1), counts', proposed)
    ensures Step(Runaway(num, 4, counts), Block(num + 1, num, 1, 20, 1), Runaway(num + 1, proposed, counts'))
  {
    var s, h := Runaway(num, 4, counts), Block(num + 1, num, 1, 20, 1);
    TablesSet(num, 3, 3, 3, num + 1);
    TablesSet(if num == 4 then 3 else 4, 3, 3, 3, 4);
    assert Fits(s, h);
    hide Tables, Counts, ScheduledProducer, Fits, ConfirmRangeAllowed;
    FourStep(s, h, 4, 3, 3, 3, counts', proposed, Runaway(num + 1, proposed, counts'));
  }

  lemma RunawayBlocks()
    ensures Step(Runaway(4, 4, []), Block(5, 4, 1, 20, 1), Runaway(5, 4, [2]))
    ensures Step(Runaway(5, 4, [2]), Block(6, 5, 1, 20, 1), Runaway(6, 4, [1, 2]))
    ensures Step(Runaway(6, 4, [1, 2]), Block(7, 6, 1, 20, 1), Runaway(7, 5, [1, 2]))
  {
    ThreeVotes(Runaway(4, 4, []), Block(5, 4, 1, 20, 1));
    ThreeVotes(Runaway(5, 4, [2]), Block(6, 5, 1, 20, 1));
    ThreeVotes(Runaway(6, 4, [1, 2]), Block(7, 6, 1, 20, 1));
    hide Step, Counts;
    RunawayStep(4, [], [2], 4);
    RunawayStep(5, [2], [1, 2], 4);
    RunawayStep(6, [1, 2], [1, 2], 5);
  }

  /** When the claimed range is larger than the chain, one producer out of four fills the quorum of
      three alone: the headers of blocks 5 to 7 make block 5 proposed irreversible. */
  lemma WrappedRangeDefeatsQuorum() returns (states: seq<State>, headers: seq<Header>)
    ensures IsBranch(states, headers) && |headers| == 6 && states[0] == Genesis(1, 0, 1)
    ensures forall i | 0 <= i < |headers| :: !headers[i].standby && ScheduleBounded(headers[i])
    ensures states[3].c.active == states[4].c.active == states[5].c.active == FOUR
    ensures states[6].c.proposed != states[5].c.proposed && ProposedAt(states, 5) == 3
    ensures Confirmers(Votes(states, headers), 3) == {1}
  {
    hide *;
    var h5, h6, h7 := Block(5, 4, 1, 20, 1), Block(6, 5, 1, 20, 1), Block(7, 6, 1, 20, 1);
    var s5, s6, s7 := Runaway(5, 4, [2]), Runaway(6, 4, [1, 2]), Runaway(7, 5, [1, 2]);
    states, headers := Beginning();
    RunawayBlocks();
    RunawayFacts();
    Extended(states, headers, h5, s5);
    states, headers := states + [s5], headers + [h5];
    Extended(states, headers, h6, s6);
    states, headers := states + [s6], headers + [h6];
    Extended(states, headers, h7, s7);
    states, headers := states + [s7], headers + [h7];
    RunawayEnds(states, headers);
  }

  lemma RunawayFacts()
    ensures Runaway(4, 4, []) == L4
    ensures MadeByOne(Block(5, 4, 1, 20, 1)) && MadeByOne(Block(6, 5, 1, 20, 1)) && MadeByOne(Block(7, 6, 1, 20, 1))
  {
  }

  lemma RunawayEnds(states: seq<State>, headers: seq<Header>)
    requires |headers| == 6 && |states| == 7 && states[0] == Genesis(1, 0, 1)
    requires states[3] == Runaway(4, 4, []) && states[4] == Runaway(5, 4, [2])
    requires states[5] == Runaway(6, 4, [1, 2]) && states[6] == Runaway(7, 5, [1, 2])
    requires forall i | 0 <= i < |headers| :: MadeByOne(headers[i])
    ensures forall i | 0 <= i < |headers| :: !headers[i].standby && ScheduleBounded(headers[i])
    ensures states[3].c.active == states[4].c.active == states[5].c.active == FOUR
    ensures states[6].c.proposed != states[5].c.proposed && ProposedAt(states, 5) == 3
    ensures Confirmers(Votes(states, headers), 3) == {1}
  {
    hide Tables, ScheduleBounded;
    var votes := Votes(states, headers);
    assert forall j | 0 <= j < |votes| :: votes[j].producer == headers[j].producer == 1;
    assert Covers(votes, 3, 3);
  }

  // ---------------------------------------------------------------- a drop after a promotion

  const WAITING := PendingSchedule(5, TWO)

  /** The state after block num, made by producer 1, 2 or 3 while producer 4 lags behind. */
  function Lagging(num: nat, slot: nat, proposed: nat, produced: map<Name, nat>, a: nat, b: nat, c: nat,
      counts: seq<int>): State
  {
    At(num, slot, proposed, c, produced, Tables(a, b, c, 3), counts, WAITING)
  }

  const L5 := Lagging(5, 4, 4, Tables(5, 3, 3, 3), 4, 3, 3, [2])
  const L6 := Lagging(6, 12, 4, Tables(5, 6, 3, 3), 4, 4, 3, [1, 2])
  const L7 := Lagging(7, 24, 5, Tables(5, 6, 7, 3), 4, 4, 4, [1, 2])
  const L8 := Lagging(8, 48, 5, Tables(8, 6, 7, 3), 5, 4, 4, [1, 2, 2])
  const L9 := Lagging(9, 60, 5, Tables(8, 9, 7, 3), 5, 5, 4, [1, 2, 2, 2])
  const L10 := State(Common(10, 5, 5, TWO, map[3 := 10, 4 := 3, 5 := 5], map[4 := 3, 5 := 5], [1, 2, 2, 2, 2], false, None),
                     10, 72, PendingSchedule(5, Schedule(2, [])))
  const L11 := State(Common(11, 5, 3, TWO, map[3 := 10, 4 := 3, 5 := 11], map[4 := 3, 5 := 5], [1, 2, 2, 2, 2, 1], false, None),
                     11, 84, PendingSchedule(5, Schedule(2, [])))

  lemma Block5()
    ensures Step(L4, Block(5, 4, 1, 0, 1).(newProducers := Some(TWO)), L5)
    ensures Modest(Block(5, 4, 1, 0, 1).(newProducers := Some(TWO)))
  {
    hide Tables, Counts, Fits, Step;
    var h := Block(5, 4, 1, 0, 1).(newProducers := Some(TWO));
    ThreeVotes(L4, h);
    TablesSet(4, 3, 3, 3, 5);
    TablesSet(3, 3, 3, 3, 4);
    FourFits(L4, h);
    FourStep(L4, h, 4, 3, 3, 3, [2], 4, L5);
  }

  lemma Block6()
    ensures Step(L5, Block(6, 12, 2, 1, 1), L6) && Modest(Block(6, 12, 2, 1, 1))
  {
    hide Tables, Counts, Fits, Step;
    var h := Block(6, 12, 2, 1, 1);
    ThreeVotes(L5, h);
    TablesSet(5, 3, 3, 3, 6);
    TablesSet(4, 3, 3, 3, 4);
    FourFits(L5, h);
    FourStep(L5, h, 4, 4, 3, 3, [1, 2], 4, L6);
  }

  lemma Block7()
    ensures Step(L6, Block(7, 24, 3, 2, 1), L7) && Modest(Block(7, 24, 3, 2, 1))
  {
    hide Tables, Counts, Fits, Step;
    var h := Block(7, 24, 3, 2, 1);
    ThreeVotes(L6, h);
    TablesSet(5, 6, 3, 3, 7);
    TablesSet(4, 4, 3, 3, 4);
    FourFits(L6, h);
    FourStep(L6, h, 4, 4, 4, 3, [1, 2], 5, L7);
  }

  lemma Block8()
    ensures Step(L7, Block(8, 48, 1, 0, 1), L8) && Modest(Block(8, 48, 1, 0, 1))
  {
    hide Tables, Counts, Fits, Step;
    var h := Block(8, 48, 1, 0, 1);
    OneVote(L7, h);
    TablesSet(5, 6, 7, 3, 8);
    TablesSet(4, 4, 4, 3, 5);
    FourFits(L7, h);
    assert [1, 2] + [2] == [1, 2, 2];
    FourStep(L7, h, 5, 4, 4, 3, [1, 2, 2], 5, L8);
  }

  lemma Block9()
    ensures Step(L8, Block(9, 60, 2, 0, 1), L9) && Modest(Block(9, 60, 2, 0, 1))
  {
    hide Tables, Counts, Fits, Step;
    var h := Block(9, 60, 2, 0, 1);
    OneVote(L8, h);
    TablesSet(8, 6, 7, 3, 9);
    TablesSet(5, 4, 4, 3, 5);
    FourFits(L8, h);
    assert [1, 2, 2] + [2] == [1, 2, 2, 2];
    FourStep(L8, h, 5, 5, 4, 3, [1, 2, 2, 2], 5, L9);
  }

  lemma TwoCarried(produced: map<Name, nat>, implied: map<Name, nat>)
    requires 4 in produced && 5 !in produced && produced[4] == 3 && 4 in implied && 5 !in implied && implied[4] == 3
    ensures Carried([4, 5], produced, 5)[3 := 10] == map[3 := 10, 4 := 3, 5 := 5]
    ensures Carried([4, 5], implied, 5) == map[4 := 3, 5 := 5]
  {
  }

  lemma Lib10(c: Common)
    requires c.lastImplied == Tables(5, 5, 4, 3) && c.proposed == 5
    ensures LastIrreversible(ImpliedWith(c, 3)) == 5
  {
    assert ImpliedWith(c, 3) == Tables(5, 5, 5, 3);
    LibFour(5, 5, 5, 3);
  }

  /** Block 5 is irreversible now, and the schedule it announced becomes active. */
  lemma Block10()
    ensures Step(L9, Block(10, 72, 3, 0, 1), L10) && Modest(Block(10, 72, 3, 0, 1))
  {
    hide Tables, Counts, Fits, Step, Carried, LastIrreversible, ImpliedWith;
    var h := Block(10, 72, 3, 0, 1);
    OneVote(L9, h);
    assert [1, 2, 2, 2] + [2] == [1, 2, 2, 2, 2];
    TablesSet(8, 9, 7, 3, 10);
    FourFits(L9, h);
    Lib10(L9.c);
    TablesSet(5, 5, 4, 3, 5);
    TwoCarried(L9.c.lastProduced, L9.c.lastImplied);
    PromotingStep(L9, h, 5, [1, 2, 2, 2, 2], 5, L10);
  }

  lemma Lib11(c: Common)
    requires c.lastImplied == map[4 := 3, 5 := 5] && c.proposed == 5
    ensures LastIrreversible(ImpliedWith(c, 5)) == 3
  {
    var implied := ImpliedWith(c, 5);
    assert implied == map[4 := 3, 5 := 5];
    assert implied.Keys == {4, 5} && |implied| == |implied.Keys| == 2;
    LibIs(implied, 3, {4, 5}, {5});
  }

  /** The first block of producer 5; producer 4 still implies block 3. */
  lemma Block11()
    ensures Step(L10, Block(11, 84, 5, 0, 2), L11) && Modest(Block(11, 84, 5, 0, 2))
  {
    var h := Block(11, 84, 5, 0, 2);
    OneVote(L10, h);
    assert Fits(L10, h);
    hide Counts, Fits, Step, LastIrreversible, ImpliedWith;
    Lib11(L10.c);
    assert map[3 := 10, 4 := 3, 5 := 5][5 := 11] == map[3 := 10, 4 := 3, 5 := 11];
    assert map[4 := 3, 5 := 5][5 := 5] == map[4 := 3, 5 := 5];
    PlainStep(L10, h, 3, [1, 2, 2, 2, 2, 1], 5, L11);
  }

  lemma ExtendedBy(states: seq<State>, headers: seq<Header>, h: Header, s': State)
    returns (longer: seq<State>, more: seq<Header>)
    requires IsBranch(states, headers) && |states| > 0 && Step(states[|states|-1], h, s') && Modest(h)
    requires forall i | 0 <= i < |headers| :: Modest(headers[i])
    ensures IsBranch(longer, more) && longer == states + [s'] && |more| == |headers| + 1
    ensures forall i | 0 <= i < |more| :: Modest(more[i])
  {
    hide Step, Modest;
    Extended(states, headers, h, s');
    longer, more := states + [s'], headers + [h];
  }

  /** Blocks 5 to 11 after the common beginning. */
  lemma LaggingRun() returns (states: seq<State>, headers: seq<Header>)
    ensures IsBranch(states, headers) && |headers| == 10 && |states| == 11 && states[0] == Genesis(1, 0, 1)
    ensures states[8] == L9 && states[9] == L10 && states[10] == L11
    ensures forall i | 0 <= i < |headers| :: Modest(headers[i])
  {
    hide *;
    states, headers := Beginning();
    Block5();
    states, headers := ExtendedBy(states, headers, Block(5, 4, 1, 0, 1).(newProducers := Some(TWO)), L5);
    Block6();
    states, headers := ExtendedBy(states, headers, Block(6, 12, 2, 1, 1), L6);
    Block7();
    states, headers := ExtendedBy(states, headers, Block(7, 24, 3, 2, 1), L7);
    Block8();
    states, headers := ExtendedBy(states, headers, Block(8, 48, 1, 0, 1), L8);
    Block9();
    states, headers := ExtendedBy(states, headers, Block(9, 60, 2, 0, 1), L9);
    Block10();
    states, headers := ExtendedBy(states, headers, Block(10, 72, 3, 0, 1), L10);
    Block11();
    states, headers := ExtendedBy(states, headers, Block(11, 84, 5, 0, 2), L11);
  }

  lemma ModestIsRegular(states: seq<State>, headers: seq<Header>)
    requires IsBranch(states, headers) && states[0] == Genesis(1, 0, 1)
    requires forall i | 0 <= i < |headers| :: Modest(headers[i])
    ensures Regular(states, headers)
  {
    GenesisInvariant(1, 0, 1);
    InvariantOnBranch(states, headers);
    forall i | 0 <= i < |states| ensures !states[i].c.standby {
      if i > 0 { StandbyOf(states[i-1], headers[i-1], states[i]); }
    }
    hide Step, Invariant;
    forall i | 0 <= i < |headers| ensures headers[i].confirmed <= states[i].c.blockNum + 1 {
      assert Modest(headers[i]);
    }
  }

  lemma StandbyOf(s: State, h: Header, s': State)
    requires Step(s, h, s')
    ensures s'.c.standby == h.standby
  {
    hide NextCommon, NextLib, Promotes, ScheduledProducer, ConfirmRangeAllowed;
  }

  /** The irreversible number can drop after a promotion, on a branch whose votes are all in order.
      Producers 1 to 3 make block 5 irreversible while producer 4 lags behind; the schedule announced
      there keeps 4 and adds 5, and the first block of 5 reports number 3 again. */
  lemma LibDropsAfterPromotion() returns (states: seq<State>, headers: seq<Header>)
    ensures Regular(states, headers) && |headers| == 10 && states[0] == Genesis(1, 0, 1)
    ensures states[8].c.active == FOUR && states[9].c.active == states[10].c.active == TWO
    ensures states[9].c.lib == 5 && states[10].c.lib == 3
  {
    states, headers := LaggingRun();
    hide Regular, IsBranch, Tables, Modest;
    ModestIsRegular(states, headers);
  }
}
