/** Exactly which headers are accepted, and what the accepted ones leave, in terms of the header and the
    state before it alone. */
module HeaderLaws {
  import opened Basics
  import opened HeaderState
  import opened Consensus

  // ---------------------------------------------------------------- who owns a slot

  lemma ModUnique(x: int, m: int, a: int, c: int)
    requires x == m * a + c && 0 <= c < m
    ensures x % m == c
  {
    var q, r := x / m, x % m;
    assert x == m * q + r && 0 <= r < m;
    assert m * (a - q) == r - c;
    if a > q {
      AtLeastOne(m, a - q);
    } else if a < q {
      assert m * (q - a) == c - r;
      AtLeastOne(m, q - a);
    }
  }

  lemma AtLeastOne(m: int, k: int)
    requires m > 0 && k >= 1
    ensures m * k >= m
  {
  }

  lemma Regroup(n: int, a: int, b: int)
    ensures 12 * (n * a + b) == (n * 12) * a + 12 * b
  {
  }

  /** Twelve slots in a row belong to one producer, the next twelve to the next one, and so on around. */
  lemma SlotOwner(schedule: Schedule, slot: nat)
    requires schedule.producers != []
    ensures ScheduledProducer(schedule, slot) == schedule.producers[slot / 12 % |schedule.producers|]
  {
    var n, turn := |schedule.producers|, slot / 12;
    var a, b, c := turn / n, turn % n, slot % 12;
    assert turn == n * a + b && slot == 12 * turn + c;
    Regroup(n, a, b);
    assert slot == (n * 12) * a + (12 * b + c);
    assert 12 * b + c < n * 12;
    ModUnique(slot, n * 12, a, 12 * b + c);
    assert (12 * b + c) / 12 == b;
  }

  // ---------------------------------------------------------------- acceptance

  /** The irreversible number that a block of producer p reports on top of s. */
  ghost predicate Reports(s: State, p: Name, lib: nat) {
    if s.c.lastImplied == map[] then lib == 0
    else GreatestBacked(map q | q in s.c.lastImplied :: if q == p then s.c.proposed else s.c.lastImplied[q], lib)
  }

  /** The pending schedule becomes active: its block is irreversible, or a standby block was reached. */
  ghost predicate Due(s: State, lib: nat) {
    && s.pending.schedule.producers != []
    && (s.pending.libNum <= lib
        || (s.c.standby && s.c.standbyBlockNum.Some? && s.c.standbyBlockNum.value <= s.c.blockNum))
  }

  /** The blocks that the header confirms lie above the last one of its producer, in 32-bit arithmetic. */
  ghost predicate RangeFree(s: State, h: Header) {
    h.producer in s.c.lastProduced ==>
      if h.confirmed <= s.c.blockNum + 1 then s.c.lastProduced[h.producer] + h.confirmed < s.c.blockNum + 1
      else s.c.lastProduced[h.producer] + h.confirmed < s.c.blockNum + 1 + 0x1_0000_0000
  }

  /** It links to its parent, lies in the future, is made by the owner of its slot and names the active
      schedule. */
  ghost predicate Links(s: State, h: Header) {
    && s.c.active.producers != [] && h.previous == s.id && s.slot < h.slot
    && h.producer == s.c.active.producers[h.slot / 12 % |s.c.active.producers|]
    && h.scheduleVersion == s.c.active.version
  }

  /** A new schedule may be announced: no promotion in the same block, and without standby scheduling the
      next version and none pending. */
  ghost predicate MayAnnounce(s: State, h: Header, lib: nat) {
    h.newProducers.Some? ==>
      && (Due(s, lib) ==> s.c.standby)
      && (h.standby || (s.pending.schedule.producers == [] && h.newProducers.value.version == s.c.active.version + 1))
  }

  lemma ReportsNext(s: State, p: Name)
    ensures Reports(s, p, NextLib(s, p)) && forall lib: nat | Reports(s, p, lib) :: lib == NextLib(s, p)
  {
    var implied := ImpliedWith(s.c, p);
    if s.c.lastImplied == map[] {
      assert implied == map[];
    } else {
      assert implied == map q | q in s.c.lastImplied :: if q == p then s.c.proposed else s.c.lastImplied[q];
      assert implied.Keys == s.c.lastImplied.Keys;
      hide LastIrreversible;
      assert GreatestBacked(implied, LastIrreversible(implied));
    }
  }

  lemma DuePromotes(s: State, p: Name, lib: nat)
    requires Reports(s, p, lib)
    ensures Promotes(s, p) <==> Due(s, lib)
  {
    ReportsNext(s, p);
    hide NextLib, Reports;
  }

  /** A header is accepted if and only if it links, its range is free, and it may announce what it
      announces. */
  lemma AcceptedExactly(s: State, h: Header, lib: nat)
    requires s.c.active.producers != [] && Reports(s, h.producer, lib)
    ensures NextBlock(s, h).Success? <==> Links(s, h) && RangeFree(s, h) && MayAnnounce(s, h, lib)
  {
    SlotOwner(s.c.active, h.slot);
    DuePromotes(s, h.producer, lib);
    hide NextLib, Reports, ScheduledProducer, Promotes, NextProposed, NextConfirmation, Carried;
  }

  // ---------------------------------------------------------------- the state an accepted header leaves

  /** The number kept for each producer of a schedule that became active: what was known, or the
      irreversible number for a newcomer. */
  ghost predicate CarriedOver(known: map<Name, nat>, lib: nat, now: map<Name, nat>, p: Name, own: nat) {
    forall q | q in now :: now[q] == if q == p then own else if q in known then known[q] else lib
  }

  /** The producer tables after a block of h that reports lib. */
  ghost predicate TablesAfter(s: State, h: Header, lib: nat, s': State) {
    if Due(s, lib) then
      var producers := s.pending.schedule.producers;
      && s'.c.active == s.pending.schedule
      && s'.c.lastProduced.Keys == (set q | q in producers) + {h.producer}
      && s'.c.lastImplied.Keys == (set q | q in producers)
      && CarriedOver(s.c.lastProduced, lib, s'.c.lastProduced, h.producer, s.c.blockNum + 1)
      && CarriedOver(s.c.lastImplied, lib, s'.c.lastImplied, h.producer, s.c.proposed)
    else
      && s'.c.active == s.c.active
      && s'.c.lastProduced == s.c.lastProduced[h.producer := s.c.blockNum + 1]
      && s'.c.lastImplied == s.c.lastImplied[h.producer := s.c.proposed]
  }

  /** The pending schedule after it: the announced one, an empty one after a promotion, or the same. */
  ghost predicate PendingAfter(s: State, h: Header, lib: nat, s': State) {
    && (h.newProducers.Some? ==> s'.pending == PendingSchedule(s.c.blockNum + 1, h.newProducers.value))
    && (h.newProducers.None? && Due(s, lib) && !s.c.standby ==>
          s'.pending.schedule.producers == [] && s'.pending.schedule.version == s.pending.schedule.version
          && s'.pending.libNum == s.pending.libNum)
    && (h.newProducers.None? && !(Due(s, lib) && !s.c.standby) ==> s'.pending == s.pending)
  }

  lemma AcceptedState(s: State, h: Header, s': State, lib: nat)
    requires Step(s, h, s') && Reports(s, h.producer, lib)
    ensures s'.id == h.id && s'.slot == h.slot && s'.c.blockNum == s.c.blockNum + 1 && s'.c.lib == lib
    ensures s'.c.standby == h.standby && s'.c.standbyBlockNum == h.standbyBlockNum
    ensures TablesAfter(s, h, lib, s') && PendingAfter(s, h, lib, s')
  {
    DuePromotes(s, h.producer, lib);
    ReportsNext(s, h.producer);
    hide Reports, ScheduledProducer, Promotes, NextLib, NextProposed, NextConfirmation, ConfirmRangeAllowed, Due;
  }

  /** Of the list g the newest `many` entries are confirmed, which leaves `now`: each of those entries
      drops by one, as a byte, and everything up to the last one that drops to zero is cut off. */
  ghost predicate ConfirmedNewest(g: seq<int>, many: nat, now: seq<int>) {
    var d, from := |g| - |now|, |g| - many;
    && 0 <= d && (d > 0 ==> from < d && g[d-1] == 1)
    && forall t | 0 <= t < |now| :: DropsTo(g[d+t], d + t >= from, now[t])
  }

  ghost predicate DropsTo(was: int, confirmed: bool, now: int) {
    if confirmed then was != 1 && now == (if was == 0 then 255 else was - 1) else now == was
  }

  /** The counters and the proposed number after it: the new block joins the list with the quorum it
      needs, of at most 1024 blocks; those confirmed need one less; and if one of them needs none, it is
      the proposed one. */
  lemma AcceptedCounters(s: State, h: Header, s': State)
    requires Step(s, h, s') && s.c.proposed + |s.c.confirmCount| <= s.c.blockNum
    ensures var quorum := (|s.c.active.producers| * 2 / 3 + 1) % 256;
            var g := (if |s.c.confirmCount| < 1024 then s.c.confirmCount else s.c.confirmCount[1..]) + [quorum];
            && ConfirmedNewest(g, h.confirmed + 1, s'.c.confirmCount)
            && s'.c.proposed == if |s'.c.confirmCount| == |g| then s.c.proposed else s.c.blockNum + 1 - |s'.c.confirmCount|
  {
    hide ConfirmedNewest, Step, NextConfirmation, NextProposed, Confirm;
    StepCounters(s, h, s');
    var quorum := (|s.c.active.producers| * 2 / 3 + 1) % 256;
    var g := (if |s.c.confirmCount| < 1024 then s.c.confirmCount else s.c.confirmCount[1..]) + [quorum];
    assert g == Grown(s.c.confirmCount, Byte(Quorum(|s.c.active.producers|)));
    CountersOf(g, h.confirmed + 1);
    ProposedOf(s.c, h.confirmed, g);
  }

  lemma StepCounters(s: State, h: Header, s': State)
    requires Step(s, h, s')
    ensures s'.c.confirmCount == NextConfirmation(s.c, h.confirmed).counts && s'.c.proposed == NextProposed(s.c, h.confirmed)
  {
    hide NextConfirmation, NextProposed, NextLib, Promotes, ScheduledProducer, ConfirmRangeAllowed, Carried;
  }

  lemma CountersOf(g: seq<int>, many: nat)
    ensures ConfirmedNewest(g, many, Confirm(g, many).counts)
    ensures |Confirm(g, many).counts| <= |g|
    ensures var c := Confirm(g, many);
            c.ready == if |c.counts| == |g| then None else Some(|g| - |c.counts| - 1)
  {
    hide Confirm, ConfirmedAt, ConfirmedNewest;
    ConfirmAt(g, many);
    NewestOf(g, many, Confirm(g, many));
  }

  lemma NewestOf(g: seq<int>, many: nat, c: Confirmation)
    requires ConfirmedAt(g, many, c)
    ensures ConfirmedNewest(g, many, c.counts) && |c.counts| <= |g|
    ensures c.ready == if |c.counts| == |g| then None else Some(|g| - |c.counts| - 1)
  {
    var d, from := |g| - |c.counts|, |g| - many;
    assert 0 <= d && (d > 0 ==> c.ready.Some?);
    assert d > 0 ==> Decrement(g[d-1]) == 0;
    forall t | 0 <= t < |c.counts| ensures DropsTo(g[d+t], d + t >= from, c.counts[t]) {
      assert c.counts[t] == if d + t >= from then Decrement(g[d+t]) else g[d+t];
    }
  }

  lemma ProposedOf(c: Common, confirmed: nat, g: seq<int>)
    requires g == Grown(c.confirmCount, Byte(Quorum(|c.active.producers|)))
    requires c.proposed + |c.confirmCount| <= c.blockNum
    ensures var r := Confirm(g, confirmed + 1);
            && NextConfirmation(c, confirmed) == r
            && NextProposed(c, confirmed) == if r.ready.None? then c.proposed else c.blockNum + 1 - |r.counts|
  {
    CountersOf(g, confirmed + 1);
    hide Confirm;
  }

  /** On every branch each header links to the block before it, and slots and numbers rise. */
  lemma BranchLinks(states: seq<State>, headers: seq<Header>, i: nat)
    requires IsBranch(states, headers) && i < |headers|
    ensures Links(states[i], headers[i]) && RangeFree(states[i], headers[i])
    ensures states[i+1].id == headers[i].id && states[i].slot < states[i+1].slot == headers[i].slot
    ensures states[i+1].c.blockNum == states[i].c.blockNum + 1
    ensures i + 1 < |headers| ==> headers[i+1].previous == headers[i].id
  {
    hide NextBlock, Reports;
    var s, h := states[i], headers[i];
    assert Step(s, h, states[i+1]);
    ReportsNext(s, h.producer);
    AcceptedExactly(s, h, NextLib(s, h.producer));
    AcceptedState(s, h, states[i+1], NextLib(s, h.producer));
    if i + 1 < |headers| {
      var s1, h1 := states[i+1], headers[i+1];
      assert Step(s1, h1, states[i+2]);
      ReportsNext(s1, h1.producer);
      AcceptedExactly(s1, h1, NextLib(s1, h1.producer));
    }
  }

  /** So the time slots of a branch rise strictly. */
  lemma {:induction false} SlotsRise(states: seq<State>, headers: seq<Header>, i: nat, j: nat)
    requires IsBranch(states, headers) && i < j < |states|
    ensures states[i].slot < states[j].slot && states[j].c.blockNum == states[i].c.blockNum + (j - i)
    decreases j
  {
    hide IsBranch, Links, RangeFree;
    if i < j - 1 { SlotsRise(states, headers, i, j - 1); }
    BranchLength(states, headers);
    BranchLinks(states, headers, j - 1);
  }

  lemma BranchLength(states: seq<State>, headers: seq<Header>)
    requires IsBranch(states, headers)
    ensures |states| == |headers| + 1
  {
  }

  // ---------------------------------------------------------------- refusals

  /** The reason given is the first check that fails. */
  lemma RefusalReasons(s: State, h: Header)
    requires s.c.active.producers != []
    ensures NextBlock(s, h) == Failure(NotInTheFuture) <==> 0 < h.slot <= s.slot
    ensures s.slot < h.slot ==>
              var owner := s.c.active.producers[h.slot / 12 % |s.c.active.producers|];
              && (NextBlock(s, h) == Failure(DoubleConfirm) <==> !RangeFree(s, h.(producer := owner)))
              && (RangeFree(s, h.(producer := owner)) ==>
                    && (NextBlock(s, h) == Failure(PreviousMismatch) <==> h.previous != s.id)
                    && (h.previous == s.id ==>
                          && (NextBlock(s, h) == Failure(WrongProducer) <==> h.producer != owner)
                          && (h.producer == owner ==>
                                (NextBlock(s, h) == Failure(WrongScheduleVersion)
                                 <==> h.scheduleVersion != s.c.active.version))))
    ensures h.slot == 0 ==> NextBlock(s, h) in {Failure(DoubleConfirm), Failure(TimestampMismatch)}
  {
    SlotOwner(s.c.active, h.slot);
    hide NextCommon, ScheduledProducer, Promotes, NextLib;
  }
}
