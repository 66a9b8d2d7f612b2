/** The consensus step of the chain: from the header state of one block to that of the next.
    Models libraries/chain/block_header_state.cpp. Signatures, hashes and the block-root merkle
    tree are left abstract; block ids are opaque numbers. */
module HeaderState {
  import opened Basics
  import opened Selection

  const PRODUCER_REPETITIONS: nat := 12
  const MAX_PRODUCERS: nat := 125
  const MAX_TRACKED_CONFIRMATIONS: nat := 1024

  datatype Error =
    | NotInTheFuture | DoubleConfirm | TimestampMismatch | PreviousMismatch | ConfirmedMismatch
    | WrongProducer | WrongScheduleVersion | PromotedInSameBlock | WrongNewVersion | PendingExists

  datatype Result<+T> = Success(value: T) | Failure(error: Error)

  datatype Schedule = Schedule(version: nat, producers: seq<Name>)

  /** A schedule waiting to become active, and the number of the block that announced it. */
  datatype PendingSchedule = PendingSchedule(libNum: nat, schedule: Schedule)

  datatype Common = Common(
    blockNum: nat,
    proposed: nat,                  // dpos_proposed_irreversible_blocknum
    lib: nat,                       // dpos_irreversible_blocknum
    active: Schedule,
    lastProduced: map<Name, nat>,   // producer_to_last_produced
    lastImplied: map<Name, nat>,    // producer_to_last_implied_irb
    confirmCount: seq<int>,         // one byte per tracked block, the newest last
    standby: bool,
    standbyBlockNum: Option<nat>)

  datatype State = State(c: Common, id: nat, slot: nat, pending: PendingSchedule)

  datatype NextState = NextState(
    c: Common, prevPending: PendingSchedule, promoted: bool, previous: nat,
    producer: Name, slot: nat, activeVersion: nat, confirmed: nat)

  datatype Header = Header(
    id: nat, slot: nat, producer: Name, confirmed: nat, previous: nat, scheduleVersion: nat,
    newProducers: Option<Schedule>, standby: bool, standbyBlockNum: Option<nat>)

  // ---------------------------------------------------------------- schedule and quorum

  function ScheduledProducer(schedule: Schedule, slot: nat): (p: Name)
    requires schedule.producers != []
    ensures p in schedule.producers
  {
    var index := slot % (|schedule.producers| * PRODUCER_REPETITIONS);
    schedule.producers[index / PRODUCER_REPETITIONS]
  }

  function Quorum(n: nat): nat { n * 2 / 3 + 1 }

  function Byte(n: nat): nat { n % 256 }

  // ---------------------------------------------------------------- last irreversible block

  ghost function Backers(implied: map<Name, nat>, v: nat): set<Name> {
    set p | p in implied && implied[p] >= v
  }

  /** At least floor(2n/3)+1 of the n tracked producers imply that block v is irreversible. */
  ghost predicate Backed(implied: map<Name, nat>, v: nat) {
    |Backers(implied, v)| >= Quorum(|implied|)
  }

  ghost predicate GreatestBacked(implied: map<Name, nat>, v: nat) {
    Backed(implied, v) && forall w: nat | Backed(implied, w) :: w <= v
  }

  lemma BackedAntitone(implied: map<Name, nat>, v: nat, w: nat)
    requires v <= w && Backed(implied, w)
    ensures Backed(implied, v)
  {
    SubsetSize(Backers(implied, w), Backers(implied, v));
  }

  lemma {:induction false} SubsetSize<T>(a: set<T>, b: set<T>)
    requires a <= b
    ensures |a| <= |b|
  {
    if a != {} {
      var x :| x in a;
      SubsetSize(a - {x}, b - {x});
    }
  }

  lemma GreatestBackedBy(implied: map<Name, nat>, v: nat)
    requires Backed(implied, v) && !Backed(implied, v + 1)
    ensures GreatestBacked(implied, v)
  {
    forall w: nat | Backed(implied, w) ensures w <= v {
      if w > v { BackedAntitone(implied, v + 1, w); }
    }
  }

  lemma ZeroBacked(implied: map<Name, nat>)
    requires |implied| > 0
    ensures Backed(implied, 0)
  {
    assert Backers(implied, 0) == implied.Keys;
  }

  /** Counting up from a backed number, the backers run out before the counter passes every value. */
  lemma {:induction false} GreatestBackedExists(implied: map<Name, nat>, v: nat, bound: nat)
    requires Backed(implied, v) && v <= bound
    requires forall p | p in implied :: implied[p] < bound
    ensures exists w: nat :: GreatestBacked(implied, w)
    decreases bound - v
  {
    assert v == bound ==> Backers(implied, v) == {};
    if Backed(implied, v + 1) {
      GreatestBackedExists(implied, v + 1, bound);
    } else {
      GreatestBackedBy(implied, v);
    }
  }

  lemma {:induction false} BoundExists(implied: map<Name, nat>) returns (bound: nat)
    ensures forall p | p in implied :: implied[p] < bound
  {
    if implied == map[] {
      bound := 0;
    } else {
      var k :| k in implied;
      var rest := implied - {k};
      var b := BoundExists(rest);
      bound := if implied[k] < b then b else implied[k] + 1;
      forall p | p in implied ensures implied[p] < bound {
        if p != k { assert p in rest; }
      }
    }
  }

  /** What the next block reports as irreversible: the greatest number that a quorum of the
      tracked producers implies, or zero when none is tracked. */
  ghost function LastIrreversible(implied: map<Name, nat>): (v: nat)
    ensures implied != map[] ==> GreatestBacked(implied, v)
  {
    if implied == map[] then 0 else
      assert exists w: nat :: GreatestBacked(implied, w) by {
        assert |implied| > 0;
        var bound := BoundExists(implied);
        ZeroBacked(implied);
        GreatestBackedExists(implied, 0, bound);
      }
      var v: nat :| GreatestBacked(implied, v);
      v
  }

  /** The implied numbers with the producer of the next block moved up to the proposed one,
      provided that producer is tracked. */
  function ImpliedWith(c: Common, producer: Name): map<Name, nat> {
    map p | p in c.lastImplied :: if p == producer then c.proposed else c.lastImplied[p]
  }

  /** nums lists the implied numbers of the producers in done, in some order. */
  ghost predicate Collected(implied: map<Name, nat>, done: set<Name>, nums: seq<nat>) {
    |nums| == |done| && forall w: nat :: |done * Backers(implied, w)| == CountGe(nums, w)
  }

  lemma CollectNone(implied: map<Name, nat>)
    ensures Collected(implied, {}, [])
  {
    assert forall w: nat :: {} * Backers(implied, w) == {};
  }

  lemma CollectOne(implied: map<Name, nat>, done: set<Name>, nums: seq<nat>, p: Name)
    requires Collected(implied, done, nums) && p in implied && p !in done
    ensures Collected(implied, done + {p}, nums + [implied[p]])
  {
    forall w: nat
      ensures |(done + {p}) * Backers(implied, w)| == CountGe(nums + [implied[p]], w)
    {
      CountGeConcat(nums, [implied[p]], w);
      var before := done * Backers(implied, w);
      assert (done + {p}) * Backers(implied, w) ==
        if implied[p] >= w then before + {p} else before;
    }
  }

  /** One third into the numbers sorted upwards lies the greatest number a quorum reaches. */
  lemma {:induction false} NthIsLastIrreversible(implied: map<Name, nat>, nums: seq<nat>, r: seq<nat>)
    requires implied != map[] && Collected(implied, implied.Keys, nums)
    requires Rearranged(nums, r) && |nums| > 0
    requires var k := (|nums| - 1) / 3;
             && (forall i | 0 <= i < k :: r[i] <= r[k])
             && (forall i | k < i < |r| :: r[k] <= r[i])
    ensures r[(|nums| - 1) / 3] == LastIrreversible(implied)
  {
    var k := (|nums| - 1) / 3;
    var v := r[k];
    NthCounts(r, k);
    assert implied.Keys * Backers(implied, v) == Backers(implied, v);
    assert implied.Keys * Backers(implied, v + 1) == Backers(implied, v + 1);
    assert CountGe(r, v) == CountGe(nums, v) && CountGe(r, v + 1) == CountGe(nums, v + 1);
    assert |nums| - k == Quorum(|nums|) && |nums| == |implied|;
    GreatestBackedBy(implied, v);
  }

  lemma CollectedSize(implied: map<Name, nat>, done: set<Name>, nums: seq<nat>)
    requires Collected(implied, done, nums) && done == implied.Keys
    ensures |nums| == |implied|
  {
  }

  lemma NothingTracked(implied: map<Name, nat>)
    requires |implied| == 0
    ensures LastIrreversible(implied) == 0
  {
  }

  method CalcDposLastIrreversible(c: Common, producer: Name) returns (v: nat)
    ensures v == LastIrreversible(ImpliedWith(c, producer))
  {
    var nums: seq<nat> := [];
    var keys := c.lastImplied.Keys;
    ghost var implied := ImpliedWith(c, producer);
    ghost var done: set<Name> := {};
    CollectNone(implied);
    hide Collected, LastIrreversible, Rearranged;
    while keys != {}
      invariant done + keys == implied.Keys && done !! keys
      invariant Collected(implied, done, nums)
      decreases keys
    {
      var p :| p in keys;
      CollectOne(implied, done, nums, p);
      nums := nums + [if p == producer then c.proposed else c.lastImplied[p]];
      done := done + {p};
      keys := keys - {p};
    }
    assert done == implied.Keys;
    CollectedSize(implied, done, nums);
    if |nums| == 0 {
      NothingTracked(implied);
      return 0;
    }
    var index := (|nums| - 1) / 3;
    var r := NthElement(nums, index);
    RearrangedSize(nums, r);
    v := r[index];
    NthIsLastIrreversible(implied, nums, r);
  }

  // ---------------------------------------------------------------- confirmation counters

  function Decrement(count: int): int { if count == 0 then 255 else count - 1 }

  function DecrementAll(counts: seq<int>): (r: seq<int>)
    ensures |r| == |counts|
  {
    seq(|counts|, i requires 0 <= i < |counts| => Decrement(counts[i]))
  }

  /** The counter list with room made for the new block. */
  function Grown(counts: seq<int>, required: int): seq<int> {
    if |counts| < MAX_TRACKED_CONFIRMATIONS then counts + [required]
    else counts[1..] + [required]
  }

  datatype Confirmation = Confirmation(counts: seq<int>, ready: Option<nat>)

  /** The highest position in [lo, hi) whose counter drops to zero. */
  function HighestReady(counts: seq<int>, lo: nat, hi: nat): (r: Option<nat>)
    requires lo <= hi <= |counts|
    ensures r.Some? ==> lo <= r.value < hi
    decreases hi
  {
    if lo == hi then None
    else if Decrement(counts[hi-1]) == 0 then Some(hi - 1)
    else HighestReady(counts, lo, hi - 1)
  }

  lemma {:induction false} HighestReadyFacts(counts: seq<int>, lo: nat, hi: nat)
    requires lo <= hi <= |counts|
    ensures var r := HighestReady(counts, lo, hi);
            && (r.Some? ==> Decrement(counts[r.value]) == 0)
            && (forall j | (if r.Some? then r.value < j else lo <= j) && j < hi ::
                  Decrement(counts[j]) != 0)
    decreases hi
  {
    if lo < hi { HighestReadyFacts(counts, lo, hi - 1); }
  }

  /** Confirming the newest `many` blocks: if one of them runs out of missing confirmations, it
      and everything older leaves the list. */
  function Confirm(counts: seq<int>, many: nat): Confirmation {
    var lo := if many <= |counts| then |counts| - many else 0;
    match HighestReady(counts, lo, |counts|)
    case Some(i) => Confirmation(DecrementAll(counts[i+1..]), Some(i))
    case None => Confirmation(counts[..lo] + DecrementAll(counts[lo..]), None)
  }

  /** Position by position: the list loses a prefix, ending with the block that became ready, and
      what is left is decremented inside the confirmed range only. */
  ghost predicate ConfirmedAt(g: seq<int>, many: nat, c: Confirmation) {
    var d := |g| - |c.counts|;
    var lo := if many <= |g| then |g| - many else 0;
    && 0 <= d
    && (c.ready.Some? ==> lo < d && c.ready == Some(d - 1) && Decrement(g[d-1]) == 0)
    && (c.ready.None? ==> d == 0)
    && (forall t | 0 <= t < |c.counts| ::
          && c.counts[t] == (if d + t >= lo then Decrement(g[d+t]) else g[d+t])
          && (d + t >= lo ==> c.counts[t] != 0))
  }

  lemma ConfirmAt(g: seq<int>, many: nat)
    ensures ConfirmedAt(g, many, Confirm(g, many))
  {
    HighestReadyFacts(g, if many <= |g| then |g| - many else 0, |g|);
  }

  /** Everything from position n on has been decremented. */
  ghost predicate DecrementedFrom(was: seq<int>, counts: seq<int>, n: nat) {
    && |counts| == |was|
    && forall j | 0 <= j < |was| :: counts[j] == if j < n then was[j] else Decrement(was[j])
  }

  lemma DecrementedSlices(was: seq<int>, counts: seq<int>, n: nat)
    requires DecrementedFrom(was, counts, n) && n <= |was|
    ensures counts[n..] == DecrementAll(was[n..])
    ensures counts == was[..n] + DecrementAll(was[n..])
  {
  }

  lemma DecrementOneMore(was: seq<int>, counts: seq<int>, n: nat)
    requires n < |was| && DecrementedFrom(was, counts, n + 1)
    ensures counts[n] == was[n]
    ensures DecrementedFrom(was, counts[n := Decrement(was[n])], n)
  {
  }

  /** The newest blocks down to position n have been confirmed and none of them became ready. */
  ghost predicate NoneReady(was: seq<int>, n: nat) {
    forall j | n <= j < |was| :: Decrement(was[j]) != 0
  }

  lemma {:induction false} ConfirmReady(was: seq<int>, many: nat, counts: seq<int>, i: nat)
    requires i < |was| && |was| - many <= i && DecrementedFrom(was, counts, i + 1)
    requires NoneReady(was, i + 1) && Decrement(was[i]) == 0
    ensures Confirm(was, many) == Confirmation(counts[i+1..], Some(i))
  {
    DecrementedSlices(was, counts, i + 1);
    var lo := if many <= |was| then |was| - many else 0;
    HighestReadyFacts(was, lo, |was|);
    hide HighestReady, DecrementAll;
    assert HighestReady(was, lo, |was|) == Some(i);
  }

  lemma {:induction false} UnreadyAbove(was: seq<int>, lo: nat)
    requires lo <= |was| && NoneReady(was, lo)
    ensures HighestReady(was, lo, |was|) == None
  {
    HighestReadyFacts(was, lo, |was|);
  }

  lemma {:induction false} ConfirmUnready(was: seq<int>, many: nat, counts: seq<int>, lo: nat)
    requires lo == if many <= |was| then |was| - many else 0
    requires NoneReady(was, lo) && DecrementedFrom(was, counts, lo)
    ensures Confirm(was, many) == Confirmation(counts, None)
  {
    DecrementedSlices(was, counts, lo);
    UnreadyAbove(was, lo);
    hide HighestReady, DecrementAll, DecrementedFrom, NoneReady;
  }

  /** The loop over the counters, from the newest block backwards. */
  method ConfirmBlocks(was: seq<int>, many: nat) returns (r: Confirmation)
    ensures r == Confirm(was, many)
  {
    var counts := was;
    var i := |counts| - 1;
    var left := many;
    assert DecrementedFrom(was, counts, i + 1);
    hide DecrementedFrom, Confirm;
    while i >= 0 && left > 0
      invariant |counts| == |was| && -1 <= i < |counts|
      invariant left == many - (|counts| - 1 - i) >= 0
      invariant DecrementedFrom(was, counts, i + 1) && NoneReady(was, i + 1)
    {
      DecrementOneMore(was, counts, i);
      ghost var before := counts;
      counts := counts[i := Decrement(counts[i])];
      if counts[i] == 0 {
        ConfirmReady(was, many, before, i);
        assert counts[i+1..] == before[i+1..];
        return Confirmation(counts[i+1..], Some(i));
      }
      i := i - 1;
      left := left - 1;
    }
    ConfirmUnready(was, many, counts, i + 1);
    return Confirmation(counts, None);
  }

  // ---------------------------------------------------------------- the step itself

  /** (block_num + 1) - num_prev_blocks_to_confirm in 32-bit unsigned arithmetic. */
  function ConfirmedFrom(blockNum: nat, confirmed: nat): int {
    if confirmed <= blockNum + 1 then blockNum + 1 - confirmed
    else TWO32 + (blockNum + 1) - confirmed
  }

  predicate ConfirmRangeAllowed(c: Common, producer: Name, confirmed: nat) {
    producer in c.lastProduced ==> c.lastProduced[producer] < ConfirmedFrom(c.blockNum, confirmed)
  }

  predicate PromotesPending(s: State, newLib: nat) {
    && s.pending.schedule.producers != []
    && (|| newLib >= s.pending.libNum
        || (s.c.standby && s.c.standbyBlockNum.Some? && s.c.standbyBlockNum.value <= s.c.blockNum))
  }

  /** The last-seen number of each producer of a newly active schedule: kept when known, and the
      last irreversible number for newcomers. */
  function Carried(producers: seq<Name>, known: map<Name, nat>, lib: nat): map<Name, nat> {
    map p | p in producers :: if p in known then known[p] else lib
  }

  function WhenSlot(s: State, when: nat): nat { if when == 0 then s.slot + 1 else when }

  ghost function Next(s: State, when: nat, confirmed: nat): Result<NextState>
    requires s.c.active.producers != []
  {
    if when != 0 && when <= s.slot then Failure(NotInTheFuture) else
    var producer := ScheduledProducer(s.c.active, WhenSlot(s, when));
    if !ConfirmRangeAllowed(s.c, producer, confirmed) then Failure(DoubleConfirm) else
    Success(NextState(NextCommon(s, producer, confirmed), s.pending,
                      Promotes(s, producer) && !s.c.standby,
                      s.id, producer, WhenSlot(s, when), s.c.active.version, confirmed))
  }

  ghost function NextLib(s: State, producer: Name): nat {
    LastIrreversible(ImpliedWith(s.c, producer))
  }

  ghost predicate Promotes(s: State, producer: Name) {
    PromotesPending(s, NextLib(s, producer))
  }

  /** The counters after the new block joined the list and its producer confirmed. */
  function NextConfirmation(c: Common, confirmed: nat): Confirmation {
    Confirm(Grown(c.confirmCount, Byte(Quorum(|c.active.producers|))), confirmed + 1)
  }

  function NextProposed(c: Common, confirmed: nat): nat {
    var grown := Grown(c.confirmCount, Byte(Quorum(|c.active.producers|)));
    match NextConfirmation(c, confirmed).ready
    case Some(i) =>
      var num := c.blockNum + 1 - (|grown| - 1 - i);
      if num >= 0 then num else num % TWO32
    case None => c.proposed
  }

  ghost function NextCommon(s: State, producer: Name, confirmed: nat): Common
  {
    var c := s.c;
    var blockNum := c.blockNum + 1;
    var proposed := NextProposed(c, confirmed);
    var lib := NextLib(s, producer);
    var counts := NextConfirmation(c, confirmed).counts;
    if Promotes(s, producer) then
      var active := s.pending.schedule;
      Common(blockNum, proposed, lib, active,
             Carried(active.producers, c.lastProduced, lib)[producer := blockNum],
             var implied := Carried(active.producers, c.lastImplied, lib);
             if producer in active.producers then implied[producer := c.proposed] else implied,
             counts, c.standby, c.standbyBlockNum)
    else
      Common(blockNum, proposed, lib, c.active,
             c.lastProduced[producer := blockNum], c.lastImplied[producer := c.proposed],
             counts, c.standby, c.standbyBlockNum)
  }

  function FinishNext(n: NextState, h: Header): Result<State> {
    if h.slot != n.slot then Failure(TimestampMismatch)
    else if h.previous != n.previous then Failure(PreviousMismatch)
    else if h.confirmed != n.confirmed then Failure(ConfirmedMismatch)
    else if h.producer != n.producer then Failure(WrongProducer)
    else if h.scheduleVersion != n.activeVersion then Failure(WrongScheduleVersion)
    else if h.newProducers.Some? && n.promoted then Failure(PromotedInSameBlock)
    else if h.newProducers.Some? && !h.standby
            && h.newProducers.value.version != n.c.active.version + 1 then Failure(WrongNewVersion)
    else if h.newProducers.Some? && !h.standby
            && n.prevPending.schedule.producers != [] then Failure(PendingExists)
    else
      var pending :=
        if h.newProducers.Some? then PendingSchedule(n.c.blockNum, h.newProducers.value)
        else if n.promoted then
          PendingSchedule(n.prevPending.libNum, Schedule(n.prevPending.schedule.version, []))
        else n.prevPending;
      Success(State(n.c.(standby := h.standby, standbyBlockNum := h.standbyBlockNum),
                    h.id, h.slot, pending))
  }

  ghost function NextBlock(s: State, h: Header): Result<State>
    requires s.c.active.producers != []
  {
    match Next(s, h.slot, h.confirmed)
    case Failure(e) => Failure(e)
    case Success(n) => FinishNext(n, h)
  }

  /** block_header_state::next as the source computes it: the counter loop, the order statistic
      and the map-filling loops of a promotion. */
  method BuildNext(s: State, when: nat, confirmed: nat) returns (r: Result<NextState>)
    requires s.c.active.producers != []
    ensures r == Next(s, when, confirmed)
  {
    if when != 0 && when <= s.slot {
      return Failure(NotInTheFuture);
    }
    var slot := WhenSlot(s, when);
    var producer := ScheduledProducer(s.c.active, slot);
    if producer in s.c.lastProduced
       && !(s.c.lastProduced[producer] < ConfirmedFrom(s.c.blockNum, confirmed)) {
      return Failure(DoubleConfirm);
    }
    var c, promoted := BuildCommon(s, producer, confirmed);
    return Success(NextState(c, s.pending, promoted && !s.c.standby, s.id, producer, slot,
                             s.c.active.version, confirmed));
  }

  method BuildCommon(s: State, producer: Name, confirmed: nat) returns (c: Common, promoted: bool)
    ensures c == NextCommon(s, producer, confirmed)
    ensures promoted == Promotes(s, producer)
  {
    hide Confirm, LastIrreversible, ImpliedWith, Grown;
    var blockNum := s.c.blockNum + 1;
    var grown := Grown(s.c.confirmCount, Byte(Quorum(|s.c.active.producers|)));
    var confirmation := ConfirmBlocks(grown, confirmed + 1);
    var proposed := s.c.proposed;
    if confirmation.ready.Some? {
      var num := blockNum - (|grown| - 1 - confirmation.ready.value);
      proposed := if num >= 0 then num else num % TWO32;
    }
    assert proposed == NextProposed(s.c, confirmed);
    var lib := CalcDposLastIrreversible(s.c, producer);
    promoted := PromotesPending(s, lib);
    if promoted {
      var active := s.pending.schedule;
      var produced := FillCarried(active.producers, producer, blockNum, s.c.lastProduced, lib);
      produced := produced[producer := blockNum];
      assert produced == Carried(active.producers, s.c.lastProduced, lib)[producer := blockNum];
      var implied := FillCarried(active.producers, producer, s.c.proposed, s.c.lastImplied, lib);
      c := Common(blockNum, proposed, lib, active, produced, implied, confirmation.counts,
                  s.c.standby, s.c.standbyBlockNum);
    } else {
      c := Common(blockNum, proposed, lib, s.c.active, s.c.lastProduced[producer := blockNum],
                  s.c.lastImplied[producer := s.c.proposed], confirmation.counts,
                  s.c.standby, s.c.standbyBlockNum);
    }
  }

  /** One of the loops that rebuild a per-producer map when a schedule is promoted. */
  method FillCarried(producers: seq<Name>, producer: Name, own: nat, known: map<Name, nat>, lib: nat)
    returns (m: map<Name, nat>)
    ensures m == var carried := Carried(producers, known, lib);
                 if producer in producers then carried[producer := own] else carried
  {
    m := map[];
    for i := 0 to |producers|
      invariant m == map p | p in producers[..i] ::
                  if p == producer then own else if p in known then known[p] else lib
    {
      var p := producers[i];
      if p == producer {
        m := m[p := own];
      } else if p in known {
        m := m[p := known[p]];
      } else {
        m := m[p := lib];
      }
      assert producers[..i+1] == producers[..i] + [p];
    }
    assert producers[..|producers|] == producers;
  }
}
