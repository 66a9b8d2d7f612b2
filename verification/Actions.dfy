/** libraries/chain/apply_context.cpp and transaction_context.cpp: scheduling and executing the
    actions of a transaction, proved against the replay of the contract code. */
module ActionScheduler {
  import opened Basics
  import opened ActionLaws
  import opened ActionOrder
  import opened ActionReplay
  import opened ActionRuns

  datatype Receipt = Receipt(ordinal: int, globalSequence: nat)

  datatype Notice = Notice(receiver: Account, ordinal: int)

  // ---------------------------------------------------------------- receipts

  /** Receipts for the actions in `ran`, numbered consecutively after g. */
  ghost function Stamp(ran: seq<int>, g: nat): seq<Receipt> {
    seq(|ran|, i requires 0 <= i < |ran| => Receipt(ran[i], g + 1 + i))
  }

  lemma StampConcat(a: seq<int>, b: seq<int>, g: nat)
    ensures Stamp(a + b, g) == Stamp(a, g) + Stamp(b, g + |a|)
  {
  }

  // ---------------------------------------------------------------- what an action has gathered

  /** While action `first` and its notifications run, the lists of its context are what the traces
      scheduled since ts say. */
  ghost predicate Gathered(ts: seq<Trace>, now: seq<Trace>, first: nat,
      notified: seq<Notice>, cfa: seq<int>, inline: seq<int>)
  {
    OnlyBelow(ts, now, first) && Listed(now, first, notified, cfa, inline) && Noticed(now, first, notified)
  }

  ghost predicate OnlyBelow(ts: seq<Trace>, now: seq<Trace>, first: nat) {
    && 0 < first <= |ts| && Pending(ts, [first]) && GrownBelow(ts, now, [first])
    && forall t | |ts| <= t < |now| :: now[t].closest == first
  }

  ghost predicate Listed(now: seq<Trace>, first: nat, notified: seq<Notice>, cfa: seq<int>, inline: seq<int>) {
    && |notified| == |Group(now, first)|
    && (forall i | 0 <= i < |notified| :: notified[i].ordinal == Group(now, first)[i])
    && cfa == Select(now, first, ContextFree, |now|) && inline == Select(now, first, Inline, |now|)
  }

  /** Different receivers, all of the same action, starting with the account it is sent to. */
  ghost predicate Noticed(now: seq<Trace>, first: nat, notified: seq<Notice>) {
    && 0 < first <= |now| && notified != [] && notified[0].receiver == now[first-1].act.account
    && (forall i, j | 0 <= i < j < |notified| :: notified[i].receiver != notified[j].receiver)
    && (forall i | 0 <= i < |notified| ::
          && 0 < notified[i].ordinal <= |now| && now[notified[i].ordinal-1].act == now[first-1].act
          && now[notified[i].ordinal-1].receiver == notified[i].receiver)
  }

  lemma {:induction false} SelectNone(ts: seq<Trace>, o: nat, kind: Kind, n: nat)
    requires n <= |ts| && forall t | 0 <= t < |ts| :: ts[t].closest != o
    ensures Select(ts, o, kind, n) == []
  {
    if n > 0 { SelectNone(ts, o, kind, n - 1); }
  }

  lemma GatherStart(ts: seq<Trace>, first: nat)
    requires Pending(ts, [first]) && Descending(ts)
    ensures 0 < first <= |ts|
    ensures Gathered(ts, ts, first, [Notice(ts[first-1].receiver, first)], [], [])
  {
    PendingOne(ts, first);
    assert [first][0] == first && first in [first];
    SelectNone(ts, first, Notified, |ts|);
    SelectNone(ts, first, ContextFree, |ts|);
    SelectNone(ts, first, Inline, |ts|);
  }

  lemma {:induction false} SelectPush(ts: seq<Trace>, t: Trace, o: nat, kind: Kind, n: nat)
    requires n <= |ts| + 1
    ensures Select(ts + [t], o, kind, n)
            == if n <= |ts| then Select(ts, o, kind, n)
               else Select(ts, o, kind, |ts|) + if t.closest == o && KindOf(t) == kind then [n] else []
  {
    if n > 0 {
      SelectPush(ts, t, o, kind, n - 1);
      assert n <= |ts| ==> (ts + [t])[n-1] == ts[n-1];
    }
  }

  lemma OnlyBelowPush(ts: seq<Trace>, now: seq<Trace>, first: nat, t: Trace)
    requires OnlyBelow(ts, now, first) && t.closest == first && t.creator <= |now|
    ensures OnlyBelow(ts, now + [t], first)
  {
    assert first in [first];
  }

  lemma ListedPush(now: seq<Trace>, first: nat, notified: seq<Notice>, cfa: seq<int>, inline: seq<int>, t: Trace)
    requires Listed(now, first, notified, cfa, inline) && t.closest == first
    ensures Listed(now + [t], first,
                   if KindOf(t) == Notified then notified + [Notice(t.receiver, |now| + 1)] else notified,
                   if KindOf(t) == ContextFree then cfa + [|now| + 1] else cfa,
                   if KindOf(t) == Inline then inline + [|now| + 1] else inline)
  {
    hide KindOf, Select;
    SelectPush(now, t, first, Notified, |now| + 1);
    SelectPush(now, t, first, ContextFree, |now| + 1);
    SelectPush(now, t, first, Inline, |now| + 1);
    assert |now + [t]| == |now| + 1;
    if KindOf(t) == Notified {
      assert Group(now + [t], first) == Group(now, first) + [|now| + 1];
    } else {
      assert Group(now + [t], first) == Group(now, first);
    }
    hide Group;
  }

  lemma NoticedPush(now: seq<Trace>, first: nat, notified: seq<Notice>, t: Trace)
    requires Noticed(now, first, notified)
    ensures Noticed(now + [t], first, notified)
    ensures t.act == now[first-1].act && (forall i | 0 <= i < |notified| :: notified[i].receiver != t.receiver) ==>
              Noticed(now + [t], first, notified + [Notice(t.receiver, |now| + 1)])
  {
  }

  /** The trace that require_recipient adds is a notification. */
  lemma GatherNotify(ts: seq<Trace>, now: seq<Trace>, first: nat,
      notified: seq<Notice>, cfa: seq<int>, inline: seq<int>, k: nat, t: Trace)
    requires Gathered(ts, now, first, notified, cfa, inline) && k < |notified|
    requires t == Trace(now[notified[k].ordinal-1].act, t.receiver, false, notified[k].ordinal, first)
    requires forall i | 0 <= i < |notified| :: notified[i].receiver != t.receiver
    ensures Gathered(ts, now + [t], first, notified + [Notice(t.receiver, |now| + 1)], cfa, inline)
  {
    assert KindOf(t) == Notified && t.act == now[first-1].act;
    hide OnlyBelow, Listed, KindOf;
    OnlyBelowPush(ts, now, first, t);
    ListedPush(now, first, notified, cfa, inline, t);
    NoticedPush(now, first, notified, t);
  }

  lemma GatherInline(ts: seq<Trace>, now: seq<Trace>, first: nat,
      notified: seq<Notice>, cfa: seq<int>, inline: seq<int>, k: nat, t: Trace)
    requires Gathered(ts, now, first, notified, cfa, inline) && k < |notified|
    requires t == Trace(t.act, t.act.account, t.contextFree, notified[k].ordinal, first)
    ensures Gathered(ts, now + [t], first, notified,
                     if t.contextFree then cfa + [|now| + 1] else cfa,
                     if t.contextFree then inline else inline + [|now| + 1])
  {
    assert notified[k].ordinal <= |now|;
    hide OnlyBelow, Listed;
    OnlyBelowPush(ts, now, first, t);
    ListedPush(now, first, notified, cfa, inline, t);
    NoticedPush(now, first, notified, t);
  }

  lemma {:induction false} BelowBound(s: seq<int>, n: nat)
    requires forall i | 0 <= i < |s| :: 0 <= s[i] < n
    requires forall i, j | 0 <= i < j < |s| :: s[i] != s[j]
    ensures |s| <= n
    decreases n
  {
    assert s == [] || 0 <= s[0] < n;
    if n > 0 && n - 1 in s {
      var i :| 0 <= i < |s| && s[i] == n - 1;
      BelowBound(s[..i] + s[i+1..], n - 1);
    } else if n > 0 {
      BelowBound(s, n - 1);
    }
  }

  const NAMES := 0x1_0000_0000_0000_0000

  /** No more notifications than there are account names. */
  lemma NotifiedBound(notified: seq<Notice>)
    requires forall i, j | 0 <= i < j < |notified| :: notified[i].receiver != notified[j].receiver
    ensures |notified| <= NAMES
  {
    BelowBound(seq(|notified|, i requires 0 <= i < |notified| => notified[i].receiver as int), NAMES);
  }

  lemma NoticeAt(ts: seq<Trace>, now: seq<Trace>, first: nat,
      notified: seq<Notice>, cfa: seq<int>, inline: seq<int>, k: nat)
    requires Gathered(ts, now, first, notified, cfa, inline) && k < |notified|
    ensures 0 < notified[k].ordinal <= |now|
    ensures |notified| <= NAMES
  {
    NotifiedBound(notified);
  }

  /** The context knows what the traces say: which action it is about, and who receives it. */
  lemma NoticedFirst(ts: seq<Trace>, now: seq<Trace>, first: nat,
      notified: seq<Notice>, cfa: seq<int>, inline: seq<int>, k: nat)
    requires Gathered(ts, now, first, notified, cfa, inline) && k < |notified|
    ensures 0 < notified[k].ordinal <= |now| && FirstOf(now, notified[k].ordinal) == first
  {
    hide Select;
    GroupMembers(now, first);
    assert [first][0] == first;
  }

  lemma GroupMembers(ts: seq<Trace>, o: nat)
    ensures Group(ts, o)[0] == o
    ensures forall i | 0 < i < |Group(ts, o)| ::
              0 < Group(ts, o)[i] <= |ts| && ts[Group(ts, o)[i]-1].closest == o && KindOf(ts[Group(ts, o)[i]-1]) == Notified
  {
    hide KindOf;
    var s := Select(ts, o, Notified, |ts|);
    forall i | 0 < i < |Group(ts, o)|
      ensures 0 < Group(ts, o)[i] <= |ts| && ts[Group(ts, o)[i]-1].closest == o && KindOf(ts[Group(ts, o)[i]-1]) == Notified
    {
      assert Group(ts, o)[i] == s[i-1] && s[i-1] in s;
      SelectIn(ts, o, Notified, |ts|, s[i-1]);
    }
  }

  lemma NoticedReceivers(ts: seq<Trace>, now: seq<Trace>, first: nat,
      notified: seq<Notice>, cfa: seq<int>, inline: seq<int>, r: Account)
    requires Gathered(ts, now, first, notified, cfa, inline)
    ensures Receives(now, first, r) <==> exists k :: 0 <= k < |notified| && notified[k].receiver == r
  {
    hide Select, OnlyBelow;
    GroupMembers(now, first);
    if Receives(now, first, r) {
      var i :| 0 <= i < |now| && Receiver(now, first, i) && now[i].receiver == r;
      var k := NoticeOf(now, first, i);
      assert notified[k].receiver == r;
    }
    if k :| 0 <= k < |notified| && notified[k].receiver == r {
      var i := notified[k].ordinal - 1;
      assert Receiver(now, first, i) && now[i].receiver == r;
    }
  }

  lemma NoticeOf(ts: seq<Trace>, o: nat, i: nat) returns (k: nat)
    requires i < |ts| && Receiver(ts, o, i)
    ensures k < |Group(ts, o)| && Group(ts, o)[k] == i + 1
  {
    if i + 1 == o {
      k := 0;
    } else {
      SelectIn(ts, o, Notified, |ts|, i + 1);
      var s := Select(ts, o, Notified, |ts|);
      var j :| 0 <= j < |s| && s[j] == i + 1;
      k := j + 1;
    }
  }

  /** `ran` lists the first notified ordinals. */
  ghost predicate Walked(notified: seq<Notice>, ran: seq<int>) {
    |ran| <= |notified| && forall j | 0 <= j < |ran| :: ran[j] == notified[j].ordinal
  }

  lemma WalkedMore(were: seq<Notice>, notified: seq<Notice>, ran: seq<int>)
    requires (ran == [] || Walked(were, ran)) && |ran| < |were| && were <= notified
    ensures Walked(notified, ran + [were[|ran|].ordinal])
  {
  }

  /** When all notifications have run, the inline actions gathered are pending. */
  lemma GatheredInlines(ts: seq<Trace>, now: seq<Trace>, first: nat,
      notified: seq<Notice>, cfa: seq<int>, inline: seq<int>, group: seq<int>)
    requires Gathered(ts, now, first, notified, cfa, inline) && |group| == |notified| && Walked(notified, group)
    ensures Descending(now) && group == Group(now, first) && cfa + inline == Inlines(now, first)
    ensures Pending(now, cfa + inline) && Pending(now, cfa)
  {
    InlinesPending(ts, now, first);
    hide Pending;
    PendingPart(now, cfa + inline, |cfa|);
    assert (cfa + inline)[..|cfa|] == cfa;
  }

  lemma GatheredRan(ts: seq<Trace>, now: seq<Trace>, ts2: seq<Trace>, first: nat,
      notified: seq<Notice>, cfa: seq<int>, inline: seq<int>, ran: seq<int>)
    requires Gathered(ts, now, first, notified, cfa, inline) && Ran(now, ts2, Inlines(now, first), ran)
    ensures Ran(ts, ts2, [first], Group(now, first) + ran)
  {
    hide Ran, Group;
    GroupRan(ts, now, ts2, first, ran);
  }

  lemma RanPending(ts: seq<Trace>, ts1: seq<Trace>, cs: seq<int>, ds: seq<int>, ran: seq<int>)
    requires Pending(ts, cs + ds) && Ran(ts, ts1, cs, ran)
    ensures Descending(ts1) && Pending(ts1, ds)
  {
    hide Pending;
    StillPending(ts, ts1, cs, ds);
  }

  // ---------------------------------------------------------------- executing

  /** What a transaction has done so far. */
  datatype View<S> = View(world: S, traces: seq<Trace>, executed: seq<Receipt>, sequence: nat)

  /** Executing `ran` led from v to v': the code ran on the states in turn and what it asked for was
      scheduled, and the receipts are numbered consecutively. */
  ghost predicate Did<S>(code: Contract<S>, v: View<S>, v': View<S>, ran: seq<int>) {
    && Replays(code, v.world, v.traces, ran, v'.world, v'.traces)
    && v'.executed == v.executed + Stamp(ran, v.sequence) && v'.sequence == v.sequence + |ran|
  }

  lemma DidThen<S>(code: Contract<S>, v: View<S>, v1: View<S>, v2: View<S>, ran1: seq<int>, ran2: seq<int>)
    requires Did(code, v, v1, ran1) && Did(code, v1, v2, ran2)
    ensures Did(code, v, v2, ran1 + ran2)
  {
    hide Replays;
    ReplaysThen(code, v.world, v.traces, ran1, v1.world, v1.traces, ran2, v2.world, v2.traces);
    StampConcat(ran1, ran2, v.sequence);
  }

  lemma DidNothing<S>(code: Contract<S>, v: View<S>)
    ensures Did(code, v, v, [])
  {
  }

  lemma DidOne<S>(code: Contract<S>, v: View<S>, o: int, w: S, requests: seq<Request>)
    requires 0 < o <= |v.traces| && code(v.world, v.traces[o-1]) == Some((w, requests))
    ensures Did(code, v, View(w, Asked(v.traces, o, requests, |requests|),
                              v.executed + [Receipt(o, v.sequence + 1)], v.sequence + 1), [o])
  {
    hide Asked;
    assert Replay(code, v.world, v.traces, [o], 0) == Some((v.world, v.traces));
    assert Replay(code, v.world, v.traces, [o], 1) == Step(code, v.world, v.traces, o);
  }

  /** Where a transaction failed: at code that fails, or at an action at the depth limit that has run,
      with its notifications, and sent inline actions. */
  datatype Failure = NoFailure | CodeFailed(ordinal: int) | TooDeep(ordinal: int)

  ghost predicate Blames<S>(code: Contract<S>, maxDepth: nat, v: View<S>, ran: seq<int>, why: Failure) {
    match why
    case NoFailure => false
    case CodeFailed(o) => 0 < o <= |v.traces| && code(v.world, v.traces[o-1]).None?
    case TooDeep(o) => AllOf(v.traces, o, ran) && Depth(v.traces, o) == maxDepth && Inlines(v.traces, o) != []
  }

  /** The last action executed is o or a notification of it. */
  ghost predicate AllOf(ts: seq<Trace>, o: int, ran: seq<int>) {
    ran != [] && 0 < o <= |ts| && 0 < ran[|ran|-1] <= |ts| && FirstOf(ts, ran[|ran|-1]) == o
  }

  function Next(why: Failure): seq<int> { if why.CodeFailed? then [why.ordinal] else [] }

  /** Executing cs failed: `ran` was executed, in depth-first order, and then came what is blamed. */
  ghost predicate Failed<S>(code: Contract<S>, maxDepth: nat, v: View<S>, v': View<S>, cs: seq<int>, ran: seq<int>, why: Failure) {
    && Did(code, v, v', ran) && Blames(code, maxDepth, v', ran, why)
    && Stopped(v.traces, v'.traces, cs, ran + Next(why))
  }

  lemma FailedThen<S>(code: Contract<S>, maxDepth: nat, v: View<S>, v1: View<S>, v2: View<S>,
      cs: seq<int>, ds: seq<int>, ran1: seq<int>, ran2: seq<int>, why: Failure)
    requires Pending(v.traces, cs + ds) && Did(code, v, v1, ran1) && Ran(v.traces, v1.traces, cs, ran1)
    requires Failed(code, maxDepth, v1, v2, ds, ran2, why)
    ensures Failed(code, maxDepth, v, v2, cs + ds, ran1 + ran2, why)
  {
    hide Did, Ran, Stopped, Pending, Depth, Inlines, FirstOf;
    DidThen(code, v, v1, v2, ran1, ran2);
    StoppedThen(v.traces, v1.traces, v2.traces, cs, ds, ran1, ran2 + Next(why));
    assert ran1 + ran2 + Next(why) == ran1 + (ran2 + Next(why));
  }

  lemma FailedMore<S>(code: Contract<S>, maxDepth: nat, v: View<S>, v': View<S>,
      cs: seq<int>, ds: seq<int>, ran: seq<int>, why: Failure)
    requires Failed(code, maxDepth, v, v', cs, ran, why) && Pending(v.traces, cs + ds)
    ensures Failed(code, maxDepth, v, v', cs + ds, ran, why)
  {
    hide Did, Stopped, Blames;
    forall i | 0 <= i < |ds| ensures 0 < ds[i] <= |v.traces| { assert (cs + ds)[|cs| + i] == ds[i]; }
    StoppedMore(v.traces, v'.traces, cs, ds, ran + Next(why));
  }

  /** Failing below an inline action of `first`. */
  lemma FailedBelow<S>(code: Contract<S>, maxDepth: nat, v: View<S>, v1: View<S>, v2: View<S>, first: nat,
      notified: seq<Notice>, cfa: seq<int>, inline: seq<int>, group: seq<int>, ran: seq<int>, why: Failure)
    requires Gathered(v.traces, v1.traces, first, notified, cfa, inline) && group == Group(v1.traces, first)
    requires Did(code, v, v1, group) && Failed(code, maxDepth, v1, v2, Inlines(v1.traces, first), ran, why)
    ensures Failed(code, maxDepth, v, v2, [first], group + ran, why)
  {
    hide Did, Stopped, Depth, Inlines, FirstOf, Group, Listed, Noticed;
    DidThen(code, v, v1, v2, group, ran);
    GroupStopped(v.traces, v1.traces, v2.traces, first, ran + Next(why));
    assert group + ran + Next(why) == group + (ran + Next(why));
  }

  /** Failing at the next notification. */
  lemma FailedNotice<S>(code: Contract<S>, maxDepth: nat, v: View<S>, v1: View<S>, first: nat,
      notified: seq<Notice>, cfa: seq<int>, inline: seq<int>, ran: seq<int>)
    requires Gathered(v.traces, v1.traces, first, notified, cfa, inline) && |ran| < |notified|
    requires ran == [] || Walked(notified, ran)
    requires Did(code, v, v1, ran) && Blames(code, maxDepth, v1, ran, CodeFailed(notified[|ran|].ordinal))
    ensures Failed(code, maxDepth, v, v1, [first], ran, CodeFailed(notified[|ran|].ordinal))
  {
    hide Did, Depth, Inlines, FirstOf, Noticed, Select;
    StoppedIn(v.traces, v1.traces, first, ran + [notified[|ran|].ordinal]);
  }

  /** Failing at the depth limit, with everything but the inline actions done. */
  lemma FailedDeep<S>(code: Contract<S>, maxDepth: nat, v: View<S>, v1: View<S>, first: nat,
      notified: seq<Notice>, cfa: seq<int>, inline: seq<int>, group: seq<int>)
    requires Gathered(v.traces, v1.traces, first, notified, cfa, inline) && group == Group(v1.traces, first)
    requires Did(code, v, v1, group) && Depth(v1.traces, first) == maxDepth && Inlines(v1.traces, first) != []
    ensures Failed(code, maxDepth, v, v1, [first], group, TooDeep(first))
  {
    hide Did, Depth, Inlines, Select;
    NoticedFirst(v.traces, v1.traces, first, notified, cfa, inline, |group| - 1);
    StoppedIn(v.traces, v1.traces, first, group);
    assert group + [] == group;
  }

  lemma StoppedIn(ts: seq<Trace>, now: seq<Trace>, first: nat, part: seq<int>)
    requires OnlyBelow(ts, now, first) && part <= Group(now, first)
    ensures Stopped(ts, now, [first], part)
  {
    hide Group, VisitAll, Inlines, Pending;
    InlinesAbove(now, first);
    VisitOne(now, first);
  }

  lemma DeeperInlines(ts: seq<Trace>, first: nat, depth: nat)
    requires Descending(ts) && Depth(ts, first) == depth && 0 < first <= |ts|
    ensures AtDepth(ts, Inlines(ts, first), depth + 1)
  {
    hide Select;
    InlinesAbove(ts, first);
    forall i | 0 <= i < |Inlines(ts, first)| ensures Depth(ts, Inlines(ts, first)[i]) == depth + 1 {
      InlinesIn(ts, first, Inlines(ts, first)[i]);
    }
  }

  ghost predicate AtDepth(ts: seq<Trace>, cs: seq<int>, depth: nat) {
    forall i | 0 <= i < |cs| :: 0 < cs[i] <= |ts| && Depth(ts, cs[i]) == depth
  }

  lemma DepthsKept(ts: seq<Trace>, now: seq<Trace>, cs: seq<int>, depth: nat)
    requires AtDepth(ts, cs, depth) && Prefix(ts, now)
    ensures AtDepth(now, cs, depth)
  {
    hide Depth;
    forall i | 0 <= i < |cs| ensures Depth(now, cs[i]) == depth { DepthKept(ts, now, cs[i]); }
  }

  lemma GatheredDepths(ts: seq<Trace>, now: seq<Trace>, first: nat,
      notified: seq<Notice>, cfa: seq<int>, inline: seq<int>, depth: nat)
    requires Gathered(ts, now, first, notified, cfa, inline) && Depth(ts, first) == depth
    ensures Depth(now, first) == depth && AtDepth(now, cfa, depth + 1) && AtDepth(now, inline, depth + 1)
  {
    hide Depth, Select, Noticed;
    DepthKept(ts, now, first);
    DeeperInlines(now, first, depth);
    var all := cfa + inline;
    forall i | 0 <= i < |cfa| ensures 0 < cfa[i] <= |now| && Depth(now, cfa[i]) == depth + 1 { assert all[i] == cfa[i]; }
    forall i | 0 <= i < |inline| ensures 0 < inline[i] <= |now| && Depth(now, inline[i]) == depth + 1 {
      assert all[|cfa| + i] == inline[i];
    }
  }

  lemma RanKeepsDepths(ts: seq<Trace>, now: seq<Trace>, cs: seq<int>, ran: seq<int>, ds: seq<int>, depth: nat)
    requires AtDepth(ts, ds, depth) && Ran(ts, now, cs, ran)
    ensures AtDepth(now, ds, depth)
  {
    hide AtDepth;
    DepthsKept(ts, now, ds, depth);
  }

  class TransactionContext<S(!new)> {
    const contract: Contract<S>
    const maxInlineDepth: nat
    var world: S
    var traces: seq<Trace>
    var executed: seq<Receipt>
    var globalSequence: nat

    ghost function Now(): View<S>
      reads this
    {
      View(world, traces, executed, globalSequence)
    }

    constructor (code: Contract<S>, state: S, lastSequence: nat, maxDepth: nat)
      ensures contract == code && maxInlineDepth == maxDepth && Now() == View(state, [], [], lastSequence)
    {
      contract, maxInlineDepth, world := code, maxDepth, state;
      traces, executed, globalSequence := [], [], lastSequence;
    }

    method ScheduleAction(act: Action, receiver: Account, contextFree: bool, creator: nat, closest: nat)
      returns (ordinal: nat)
      modifies this`traces
      ensures traces == old(traces) + [Trace(act, receiver, contextFree, creator, closest)] && ordinal == |traces|
    {
      traces := traces + [Trace(act, receiver, contextFree, creator, closest)];
      return |traces|;
    }

    method ExecuteAction(o: nat, depth: nat) returns (ok: bool, ghost ran: seq<int>, ghost why: Failure)
      requires Descending(traces) && Pending(traces, [o]) && depth <= maxInlineDepth && Depth(traces, o) == depth
      modifies this
      ensures ok ==> Ran(old(traces), traces, [o], ran) && Did(contract, old(Now()), Now(), ran)
      ensures !ok ==> Failed(contract, maxInlineDepth, old(Now()), Now(), [o], ran, why)
      decreases maxInlineDepth - depth, 2
    {
      PendingOne(traces, o);
      hide *;
      var context := new ApplyContext<S>(this, o, depth);
      ok, ran, why := context.Exec();
    }

    /** Executes pending actions in order. */
    method ExecuteAll(cs: seq<int>, depth: nat) returns (ok: bool, ghost ran: seq<int>, ghost why: Failure)
      requires Descending(traces) && Pending(traces, cs) && depth <= maxInlineDepth && AtDepth(traces, cs, depth)
      modifies this
      ensures ok ==> Ran(old(traces), traces, cs, ran) && Did(contract, old(Now()), Now(), ran)
      ensures !ok ==> Failed(contract, maxInlineDepth, old(Now()), Now(), cs, ran, why)
      decreases maxInlineDepth - depth, 3
    {
      ghost var v := Now();
      ran, why := [], NoFailure;
      RanNothing(v.traces);
      DidNothing(contract, v);
      assert cs[..0] == [];
      hide Ran, Pending, Did, Descending, Failed, AtDepth;
      for i := 0 to |cs|
        invariant Ran(v.traces, traces, cs[..i], ran) && Did(contract, v, Now(), ran)
      {
        NextPending(v.traces, traces, cs, i, ran);
        NextDepth(v.traces, traces, cs, i, ran, depth);
        ghost var v1, ran1 := Now(), ran;
        var done;
        ghost var more;
        done, more, why := ExecuteAction(cs[i], depth);
        if !done {
          FailedAt(contract, maxInlineDepth, v, v1, Now(), cs, i, ran1, more, why);
          return false, ran1 + more, why;
        }
        RanNext(v.traces, v1.traces, traces, cs, i, ran1, more);
        DidThen(contract, v, v1, Now(), ran1, more);
        ran := ran1 + more;
      }
      assert cs[..|cs|] == cs;
      ok := true;
    }

    /** transaction_context::exec. On success every scheduled action was executed exactly once, in
        depth-first order, with consecutive global sequence numbers; state and traces are those of the
        replay of the contract code in that order, from the actions of the transaction. On failure
        the same holds for what was executed, and the code of the next action in that order fails, or
        the last one sent inline actions at the depth limit. The first traces are those of the given
        actions, context-free ones first; everything else was created by an action. */
    method Exec(contextFreeActions: seq<Action>, actions: seq<Action>, applyContextFree: bool, delayed: bool)
      returns (ok: bool, ghost order: seq<int>, ghost why: Failure)
      requires traces == [] && executed == []
      modifies this
      ensures var from := Given(contextFreeActions, actions, applyContextFree, delayed);
              && Replays(contract, old(world), from, order, world, traces)
              && executed == Stamp(order, old(globalSequence)) && globalSequence == old(globalSequence) + |order|
              && Descending(traces) && |from| <= |traces|
              && var depthFirst := VisitAll(traces, 0, FirstOrdinals(|from|), |from|);
              if ok then order == depthFirst && ExecutedOnce(traces, order)
              else order + Next(why) <= depthFirst && Blames(contract, maxInlineDepth, Now(), order, why)
      ensures Ordered(traces, order)
      ensures |executed| == |order|
              && forall i | 0 <= i < |order| :: executed[i] == Receipt(order[i], old(globalSequence) + 1 + i)
      ensures var n := if applyContextFree then |contextFreeActions| else 0;
              var m := n + if delayed then 0 else |actions|;
              && m <= |traces|
              && (forall i | 0 <= i < n ::
                    traces[i] == Trace(contextFreeActions[i], contextFreeActions[i].account, true, 0, 0))
              && (forall i | n <= i < m :: traces[i] == Trace(actions[i-n], actions[i-n].account, false, 0, 0))
              && (forall i | m <= i < |traces| :: traces[i].creator > 0)
    {
      hide Visit, VisitAll, Original, Originals, Ran, Covers, Replays, Blames, Ordered, Stamp, Did, Failed, ExecutedOnce,
           Descending, Pending, AtDepth, FirstOrdinals;
      ghost var from := Given(contextFreeActions, actions, applyContextFree, delayed);
      if applyContextFree { ScheduleOriginals(contextFreeActions, true); }
      if !delayed { ScheduleOriginals(actions, false); }
      assert traces == from;
      GivenOriginal(contextFreeActions, actions, applyContextFree, delayed);
      OriginalsPending(traces);
      ghost var v := Now();
      var cs := FirstOrdinals(|traces|);
      ok, order, why := ExecuteAll(cs, 0);
      Finished(contract, maxInlineDepth, v, Now(), ok, order, why);
      Stamped(order, v.sequence, executed);
      TracesCreated(contract, v.world, from, order, world, traces);
      GivenFirst(contextFreeActions, actions, applyContextFree, delayed, traces);
      OrderObeyed(traces, |from|, order);
    }

    method ScheduleOriginals(actions: seq<Action>, contextFree: bool)
      modifies this`traces
      ensures traces == old(traces) + Originals(actions, contextFree)
    {
      for i := 0 to |actions|
        invariant traces == old(traces) + Originals(actions[..i], contextFree)
      {
        var a := actions[i];
        var o := ScheduleAction(a, a.account, contextFree, 0, 0);
        assert Originals(actions[..i+1], contextFree)
               == Originals(actions[..i], contextFree) + [Trace(a, a.account, contextFree, 0, 0)];
      }
      assert actions[..|actions|] == actions;
    }
  }

  function FirstOrdinals(n: nat): seq<int> { seq(n, i => i + 1) }

  /** The traces of actions that the transaction itself holds. */
  ghost function Originals(actions: seq<Action>, contextFree: bool): seq<Trace> {
    seq(|actions|, i requires 0 <= i < |actions| => Trace(actions[i], actions[i].account, contextFree, 0, 0))
  }

  /** Context-free actions first; a delayed transaction does not execute its actions yet. */
  ghost function Given(contextFreeActions: seq<Action>, actions: seq<Action>, applyContextFree: bool, delayed: bool): seq<Trace> {
    (if applyContextFree then Originals(contextFreeActions, true) else [])
    + (if delayed then [] else Originals(actions, false))
  }

  /** Later traces were created by an action that was executed. */
  lemma TracesCreated<S>(code: Contract<S>, w: S, from: seq<Trace>, order: seq<int>, w': S, ts: seq<Trace>)
    requires Replays(code, w, from, order, w', ts)
    ensures Prefix(from, ts) && forall i | |from| <= i < |ts| :: ts[i].creator > 0
  {
    ReplayGrows(code, w, from, order, 0, |order|);
    forall i | |from| <= i < |ts| ensures ts[i].creator > 0 {
      var j := AddedBy(code, w, from, order, |order|, i);
    }
  }

  /** A prefix of the depth-first order obeys the law of the order. */
  lemma OrderObeyed(ts: seq<Trace>, n: nat, order: seq<int>)
    requires Descending(ts) && n <= |ts| && (forall i | 0 <= i < n :: ts[i].closest == 0)
    requires order <= VisitAll(ts, 0, FirstOrdinals(n), n)
    ensures Ordered(ts, order)
  {
    hide VisitAll, Earlier;
    OriginalsLined(ts, FirstOrdinals(n));
    VisitAllOrdered(ts, 0, FirstOrdinals(n), n);
  }

  ghost predicate Original(t: Trace) { t.creator == 0 && t.closest == 0 && KindOf(t) != Notified }

  lemma GivenOriginal(contextFreeActions: seq<Action>, actions: seq<Action>, applyContextFree: bool, delayed: bool)
    ensures forall t | 0 <= t < |Given(contextFreeActions, actions, applyContextFree, delayed)| ::
              Original(Given(contextFreeActions, actions, applyContextFree, delayed)[t])
  {
  }

  /** Each ordinal exactly once. */
  ghost predicate ExecutedOnce(ts: seq<Trace>, order: seq<int>) {
    && |order| == |ts| && (forall x: int :: x in order <==> 0 < x <= |ts|)
    && (forall i, j | 0 <= i < j < |order| :: order[i] != order[j])
  }

  lemma OriginalsPending(ts: seq<Trace>)
    requires forall t | 0 <= t < |ts| :: Original(ts[t])
    ensures Descending(ts) && Pending(ts, FirstOrdinals(|ts|)) && AtDepth(ts, FirstOrdinals(|ts|), 0)
  {
  }

  lemma Stamped(order: seq<int>, g: nat, executed: seq<Receipt>)
    requires executed == Stamp(order, g)
    ensures |executed| == |order| && forall i | 0 <= i < |order| :: executed[i] == Receipt(order[i], g + 1 + i)
  {
  }

  /** The traces that the transaction itself gives, one by one. */
  lemma GivenFirst(contextFreeActions: seq<Action>, actions: seq<Action>, applyContextFree: bool, delayed: bool, ts: seq<Trace>)
    requires Prefix(Given(contextFreeActions, actions, applyContextFree, delayed), ts)
    ensures var n := if applyContextFree then |contextFreeActions| else 0;
            var m := n + if delayed then 0 else |actions|;
            && |Given(contextFreeActions, actions, applyContextFree, delayed)| == m <= |ts|
            && (forall i | 0 <= i < n ::
                  ts[i] == Trace(contextFreeActions[i], contextFreeActions[i].account, true, 0, 0))
            && (forall i | n <= i < m :: ts[i] == Trace(actions[i-n], actions[i-n].account, false, 0, 0))
            && forall i | 0 <= i < m :: ts[i].closest == 0
  {
    var from := Given(contextFreeActions, actions, applyContextFree, delayed);
    assert forall i | 0 <= i < |from| :: ts[i] == from[i];
  }

  lemma Finished<S>(code: Contract<S>, maxDepth: nat, v: View<S>, v': View<S>, ok: bool, order: seq<int>, why: Failure)
    requires v.executed == []
    requires ok ==> Ran(v.traces, v'.traces, FirstOrdinals(|v.traces|), order) && Did(code, v, v', order)
    requires !ok ==> Failed(code, maxDepth, v, v', FirstOrdinals(|v.traces|), order, why)
    ensures Replays(code, v.world, v.traces, order, v'.world, v'.traces)
    ensures v'.executed == Stamp(order, v.sequence) && v'.sequence == v.sequence + |order|
    ensures Descending(v'.traces) && |v.traces| <= |v'.traces|
    ensures var depthFirst := VisitAll(v'.traces, 0, FirstOrdinals(|v.traces|), |v.traces|);
            && order <= depthFirst
            && (ok ==> order == depthFirst && ExecutedOnce(v'.traces, order))
            && (!ok ==> order + Next(why) <= depthFirst && Blames(code, maxDepth, v', order, why))
  {
    hide Visit, VisitAll, Replays, Blames;
    assert [] + Stamp(order, v.sequence) == Stamp(order, v.sequence);
    if ok { AllExecuted(v.traces, v'.traces, |v.traces|, order); }
  }

  lemma AllExecuted(from: seq<Trace>, ts: seq<Trace>, n: nat, order: seq<int>)
    requires |from| == n && Ran(from, ts, FirstOrdinals(n), order)
    ensures Descending(ts) && ExecutedOnce(ts, order) && n <= |ts|
    ensures order == VisitAll(ts, 0, FirstOrdinals(n), n)
  {
    hide Visit, VisitAll;
    forall x: int ensures x in FirstOrdinals(n) <==> 0 < x <= n {
      if 0 < x <= n { assert FirstOrdinals(n)[x-1] == x; }
    }
    OnceEach(order, |ts|);
  }

  lemma NextPending(ts: seq<Trace>, now: seq<Trace>, cs: seq<int>, i: nat, ran: seq<int>)
    requires Pending(ts, cs) && i < |cs| && Ran(ts, now, cs[..i], ran)
    ensures Descending(now) && Pending(now, [cs[i]])
  {
    hide Pending, VisitAll, Covers;
    var a, b := cs[..i], cs[i..];
    assert a + b == cs;
    StillPending(ts, now, a, b);
    PendingPart(now, b, 1);
    assert b[..1] == [cs[i]];
  }

  lemma RanNext(ts: seq<Trace>, ts1: seq<Trace>, ts2: seq<Trace>, cs: seq<int>, i: nat, ran: seq<int>, more: seq<int>)
    requires Pending(ts, cs) && i < |cs| && Ran(ts, ts1, cs[..i], ran) && Ran(ts1, ts2, [cs[i]], more)
    ensures Ran(ts, ts2, cs[..i+1], ran + more)
  {
    hide Pending, Ran;
    PendingPart(ts, cs, i + 1);
    assert cs[..i+1] == cs[..i] + [cs[i]];
    RanThen(ts, ts1, ts2, cs[..i], [cs[i]], ran, more);
  }

  lemma FailedAt<S>(code: Contract<S>, maxDepth: nat, v: View<S>, v1: View<S>, v2: View<S>,
      cs: seq<int>, i: nat, ran: seq<int>, more: seq<int>, why: Failure)
    requires Pending(v.traces, cs) && i < |cs| && Did(code, v, v1, ran) && Ran(v.traces, v1.traces, cs[..i], ran)
    requires Failed(code, maxDepth, v1, v2, [cs[i]], more, why)
    ensures Failed(code, maxDepth, v, v2, cs, ran + more, why)
  {
    hide Pending, Ran, Did, Failed;
    PendingPart(v.traces, cs, i + 1);
    assert cs[..i+1] == cs[..i] + [cs[i]] && cs[..i+1] + cs[i+1..] == cs;
    FailedThen(code, maxDepth, v, v1, v2, cs[..i], [cs[i]], ran, more, why);
    FailedMore(code, maxDepth, v, v2, cs[..i+1], cs[i+1..], ran + more, why);
  }

  lemma NextDepth(ts: seq<Trace>, now: seq<Trace>, cs: seq<int>, i: nat, ran: seq<int>, depth: nat)
    requires AtDepth(ts, cs, depth) && i < |cs| && Ran(ts, now, cs[..i], ran)
    ensures cs[i] > 0 && Depth(now, cs[i]) == depth
  {
    hide Depth;
    DepthKept(ts, now, cs[i]);
  }

  lemma PendingPart(ts: seq<Trace>, cs: seq<int>, n: nat)
    requires Pending(ts, cs) && n <= |cs|
    ensures Pending(ts, cs[..n])
  {
  }

  class ApplyContext<S(!new)> {
    const trx: TransactionContext<S>
    const depth: nat
    const first: nat                // first_receiver_action_ordinal
    var receiver: Account
    var ordinal: int
    var notified: seq<Notice>
    var cfaInline: seq<int>
    var inline: seq<int>

    constructor (t: TransactionContext<S>, o: nat, d: nat)
      requires 0 < o <= |t.traces|
      ensures trx == t && depth == d && first == o && ordinal == o && receiver == t.traces[o-1].receiver
      ensures notified == [] && cfaInline == [] && inline == []
    {
      trx, depth, first, ordinal, receiver := t, d, o, o, t.traces[o-1].receiver;
      notified, cfaInline, inline := [], [], [];
    }

    ghost predicate Gathering(ts: seq<Trace>)
      reads this, trx
    {
      Gathered(ts, trx.traces, first, notified, cfaInline, inline)
    }

    method HasRecipient(name: Account) returns (found: bool)
      ensures found <==> exists i :: 0 <= i < |notified| && notified[i].receiver == name
    {
      for i := 0 to |notified|
        invariant forall j | 0 <= j < i :: notified[j].receiver != name
      {
        if notified[i].receiver == name { return true; }
      }
      return false;
    }

    /** Afterwards the account is notified, and it is once. */
    method RequireRecipient(recipient: Account, ghost ts: seq<Trace>, ghost k: nat)
      requires Gathering(ts) && k < |notified| && notified[k].ordinal == ordinal
      modifies this`notified, trx`traces
      ensures Gathering(ts) && old(notified) <= notified
      ensures 0 < ordinal <= |old(trx.traces)| && trx.traces == Ask(old(trx.traces), ordinal, Notify(recipient))
      ensures exists i :: 0 <= i < |notified| && notified[i].receiver == recipient
      ensures if exists i :: 0 <= i < |old(notified)| && old(notified)[i].receiver == recipient
              then trx.traces == old(trx.traces) && notified == old(notified)
              else trx.traces == old(trx.traces) + [Trace(old(trx.traces)[ordinal-1].act, recipient, false, ordinal, first)]
                   && notified == old(notified) + [Notice(recipient, |trx.traces|)]
    {
      hide Gathered, Receives, FirstOf;
      NoticedFirst(ts, trx.traces, first, notified, cfaInline, inline, k);
      NoticedReceivers(ts, trx.traces, first, notified, cfaInline, inline, recipient);
      var found := HasRecipient(recipient);
      if !found {
        var act := trx.traces[ordinal-1].act;
        GatherNotify(ts, trx.traces, first, notified, cfaInline, inline, k, Trace(act, recipient, false, ordinal, first));
        var o := trx.ScheduleAction(act, recipient, false, ordinal, first);
        notified := notified + [Notice(recipient, o)];
        assert notified[|notified|-1].receiver == recipient;
      }
    }

    /** execute_inline and execute_context_free_inline: the action goes to the end of its list. */
    method ExecuteInline(act: Action, contextFree: bool, ghost ts: seq<Trace>, ghost k: nat)
      requires Gathering(ts) && k < |notified| && notified[k].ordinal == ordinal
      modifies this`cfaInline, this`inline, trx`traces
      ensures Gathering(ts) && 0 < ordinal <= |old(trx.traces)|
      ensures trx.traces == Ask(old(trx.traces), ordinal, if contextFree then SendContextFree(act) else SendInline(act))
      ensures cfaInline == old(cfaInline) + if contextFree then [|trx.traces|] else []
      ensures inline == old(inline) + if contextFree then [] else [|trx.traces|]
      ensures trx.traces == old(trx.traces) + [Trace(act, act.account, contextFree, ordinal, first)]
    {
      hide Gathered, FirstOf;
      NoticedFirst(ts, trx.traces, first, notified, cfaInline, inline, k);
      GatherInline(ts, trx.traces, first, notified, cfaInline, inline, k,
                   Trace(act, act.account, contextFree, ordinal, first));
      var o := trx.ScheduleAction(act, act.account, contextFree, ordinal, first);
      if contextFree {
        cfaInline := cfaInline + [o];
      } else {
        inline := inline + [o];
      }
    }

    /** exec_one: runs the code of one receiver, which schedules what it asks for, and records the
        receipt. */
    method ExecOne(ghost ts: seq<Trace>, ghost k: nat) returns (ok: bool)
      requires Gathering(ts) && k < |notified| && notified[k].ordinal == ordinal
      modifies this`notified, this`cfaInline, this`inline, trx
      ensures 0 < ordinal <= |old(trx.traces)|
      ensures ok <==> old(trx.contract(trx.world, trx.traces[ordinal-1])).Some?
      ensures ok ==> Gathering(ts) && old(notified) <= notified && Did(trx.contract, old(trx.Now()), trx.Now(), [ordinal])
      ensures !ok ==> Gathering(ts) && notified == old(notified) && trx.Now() == old(trx.Now())
    {
      hide Gathered, Did, Ask;
      NoticedFirst(ts, trx.traces, first, notified, cfaInline, inline, k);
      ghost var before := trx.Now();
      match trx.contract(trx.world, trx.traces[ordinal-1])
      case None => return false;
      case Some((world, requests)) =>
        trx.world := world;
        for i := 0 to |requests|
          invariant Gathering(ts) && k < |notified| && notified[k].ordinal == ordinal && old(notified) <= notified
          invariant trx.executed == before.executed && trx.globalSequence == before.sequence && trx.world == world
          invariant trx.traces == Asked(before.traces, ordinal, requests, i)
        {
          match requests[i] {
            case Notify(recipient) => RequireRecipient(recipient, ts, k);
            case SendInline(act) => ExecuteInline(act, false, ts, k);
            case SendContextFree(act) => ExecuteInline(act, true, ts, k);
          }
        }
        trx.globalSequence := trx.globalSequence + 1;
        trx.executed := trx.executed + [Receipt(ordinal, trx.globalSequence)];
        DidOne(trx.contract, before, ordinal, world, requests);
        return true;
    }

    /** exec: the list of notified accounts grows while it is walked. */
    method Exec() returns (ok: bool, ghost ran: seq<int>, ghost why: Failure)
      requires Descending(trx.traces) && Pending(trx.traces, [first]) && depth <= trx.maxInlineDepth
      requires notified == [] && cfaInline == [] && inline == [] && ordinal == first
      requires 0 < first <= |trx.traces| && receiver == trx.traces[first-1].receiver && Depth(trx.traces, first) == depth
      modifies this, trx
      ensures ok ==> Ran(old(trx.traces), trx.traces, [first], ran) && Did(trx.contract, old(trx.Now()), trx.Now(), ran)
      ensures !ok ==> Failed(trx.contract, trx.maxInlineDepth, old(trx.Now()), trx.Now(), [first], ran, why)
      decreases trx.maxInlineDepth - depth, 1
    {
      ghost var v := trx.Now();
      hide Gathered, Pending, Did, Ran, Descending, Walked, Failed, KindOf, Depth;
      GatherStart(v.traces, first);
      DidNothing(trx.contract, v);
      notified := [Notice(receiver, ordinal)];
      ok, ran := ExecNotified(v);
      if !ok {
        FailedNotice(trx.contract, trx.maxInlineDepth, v, trx.Now(), first, notified, cfaInline, inline, ran);
        return false, ran, CodeFailed(notified[|ran|].ordinal);
      }
      ok, ran, why := ExecInlines(v, ran);
    }

    /** Walks the list of notified accounts, which grows on the way. */
    method ExecNotified(ghost v: View<S>) returns (ok: bool, ghost ran: seq<int>)
      requires Gathering(v.traces) && |notified| == 1 && Did(trx.contract, v, trx.Now(), []) && notified[0].ordinal == ordinal
      modifies this, trx
      ensures Gathering(v.traces) && Did(trx.contract, v, trx.Now(), ran) && (ran == [] || Walked(notified, ran))
      ensures ok ==> ran != [] && |ran| == |notified|
      ensures !ok ==> |ran| < |notified| && Blames(trx.contract, trx.maxInlineDepth, trx.Now(), ran, CodeFailed(notified[|ran|].ordinal))
    {
      hide Gathered, Did, Walked;
      ran := [];
      ghost var were := notified;
      ok := ExecOne(v.traces, 0);
      if !ok { return; }
      DidThen(trx.contract, v, old(trx.Now()), trx.Now(), [], [ordinal]);
      WalkedMore(were, notified, ran);
      ran := [ordinal];
      assert [] + [ordinal] == ran;
      var i := 1;
      while i < |notified|
        invariant 1 <= i <= |notified| && Gathering(v.traces) && |ran| == i && Walked(notified, ran)
        invariant Did(trx.contract, v, trx.Now(), ran)
        decreases NAMES - i
      {
        NoticeAt(v.traces, trx.traces, first, notified, cfaInline, inline, i);
        receiver, ordinal := notified[i].receiver, notified[i].ordinal;
        ghost var v1 := trx.Now();
        were := notified;
        ok := ExecOne(v.traces, i);
        if !ok { return; }
        DidThen(trx.contract, v, v1, trx.Now(), ran, [ordinal]);
        WalkedMore(were, notified, ran);
        ran := ran + [ordinal];
        i := i + 1;
      }
      ok := true;
    }

    /** The second half of exec: context-free inline actions, then the others. */
    method ExecInlines(ghost v: View<S>, ghost group: seq<int>) returns (ok: bool, ghost ran: seq<int>, ghost why: Failure)
      requires Gathering(v.traces) && depth <= trx.maxInlineDepth && Depth(v.traces, first) == depth
      requires |group| == |notified| && Walked(notified, group) && Did(trx.contract, v, trx.Now(), group)
      modifies trx
      ensures ok ==> Ran(v.traces, trx.traces, [first], ran) && Did(trx.contract, v, trx.Now(), ran)
      ensures !ok ==> Failed(trx.contract, trx.maxInlineDepth, v, trx.Now(), [first], ran, why)
      decreases trx.maxInlineDepth - depth, 0
    {
      hide Gathered, Pending, Did, Ran, Descending, Group, Inlines, Failed, Depth, AtDepth;
      ghost var v1 := trx.Now();
      GatheredInlines(v.traces, v1.traces, first, notified, cfaInline, inline, group);
      GatheredDepths(v.traces, v1.traces, first, notified, cfaInline, inline, depth);
      if cfaInline == [] && inline == [] {
        RanNothing(v1.traces);
        assert cfaInline + inline == [] && group + [] == group;
        GatheredRan(v.traces, v1.traces, v1.traces, first, notified, cfaInline, inline, []);
        return true, group, NoFailure;
      }
      if depth >= trx.maxInlineDepth {
        assert cfaInline + inline != [];
        FailedDeep(trx.contract, trx.maxInlineDepth, v, v1, first, notified, cfaInline, inline, group);
        return false, group, TooDeep(first);
      }
      var done;
      ghost var ran1, ran2;
      done, ran1, why := trx.ExecuteAll(cfaInline, depth + 1);
      ghost var v2 := trx.Now();
      if !done {
        FailedMore(trx.contract, trx.maxInlineDepth, v1, v2, cfaInline, inline, ran1, why);
        FailedBelow(trx.contract, trx.maxInlineDepth, v, v1, v2, first, notified, cfaInline, inline, group, ran1, why);
        return false, group + ran1, why;
      }
      RanPending(v1.traces, v2.traces, cfaInline, inline, ran1);
      RanKeepsDepths(v1.traces, v2.traces, cfaInline, ran1, inline, depth + 1);
      done, ran2, why := trx.ExecuteAll(inline, depth + 1);
      if !done {
        FailedThen(trx.contract, trx.maxInlineDepth, v1, v2, trx.Now(), cfaInline, inline, ran1, ran2, why);
        FailedBelow(trx.contract, trx.maxInlineDepth, v, v1, trx.Now(), first, notified, cfaInline, inline, group, ran1 + ran2, why);
        return false, group + (ran1 + ran2), why;
      }
      RanThen(v1.traces, v2.traces, trx.traces, cfaInline, inline, ran1, ran2);
      GatheredRan(v.traces, v1.traces, trx.traces, first, notified, cfaInline, inline, ran1 + ran2);
      DidThen(trx.contract, v1, v2, trx.Now(), ran1, ran2);
      DidThen(trx.contract, v, v1, trx.Now(), group, ran1 + ran2);
      return true, group + (ran1 + ran2), NoFailure;
    }
  }
}
