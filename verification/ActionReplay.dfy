/** What executing actions in a given order does, by the contract code alone: the reference that the
    scheduler is compared with. Contract code is an oracle: it sees the state and the action trace, and
    either fails or gives the new state and what it asked for, in order. */
module ActionReplay {
  import opened Basics
  import opened ActionLaws
  import opened ActionOrder
  import opened ActionRuns

  datatype Request = Notify(recipient: Account) | SendInline(act: Action) | SendContextFree(act: Action)

  type Contract<!S> = (S, Trace) -> Option<(S, seq<Request>)>

  // ---------------------------------------------------------------- what a request adds

  /** The action that trace o belongs to: the one notified of, or o itself. */
  ghost function FirstOf(ts: seq<Trace>, o: int): nat
    requires 0 < o <= |ts|
  {
    if KindOf(ts[o-1]) == Notified then ts[o-1].closest else o
  }

  /** Account r received action `first`, or is notified of it. */
  ghost predicate Receives(ts: seq<Trace>, first: nat, r: Account) {
    exists i :: 0 <= i < |ts| && Receiver(ts, first, i) && ts[i].receiver == r
  }

  ghost predicate Receiver(ts: seq<Trace>, first: nat, i: nat)
    requires i < |ts|
  {
    i + 1 == first || (ts[i].closest == first && KindOf(ts[i]) == Notified)
  }

  /** The traces after a request of o: an account is notified once, an inline action is always added. */
  ghost function Ask(ts: seq<Trace>, o: int, request: Request): (ts': seq<Trace>)
    requires 0 < o <= |ts|
    ensures Prefix(ts, ts')
  {
    var first := FirstOf(ts, o);
    match request
    case Notify(r) => if Receives(ts, first, r) then ts else ts + [Trace(ts[o-1].act, r, false, o, first)]
    case SendInline(act) => ts + [Trace(act, act.account, false, o, first)]
    case SendContextFree(act) => ts + [Trace(act, act.account, true, o, first)]
  }

  /** The traces after the first n requests of o. */
  ghost function Asked(ts: seq<Trace>, o: int, requests: seq<Request>, n: nat): (ts': seq<Trace>)
    requires 0 < o <= |ts| && n <= |requests|
    ensures Prefix(ts, ts')
  {
    if n == 0 then ts else Ask(Asked(ts, o, requests, n - 1), o, requests[n-1])
  }

  // ---------------------------------------------------------------- replaying an order

  /** State and traces after executing action o. */
  ghost function Step<S>(code: Contract<S>, w: S, ts: seq<Trace>, o: int): Option<(S, seq<Trace>)> {
    if !(0 < o <= |ts|) then None
    else match code(w, ts[o-1])
      case None => None
      case Some((w', requests)) => Some((w', Asked(ts, o, requests, |requests|)))
  }

  /** State and traces after executing the first n actions of `order`. */
  ghost function Replay<S>(code: Contract<S>, w: S, ts: seq<Trace>, order: seq<int>, n: nat): Option<(S, seq<Trace>)>
    requires n <= |order|
  {
    if n == 0 then Some((w, ts))
    else match Replay(code, w, ts, order, n - 1)
      case None => None
      case Some((w1, ts1)) => Step(code, w1, ts1, order[n-1])
  }

  ghost predicate Replays<S>(code: Contract<S>, w: S, ts: seq<Trace>, order: seq<int>, w': S, ts': seq<Trace>) {
    Replay(code, w, ts, order, |order|) == Some((w', ts'))
  }

  lemma {:induction false} ReplayThen<S>(code: Contract<S>, w: S, ts: seq<Trace>, a: seq<int>, w1: S, ts1: seq<Trace>,
      b: seq<int>, n: nat)
    requires Replays(code, w, ts, a, w1, ts1) && n <= |b|
    ensures Replay(code, w, ts, a + b, |a| + n) == Replay(code, w1, ts1, b, n)
    decreases n
  {
    hide Step;
    if n == 0 {
      ReplayPrefix(code, w, ts, a, a + b, |a|);
    } else {
      ReplayThen(code, w, ts, a, w1, ts1, b, n - 1);
      assert (a + b)[|a| + n - 1] == b[n-1];
    }
  }

  lemma {:induction false} ReplayPrefix<S>(code: Contract<S>, w: S, ts: seq<Trace>, a: seq<int>, b: seq<int>, n: nat)
    requires n <= |a| && n <= |b| && forall i | 0 <= i < n :: a[i] == b[i]
    ensures Replay(code, w, ts, a, n) == Replay(code, w, ts, b, n)
    decreases n
  {
    hide Step;
    if n > 0 { ReplayPrefix(code, w, ts, a, b, n - 1); }
  }

  lemma ReplaysThen<S>(code: Contract<S>, w: S, ts: seq<Trace>, a: seq<int>, w1: S, ts1: seq<Trace>,
      b: seq<int>, w2: S, ts2: seq<Trace>)
    requires Replays(code, w, ts, a, w1, ts1) && Replays(code, w1, ts1, b, w2, ts2)
    ensures Replays(code, w, ts, a + b, w2, ts2)
  {
    hide Replay;
    ReplayThen(code, w, ts, a, w1, ts1, b, |b|);
  }

  // ---------------------------------------------------------------- who created what

  lemma {:induction false} AskedCreators(ts: seq<Trace>, o: int, requests: seq<Request>, n: nat)
    requires 0 < o <= |ts| && n <= |requests|
    ensures forall i | |ts| <= i < |Asked(ts, o, requests, n)| :: Asked(ts, o, requests, n)[i].creator == o
  {
    if n > 0 {
      AskedCreators(ts, o, requests, n - 1);
      hide Receives, FirstOf;
    }
  }

  /** Replaying further keeps what is there. */
  lemma {:induction false} ReplayGrows<S>(code: Contract<S>, w: S, ts: seq<Trace>, order: seq<int>, m: nat, n: nat)
    requires m <= n <= |order| && Replay(code, w, ts, order, n).Some?
    ensures Replay(code, w, ts, order, m).Some?
    ensures Prefix(Replay(code, w, ts, order, m).value.1, Replay(code, w, ts, order, n).value.1)
    decreases n
  {
    hide Asked;
    if m < n { ReplayGrows(code, w, ts, order, m, n - 1); }
  }

  /** A trace added on the way was added by one of the steps. */
  lemma {:induction false} AddedBy<S>(code: Contract<S>, w: S, ts: seq<Trace>, order: seq<int>, n: nat, i: nat) returns (j: nat)
    requires n <= |order| && Replay(code, w, ts, order, n).Some? && |ts| <= i < |Replay(code, w, ts, order, n).value.1|
    ensures j < n && Replay(code, w, ts, order, n).value.1[i].creator == order[j]
    ensures Replay(code, w, ts, order, j).Some? && Replay(code, w, ts, order, j + 1).Some?
    ensures |Replay(code, w, ts, order, j).value.1| <= i < |Replay(code, w, ts, order, j + 1).value.1|
    decreases n
  {
    hide Asked;
    var (w1, ts1) := Replay(code, w, ts, order, n - 1).value;
    if i < |ts1| {
      j := AddedBy(code, w, ts, order, n - 1, i);
      ReplayGrows(code, w, ts, order, n - 1, n);
    } else {
      j := n - 1;
      var requests := code(w1, ts1[order[n-1]-1]).value.1;
      AskedCreators(ts1, order[n-1], requests, |requests|);
    }
  }

  /** Step j of a replay in which nothing is executed twice: the code of the j-th action ran on the
      state the steps before left, and the traces that this action created are exactly, and in order,
      the ones its requests add. */
  lemma CreatedExactly<S>(code: Contract<S>, w: S, ts: seq<Trace>, order: seq<int>, w': S, ts': seq<Trace>, j: nat)
      returns (before: S, had: seq<Trace>, after: S, requests: seq<Request>)
    requires Replays(code, w, ts, order, w', ts') && j < |order|
    requires forall a, b | 0 <= a < b < |order| :: order[a] != order[b]
    requires forall i | 0 <= i < |ts| :: ts[i].creator == 0
    ensures Replay(code, w, ts, order, j) == Some((before, had)) && 0 < order[j] <= |had|
    ensures Prefix(had, ts') && code(before, ts'[order[j]-1]) == Some((after, requests))
    ensures Replay(code, w, ts, order, j + 1) == Some((after, Asked(had, order[j], requests, |requests|)))
    ensures Prefix(Asked(had, order[j], requests, |requests|), ts')
    ensures forall i | 0 <= i < |ts'| ::
              ts'[i].creator == order[j] <==> |had| <= i < |Asked(had, order[j], requests, |requests|)|
  {
    hide Asked;
    ReplayGrows(code, w, ts, order, j, |order|);
    ReplayGrows(code, w, ts, order, j + 1, |order|);
    before, had := Replay(code, w, ts, order, j).value.0, Replay(code, w, ts, order, j).value.1;
    after, requests := code(before, had[order[j]-1]).value.0, code(before, had[order[j]-1]).value.1;
    var next := Asked(had, order[j], requests, |requests|);
    AskedCreators(had, order[j], requests, |requests|);
    ReplayGrows(code, w, ts, order, 0, |order|);
    forall i | 0 <= i < |ts'| ensures ts'[i].creator == order[j] <==> |had| <= i < |next| {
      if i >= |ts| {
        var k := AddedBy(code, w, ts, order, |order|, i);
        if k < j { ReplayGrows(code, w, ts, order, k + 1, j); }
        if k > j { ReplayGrows(code, w, ts, order, j + 1, k); }
      } else {
        ReplayGrows(code, w, ts, order, 0, j);
      }
    }
  }

  // ---------------------------------------------------------------- depth

  /** How many inline actions deep trace o is. */
  ghost function Depth(ts: seq<Trace>, o: int): nat
    decreases o
  {
    if 0 < o <= |ts| && 0 < ts[o-1].closest < o
    then Depth(ts, ts[o-1].closest) + if KindOf(ts[o-1]) == Notified then 0 else 1
    else 0
  }

  lemma {:induction false} DepthKept(ts: seq<Trace>, ts': seq<Trace>, o: int)
    requires Prefix(ts, ts') && o <= |ts|
    ensures Depth(ts', o) == Depth(ts, o)
    decreases o
  {
    if 0 < o && 0 < ts[o-1].closest < o { DepthKept(ts, ts', ts[o-1].closest); }
  }

  /** The inline actions on the way from trace o up to an action of the transaction. */
  ghost function InlineAncestors(ts: seq<Trace>, o: int): set<int> {
    set a | 0 < a <= |ts| && Below(ts, o, a) && ts[a-1].closest > 0 && ts[a-1].receiver == ts[a-1].act.account
  }

  /** The depth of a trace is the number of these. */
  lemma {:induction false} DepthCounts(ts: seq<Trace>, o: nat)
    requires Descending(ts) && o <= |ts|
    ensures Depth(ts, o) == |InlineAncestors(ts, o)|
    decreases o
  {
    if o == 0 {
      forall a | a in InlineAncestors(ts, 0) ensures false { BelowNum(ts, 0, a); }
      assert InlineAncestors(ts, 0) == {};
    } else {
      var c := ts[o-1].closest;
      DepthCounts(ts, c);
      AncestorsNext(ts, o);
      if o in InlineAncestors(ts, c) { BelowNum(ts, c, o); }
      if c == 0 { assert Depth(ts, 0) == 0; }
    }
  }

  lemma AncestorsNext(ts: seq<Trace>, o: nat)
    requires Descending(ts) && 0 < o <= |ts|
    ensures var t := ts[o-1];
            InlineAncestors(ts, o) == InlineAncestors(ts, t.closest)
                                      + if t.closest > 0 && t.receiver == t.act.account then {o} else {}
  {
    forall a | 0 < a <= |ts| ensures Below(ts, o, a) <==> a == o || Below(ts, ts[o-1].closest, a) { }
  }
}
