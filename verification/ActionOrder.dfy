/** Action traces of one transaction and the order in which they should be executed. */
module ActionOrder {

  /** Account names are 64-bit numbers. */
  type Account = n: int | 0 <= n < 0x1_0000_0000_0000_0000

  datatype Action = Action(account: Account, data: nat)

  /** The trace at index i has action ordinal i + 1. `closest` is the ordinal of the closest ancestor
      that was not a notification; both ordinals are 0 for the actions of the transaction itself. */
  datatype Trace = Trace(act: Action, receiver: Account, contextFree: bool, creator: nat, closest: nat)

  datatype Kind = Notified | ContextFree | Inline

  function KindOf(t: Trace): Kind {
    if t.receiver != t.act.account then Notified else if t.contextFree then ContextFree else Inline
  }

  /** Creators and closest ancestors have smaller ordinals. */
  ghost predicate Descending(ts: seq<Trace>) {
    forall i | 0 <= i < |ts| :: ts[i].creator <= i && ts[i].closest <= i
  }

  /** The ordinals up to n of the given kind below o, in increasing order. */
  ghost function Select(ts: seq<Trace>, o: nat, kind: Kind, n: nat): (s: seq<int>)
    requires n <= |ts|
  {
    if n == 0 then []
    else Select(ts, o, kind, n - 1) +
         if ts[n-1].closest == o && KindOf(ts[n-1]) == kind then [n] else []
  }

  /** An action followed by its notifications. */
  ghost function Group(ts: seq<Trace>, o: nat): seq<int> { [o] + Select(ts, o, Notified, |ts|) }

  /** The inline actions it sent: context-free ones first. */
  ghost function Inlines(ts: seq<Trace>, o: nat): seq<int> {
    Select(ts, o, ContextFree, |ts|) + Select(ts, o, Inline, |ts|)
  }

  lemma {:induction false} SelectIn(ts: seq<Trace>, o: nat, kind: Kind, n: nat, x: int)
    requires n <= |ts|
    ensures x in Select(ts, o, kind, n) <==> 1 <= x <= n && ts[x-1].closest == o && KindOf(ts[x-1]) == kind
  {
    if n > 0 {
      SelectIn(ts, o, kind, n - 1, x);
      var rest := Select(ts, o, kind, n - 1);
      var last := if ts[n-1].closest == o && KindOf(ts[n-1]) == kind then [n] else [];
      assert Select(ts, o, kind, n) == rest + last;
      hide Select, KindOf;
      assert x in rest + last <==> x in rest || x in last;
    }
  }

  lemma InlinesIn(ts: seq<Trace>, o: nat, x: int)
    ensures x in Inlines(ts, o) <==> 1 <= x <= |ts| && ts[x-1].closest == o && KindOf(ts[x-1]) != Notified
  {
    SelectIn(ts, o, ContextFree, |ts|, x);
    SelectIn(ts, o, Inline, |ts|, x);
  }

  lemma InlinesAbove(ts: seq<Trace>, o: nat)
    requires Descending(ts)
    ensures forall i | 0 <= i < |Inlines(ts, o)| :: o < Inlines(ts, o)[i] <= |ts|
  {
    forall i | 0 <= i < |Inlines(ts, o)| ensures o < Inlines(ts, o)[i] <= |ts| {
      InlinesIn(ts, o, Inlines(ts, o)[i]);
    }
  }

  // ---------------------------------------------------------------- depth first

  /** The depth-first order: the action and its notifications, then everything below its inline
      actions, one inline action after the other. */
  ghost function Visit(ts: seq<Trace>, o: nat): seq<int>
    requires Descending(ts) && o <= |ts|
    decreases |ts| - o, 1, 0
  {
    InlinesAbove(ts, o);
    Group(ts, o) + VisitAll(ts, o, Inlines(ts, o), |Inlines(ts, o)|)
  }

  /** The first n of cs, all of which come after o. */
  ghost function VisitAll(ts: seq<Trace>, o: nat, cs: seq<int>, n: nat): seq<int>
    requires Descending(ts) && o <= |ts| && n <= |cs| && forall i | 0 <= i < |cs| :: o < cs[i] <= |ts|
    decreases |ts| - o, 0, n
  {
    if n == 0 then [] else VisitAll(ts, o, cs, n - 1) + Visit(ts, cs[n-1])
  }

  /** Which later traces leave Visit(ts, o) alone: those that hang on nothing in it. */
  ghost predicate Elsewhere(ts: seq<Trace>, ts': seq<Trace>, low: nat, o: nat) {
    && |ts| <= |ts'| && (forall i | 0 <= i < |ts| :: ts'[i] == ts[i])
    && (forall i | |ts| <= i < |ts'| :: (ts'[i].closest <= low || ts'[i].closest > |ts|) && ts'[i].closest != o)
  }

  lemma {:induction false} SelectStable(ts: seq<Trace>, ts': seq<Trace>, o: nat, kind: Kind, n: nat)
    requires |ts| <= |ts'| && n <= |ts'| && forall i | 0 <= i < |ts| :: ts'[i] == ts[i]
    requires forall i | |ts| <= i < |ts'| :: ts'[i].closest != o
    ensures Select(ts', o, kind, n) == Select(ts, o, kind, if n <= |ts| then n else |ts|)
  {
    if n > 0 { SelectStable(ts, ts', o, kind, n - 1); }
  }

  lemma {:induction false} VisitStable(ts: seq<Trace>, ts': seq<Trace>, low: nat, o: nat)
    requires Descending(ts) && Descending(ts') && o <= |ts| && Elsewhere(ts, ts', low, o)
    requires forall i | 0 <= i < |ts| && ts[i].closest == o :: low < i + 1
    ensures Visit(ts', o) == Visit(ts, o)
    decreases |ts| - o, 1, 0
  {
    SelectStable(ts, ts', o, Notified, |ts'|);
    SelectStable(ts, ts', o, ContextFree, |ts'|);
    SelectStable(ts, ts', o, Inline, |ts'|);
    var cs := Inlines(ts, o);
    InlinesAbove(ts, o);
    InlinesAbove(ts', o);
    forall i | 0 <= i < |cs| ensures low < cs[i] { InlinesIn(ts, o, cs[i]); }
    VisitAllStable(ts, ts', low, o, cs, |cs|);
  }

  lemma {:induction false} VisitAllStable(ts: seq<Trace>, ts': seq<Trace>, low: nat, o: nat, cs: seq<int>, n: nat)
    requires Descending(ts) && Descending(ts') && o <= |ts| && n <= |cs| && Elsewhere(ts, ts', low, o)
    requires forall i | 0 <= i < |cs| :: o < cs[i] <= |ts| && low < cs[i]
    ensures VisitAll(ts', o, cs, n) == VisitAll(ts, o, cs, n)
    decreases |ts| - o, 0, n
  {
    if n > 0 {
      hide Visit, KindOf;
      VisitAllStable(ts, ts', low, o, cs, n - 1);
      BelowElsewhere(ts, ts', low, o, cs[n-1]);
      VisitStable(ts, ts', low, cs[n-1]);
    }
  }

  lemma BelowElsewhere(ts: seq<Trace>, ts': seq<Trace>, low: nat, o: nat, c: nat)
    requires Descending(ts) && Elsewhere(ts, ts', low, o) && low < c <= |ts|
    ensures Elsewhere(ts, ts', low, c)
    ensures forall i | 0 <= i < |ts| && ts[i].closest == c :: low < i + 1
  {
  }
}
