/** What executing some pending actions of a transaction amounts to, and how such runs compose. */
module ActionRuns {
  import opened ActionOrder

  ghost predicate Prefix(ts: seq<Trace>, ts': seq<Trace>) {
    |ts| <= |ts'| && forall i | 0 <= i < |ts| :: ts'[i] == ts[i]
  }

  /** The ordinals cs are different, stand for actions that are not notifications, and have not been
      executed: nothing was created below them. */
  ghost predicate Pending(ts: seq<Trace>, cs: seq<int>) {
    && (forall i | 0 <= i < |cs| :: 0 < cs[i] <= |ts| && KindOf(ts[cs[i]-1]) != Notified)
    && (forall i, j | 0 <= i < j < |cs| :: cs[i] != cs[j])
    && (forall t | 0 <= t < |ts| :: ts[t].closest !in cs)
  }

  /** Everything scheduled between ts and ts' hangs on cs. */
  ghost predicate GrownBelow(ts: seq<Trace>, ts': seq<Trace>, cs: seq<int>) {
    && Prefix(ts, ts') && Descending(ts')
    && forall i | |ts| <= i < |ts'| :: ts'[i].closest in cs || ts'[i].closest > |ts|
  }

  /** `ran` lists the actions cs and everything scheduled since: each of them, and nothing twice. */
  ghost predicate Covers(ran: seq<int>, cs: seq<int>, from: nat, to: nat) {
    && (forall x: int :: x in ran <==> x in cs || from < x <= to)
    && |ran| == |cs| + to - from
  }

  /** Executing the pending actions cs took the traces from ts to ts' and executed `ran`, which is
      the depth-first order. */
  ghost predicate Ran(ts: seq<Trace>, ts': seq<Trace>, cs: seq<int>, ran: seq<int>) {
    && GrownBelow(ts, ts', cs) && (forall i | 0 <= i < |cs| :: 0 < cs[i] <= |ts|)
    && ran == VisitAll(ts', 0, cs, |cs|)
    && |ts| <= |ts'| && Covers(ran, cs, |ts|, |ts'|)
  }

  lemma RanNothing(ts: seq<Trace>)
    requires Descending(ts)
    ensures Ran(ts, ts, [], [])
  {
  }

  // ---------------------------------------------------------------- one after the other

  lemma {:induction false} VisitAllConcat(ts: seq<Trace>, cs: seq<int>, ds: seq<int>, n: nat)
    requires Descending(ts) && n <= |ds|
    requires (forall i | 0 <= i < |cs| :: 0 < cs[i] <= |ts|) && forall i | 0 <= i < |ds| :: 0 < ds[i] <= |ts|
    ensures VisitAll(ts, 0, cs + ds, |cs| + n) == VisitAll(ts, 0, cs, |cs|) + VisitAll(ts, 0, ds, n)
    decreases n
  {
    hide Visit;
    if n == 0 {
      VisitAllTake(ts, 0, cs + ds, cs, |cs|);
    } else {
      VisitAllConcat(ts, cs, ds, n - 1);
      assert (cs + ds)[|cs| + n - 1] == ds[n-1];
    }
  }

  /** Only the elements matter, not the bound they are known to exceed. */
  lemma {:induction false} VisitAllTake(ts: seq<Trace>, o: nat, cs: seq<int>, ds: seq<int>, n: nat)
    requires Descending(ts) && o <= |ts| && n <= |cs| && n <= |ds|
    requires (forall i | 0 <= i < |cs| :: 0 < cs[i] <= |ts|) && (forall i | 0 <= i < |ds| :: o < ds[i] <= |ts|)
    requires forall i | 0 <= i < n :: cs[i] == ds[i]
    ensures VisitAll(ts, 0, cs, n) == VisitAll(ts, o, ds, n)
    decreases n
  {
    hide Visit;
    if n > 0 { VisitAllTake(ts, o, cs, ds, n - 1); }
  }

  lemma GrownTwice(ts: seq<Trace>, ts1: seq<Trace>, ts2: seq<Trace>, cs: seq<int>, ds: seq<int>)
    requires Pending(ts, cs + ds) && GrownBelow(ts, ts1, cs) && GrownBelow(ts1, ts2, ds)
    ensures GrownBelow(ts, ts2, cs + ds) && Elsewhere(ts1, ts2, |ts|, 0)
  {
    forall i | |ts1| <= i < |ts2|
      ensures ts2[i].closest in cs + ds || ts2[i].closest > |ts1|
      ensures 0 < ts2[i].closest && (ts2[i].closest <= |ts| || ts2[i].closest > |ts1|)
    {
      if ts2[i].closest in ds {
        var j :| 0 <= j < |ds| && ds[j] == ts2[i].closest;
        assert (cs + ds)[|cs| + j] == ts2[i].closest;
      }
    }
    forall i | |ts| <= i < |ts1| ensures ts2[i].closest in cs + ds || ts2[i].closest > |ts| {
      assert ts2[i] == ts1[i];
    }
  }

  lemma Apart(ts: seq<Trace>, cs: seq<int>, ds: seq<int>, j: nat)
    requires Pending(ts, cs + ds) && j < |ds|
    ensures ds[j] !in cs
  {
    var all := cs + ds;
    forall i | 0 <= i < |cs| ensures cs[i] != ds[j] { assert all[i] != all[|cs| + j]; }
  }

  /** What is left stays pending. */
  lemma StillPending(ts: seq<Trace>, ts1: seq<Trace>, cs: seq<int>, ds: seq<int>)
    requires Pending(ts, cs + ds) && GrownBelow(ts, ts1, cs)
    ensures Pending(ts1, ds)
  {
    var all := cs + ds;
    forall i | 0 <= i < |ds| ensures ds[i] == all[|cs| + i] { }
    forall t | 0 <= t < |ts1| ensures ts1[t].closest !in ds {
      if ts1[t].closest in ds {
        var i :| 0 <= i < |ds| && ds[i] == ts1[t].closest;
        assert all[|cs| + i] == ts1[t].closest && ts1[t].closest in all;
        Apart(ts, cs, ds, i);
      }
    }
    forall i, j | 0 <= i < j < |ds| ensures ds[i] != ds[j] { assert all[|cs| + i] != all[|cs| + j]; }
  }

  lemma {:induction false} AllStable(ts1: seq<Trace>, ts2: seq<Trace>, low: nat, cs: seq<int>, n: nat)
    requires Descending(ts1) && Descending(ts2) && Elsewhere(ts1, ts2, low, 0) && n <= |cs|
    requires forall i | 0 <= i < |cs| :: 0 < cs[i] <= |ts1|
    requires forall i, t | 0 <= i < |cs| && |ts1| <= t < |ts2| :: ts2[t].closest != cs[i]
    requires forall i, t | 0 <= i < |cs| && 0 <= t < |ts1| :: ts1[t].closest == cs[i] ==> low < t + 1
    ensures VisitAll(ts2, 0, cs, n) == VisitAll(ts1, 0, cs, n)
    decreases n
  {
    hide Visit;
    if n > 0 {
      AllStable(ts1, ts2, low, cs, n - 1);
      VisitStable(ts1, ts2, low, cs[n-1]);
    }
  }

  lemma RanThen(ts: seq<Trace>, ts1: seq<Trace>, ts2: seq<Trace>,
      cs: seq<int>, ds: seq<int>, ran1: seq<int>, ran2: seq<int>)
    requires Pending(ts, cs + ds) && Ran(ts, ts1, cs, ran1) && Ran(ts1, ts2, ds, ran2)
    ensures Ran(ts, ts2, cs + ds, ran1 + ran2)
  {
    hide VisitAll, Visit;
    GrownTwice(ts, ts1, ts2, cs, ds);
    StillPending(ts, ts1, cs, ds);
    Untouched(ts, ts1, ts2, cs, ds);
    AllStable(ts1, ts2, |ts|, cs, |cs|);
    VisitAllConcat(ts2, cs, ds, |ds|);
    CoversThen(ran1, ran2, cs, ds, |ts|, |ts1|, |ts2|);
    assert forall i | 0 <= i < |cs + ds| :: 0 < (cs + ds)[i] <= |ts|;
  }

  lemma CoversThen(ran1: seq<int>, ran2: seq<int>, cs: seq<int>, ds: seq<int>, a: nat, b: nat, c: nat)
    requires a <= b <= c && Covers(ran1, cs, a, b) && Covers(ran2, ds, b, c)
    ensures Covers(ran1 + ran2, cs + ds, a, c)
  {
  }

  /** A run leaves alone what the run before it built. */
  lemma Untouched(ts: seq<Trace>, ts1: seq<Trace>, ts2: seq<Trace>, cs: seq<int>, ds: seq<int>)
    requires Pending(ts, cs + ds) && GrownBelow(ts, ts1, cs) && GrownBelow(ts1, ts2, ds)
    requires forall i | 0 <= i < |cs| :: 0 < cs[i] <= |ts|
    ensures forall i, t | 0 <= i < |cs| && |ts1| <= t < |ts2| :: ts2[t].closest != cs[i]
    ensures forall i, t | 0 <= i < |cs| && 0 <= t < |ts1| :: ts1[t].closest == cs[i] ==> |ts| < t + 1
  {
    var all := cs + ds;
    forall i, t | 0 <= i < |cs| && |ts1| <= t < |ts2| ensures ts2[t].closest != cs[i] {
      if ts2[t].closest in ds {
        var j :| 0 <= j < |ds| && ds[j] == ts2[t].closest;
        Apart(ts, cs, ds, j);
      }
    }
    forall i, t | 0 <= i < |cs| && 0 <= t < |ts1| ensures ts1[t].closest == cs[i] ==> |ts| < t + 1 {
      assert all[i] == cs[i] && cs[i] in all;
      assert t < |ts| ==> ts1[t] == ts[t];
    }
  }

  // ---------------------------------------------------------------- an action with its notifications

  lemma {:induction false} SelectCount(ts: seq<Trace>, o: nat, from: nat, n: nat)
    requires n <= |ts| && from <= |ts|
    requires forall t | 0 <= t < |ts| :: ts[t].closest == o <==> from <= t
    ensures |Select(ts, o, Notified, n)| + |Select(ts, o, ContextFree, n)| + |Select(ts, o, Inline, n)|
            == if n <= from then 0 else n - from
  {
    if n > 0 { SelectCount(ts, o, from, n - 1); }
  }

  lemma {:induction false} SelectDistinct(ts: seq<Trace>, o: nat, kind: Kind, n: nat)
    requires n <= |ts|
    ensures var s := Select(ts, o, kind, n);
            forall i, j | 0 <= i < j < |s| :: s[i] != s[j]
  {
    if n > 0 {
      SelectDistinct(ts, o, kind, n - 1);
      SelectIn(ts, o, kind, n - 1, n);
    }
  }

  /** The inline actions collected by o and its notifications are pending. */
  lemma InlinesPending(ts: seq<Trace>, ts1: seq<Trace>, o: nat)
    requires Pending(ts, [o]) && GrownBelow(ts, ts1, [o])
    requires forall t | |ts| <= t < |ts1| :: ts1[t].closest == o
    ensures Pending(ts1, Inlines(ts1, o))
  {
    hide Select, KindOf;
    var a, b := Select(ts1, o, ContextFree, |ts1|), Select(ts1, o, Inline, |ts1|);
    var cs := Inlines(ts1, o);
    SelectDistinct(ts1, o, ContextFree, |ts1|);
    SelectDistinct(ts1, o, Inline, |ts1|);
    forall i | 0 <= i < |cs| ensures 0 < cs[i] <= |ts1| && KindOf(ts1[cs[i]-1]) != Notified && cs[i] > |ts| {
      InlinesIn(ts1, o, cs[i]);
      OldNotBelow(ts, ts1, o, cs[i]);
    }
    forall i, j | 0 <= i < j < |cs| ensures cs[i] != cs[j] {
      SelectIn(ts1, o, ContextFree, |ts1|, cs[i]);
      SelectIn(ts1, o, Inline, |ts1|, cs[j]);
    }
    forall t | 0 <= t < |ts1| ensures ts1[t].closest !in cs { ClosestOld(ts, ts1, o, t); }
  }

  lemma OldNotBelow(ts: seq<Trace>, ts1: seq<Trace>, o: nat, x: int)
    requires Pending(ts, [o]) && Prefix(ts, ts1) && 0 < x <= |ts1| && ts1[x-1].closest == o
    ensures x > |ts|
  {
    forall t | 0 <= t < |ts| ensures ts1[t].closest != o { assert ts1[t] == ts[t] && o in [o]; }
  }

  lemma ClosestOld(ts: seq<Trace>, ts1: seq<Trace>, o: nat, t: nat)
    requires Pending(ts, [o]) && GrownBelow(ts, ts1, [o]) && t < |ts1|
    requires forall t | |ts| <= t < |ts1| :: ts1[t].closest == o
    ensures ts1[t].closest <= |ts|
  {
    assert [o][0] == o;
  }

  /** Executing the group of o, and then its inline actions, is the depth-first order from o. */
  lemma GroupRan(ts: seq<Trace>, ts1: seq<Trace>, ts2: seq<Trace>, o: nat, ran: seq<int>)
    requires Pending(ts, [o]) && GrownBelow(ts, ts1, [o])
    requires forall t | |ts| <= t < |ts1| :: ts1[t].closest == o
    requires Ran(ts1, ts2, Inlines(ts1, o), ran)
    ensures Ran(ts, ts2, [o], Group(ts1, o) + ran)
  {
    hide KindOf, Select, Inlines, Group, Visit, VisitAll, Covers, Pending;
    assert 0 < o <= |ts| by { PendingOne(ts, o); }
    GroupGrown(ts, ts1, ts2, o);
    GroupCovers(ts, ts1, ts2, o, ran);
    GroupVisit(ts1, ts2, o);
    VisitOne(ts2, o);
  }

  lemma PendingOne(ts: seq<Trace>, o: nat)
    requires Pending(ts, [o])
    ensures 0 < o <= |ts|
  {
    assert [o][0] == o;
  }

  lemma VisitOne(ts: seq<Trace>, o: nat)
    requires Descending(ts) && 0 < o <= |ts|
    ensures VisitAll(ts, 0, [o], 1) == Visit(ts, o)
  {
    hide Visit;
    assert VisitAll(ts, 0, [o], 1) == VisitAll(ts, 0, [o], 0) + Visit(ts, [o][0]);
  }

  lemma GroupVisit(ts1: seq<Trace>, ts2: seq<Trace>, o: nat)
    requires Descending(ts2) && Prefix(ts1, ts2) && 0 < o <= |ts1|
    requires forall i | |ts1| <= i < |ts2| :: ts2[i].closest != o
    requires forall i | 0 <= i < |Inlines(ts1, o)| :: 0 < Inlines(ts1, o)[i] <= |ts1|
    ensures Visit(ts2, o) == Group(ts1, o) + VisitAll(ts2, 0, Inlines(ts1, o), |Inlines(ts1, o)|)
  {
    hide KindOf;
    SelectStable(ts1, ts2, o, Notified, |ts2|);
    SelectStable(ts1, ts2, o, ContextFree, |ts2|);
    SelectStable(ts1, ts2, o, Inline, |ts2|);
    hide Select;
    var cs := Inlines(ts1, o);
    assert Inlines(ts2, o) == cs && Group(ts2, o) == Group(ts1, o);
    InlinesAbove(ts2, o);
    VisitAllTake(ts2, o, cs, cs, |cs|);
  }

  lemma GroupGrown(ts: seq<Trace>, ts1: seq<Trace>, ts2: seq<Trace>, o: nat)
    requires Pending(ts, [o]) && GrownBelow(ts, ts1, [o]) && 0 < o <= |ts|
    requires forall t | |ts| <= t < |ts1| :: ts1[t].closest == o
    requires GrownBelow(ts1, ts2, Inlines(ts1, o))
    ensures GrownBelow(ts, ts2, [o]) && Prefix(ts1, ts2) && forall i | |ts1| <= i < |ts2| :: ts2[i].closest != o
  {
    hide Select, KindOf, Inlines;
    var cs := Inlines(ts1, o);
    forall i | |ts1| <= i < |ts2| ensures ts2[i].closest > |ts| {
      if ts2[i].closest in cs {
        InlinesIn(ts1, o, ts2[i].closest);
        OldNotBelow(ts, ts1, o, ts2[i].closest);
      }
    }
    forall i | |ts| <= i < |ts2| ensures ts2[i].closest in [o] || ts2[i].closest > |ts| {
      assert i < |ts1| ==> ts2[i] == ts1[i];
    }
  }

  lemma GroupCovers(ts: seq<Trace>, ts1: seq<Trace>, ts2: seq<Trace>, o: nat, ran: seq<int>)
    requires Pending(ts, [o]) && GrownBelow(ts, ts1, [o]) && 0 < o <= |ts|
    requires forall t | |ts| <= t < |ts1| :: ts1[t].closest == o
    requires |ts1| <= |ts2| && Covers(ran, Inlines(ts1, o), |ts1|, |ts2|)
    ensures Covers(Group(ts1, o) + ran, [o], |ts|, |ts2|)
  {
    hide Select, KindOf;
    forall t | 0 <= t < |ts1| ensures ts1[t].closest == o <==> |ts| <= t {
      assert o in [o];
      assert t < |ts| ==> ts1[t] == ts[t];
    }
    SelectCount(ts1, o, |ts|, |ts1|);
    forall x: int ensures x in Group(ts1, o) + ran <==> x in [o] || |ts| < x <= |ts2| {
      SelectIn(ts1, o, Notified, |ts1|, x);
      InlinesIn(ts1, o, x);
    }
  }

  // ---------------------------------------------------------------- runs that stop

  /** Executing the pending actions cs took the traces from ts to ts' and stopped on the way: `part` is
      the beginning of the depth-first order over what is scheduled so far. */
  ghost predicate Stopped(ts: seq<Trace>, ts': seq<Trace>, cs: seq<int>, part: seq<int>) {
    && GrownBelow(ts, ts', cs) && (forall i | 0 <= i < |cs| :: 0 < cs[i] <= |ts|)
    && part <= VisitAll(ts', 0, cs, |cs|)
  }

  lemma StoppedThen(ts: seq<Trace>, ts1: seq<Trace>, ts2: seq<Trace>,
      cs: seq<int>, ds: seq<int>, ran: seq<int>, part: seq<int>)
    requires Pending(ts, cs + ds) && Ran(ts, ts1, cs, ran) && Stopped(ts1, ts2, ds, part)
    ensures Stopped(ts, ts2, cs + ds, ran + part)
  {
    hide VisitAll, Visit;
    GrownTwice(ts, ts1, ts2, cs, ds);
    StillPending(ts, ts1, cs, ds);
    Untouched(ts, ts1, ts2, cs, ds);
    AllStable(ts1, ts2, |ts|, cs, |cs|);
    VisitAllConcat(ts2, cs, ds, |ds|);
    forall i | 0 <= i < |cs + ds| ensures 0 < (cs + ds)[i] <= |ts| { assert KindOf(ts[(cs + ds)[i]-1]) != Notified; }
  }

  lemma StoppedMore(ts: seq<Trace>, ts': seq<Trace>, cs: seq<int>, ds: seq<int>, part: seq<int>)
    requires Stopped(ts, ts', cs, part) && forall i | 0 <= i < |ds| :: 0 < ds[i] <= |ts|
    ensures Stopped(ts, ts', cs + ds, part)
  {
    hide VisitAll, Visit;
    VisitAllConcat(ts', cs, ds, |ds|);
  }

  /** Stopping below an inline action of o is stopping below o. */
  lemma GroupStopped(ts: seq<Trace>, ts1: seq<Trace>, ts2: seq<Trace>, o: nat, part: seq<int>)
    requires Pending(ts, [o]) && GrownBelow(ts, ts1, [o])
    requires forall t | |ts| <= t < |ts1| :: ts1[t].closest == o
    requires Stopped(ts1, ts2, Inlines(ts1, o), part)
    ensures Stopped(ts, ts2, [o], Group(ts1, o) + part)
  {
    hide KindOf, Select, Inlines, Group, Visit, VisitAll, Pending;
    PendingOne(ts, o);
    GroupGrown(ts, ts1, ts2, o);
    GroupVisit(ts1, ts2, o);
    VisitOne(ts2, o);
  }

  // ---------------------------------------------------------------- exactly once

  lemma {:induction false} AtLeast(s: seq<int>, n: nat)
    requires forall x | 0 < x <= n :: x in s
    ensures |s| >= n
    decreases n
  {
    if n > 0 {
      assert n in s;
      var i :| 0 <= i < |s| && s[i] == n;
      var rest := s[..i] + s[i+1..];
      forall x | 0 < x <= n - 1 ensures x in rest {
        assert x in s;
        var j :| 0 <= j < |s| && s[j] == x;
        assert if j < i then rest[j] == x else rest[j-1] == x;
      }
      AtLeast(rest, n - 1);
    }
  }

  /** A sequence as long as the range it covers holds nothing twice. */
  lemma OnceEach(s: seq<int>, n: nat)
    requires |s| == n && forall x | 0 < x <= n :: x in s
    ensures forall i, j | 0 <= i < j < |s| :: s[i] != s[j]
  {
    forall i, j | 0 <= i < j < |s| ensures s[i] != s[j] {
      if s[i] == s[j] {
        var rest := s[..j] + s[j+1..];
        forall x | 0 < x <= n ensures x in rest {
          assert x in s;
          var k :| 0 <= k < |s| && s[k] == x;
          assert if k < j then rest[k] == x else if k == j then rest[i] == x else rest[k-1] == x;
        }
        AtLeast(rest, n);
      }
    }
  }
}
