/** The order of execution as a relation between any two actions, apart from the recursion that lists
    them. */
module ActionLaws {
  import opened ActionOrder

  /** Ordinal x is a or hangs on it, directly or not. */
  ghost predicate Below(ts: seq<Trace>, x: int, a: int)
    decreases x
  {
    x == a || (0 < x <= |ts| && ts[x-1].closest < x && Below(ts, ts[x-1].closest, a))
  }

  /** Notifications of an action before its context-free inline actions, those before its other inline
      actions, and each kind in the order of the requests. Actions of the transaction itself come in
      their order. */
  ghost predicate SiblingFirst(ts: seq<Trace>, a: int, b: int)
    requires 0 < a <= |ts| && 0 < b <= |ts|
  {
    var s, t := ts[a-1], ts[b-1];
    var notifies, free := s.receiver != s.act.account, s.contextFree;
    var notifies', free' := t.receiver != t.act.account, t.contextFree;
    if s.closest == 0 || (notifies == notifies' && (notifies || free == free')) then a < b
    else if notifies != notifies' then notifies
    else free
  }

  ghost predicate Siblings(ts: seq<Trace>, a: int, b: int, x: int, y: int) {
    && 0 < a <= |ts| && 0 < b <= |ts| && ts[a-1].closest == ts[b-1].closest
    && Below(ts, x, a) && Below(ts, y, b) && SiblingFirst(ts, a, b) && a != b
  }

  /** An action comes before everything that hangs on it, and all of it before all of a later sibling. */
  ghost predicate Earlier(ts: seq<Trace>, x: int, y: int) {
    x != y && (Below(ts, y, x) || exists a, b :: Siblings(ts, a, b, x, y))
  }

  ghost predicate Ordered(ts: seq<Trace>, order: seq<int>) {
    forall i, j | 0 <= i < j < |order| :: Earlier(ts, order[i], order[j])
  }

  // ---------------------------------------------------------------- the depth-first order obeys it

  lemma {:induction false} BelowTrans(ts: seq<Trace>, x: int, y: int, z: int)
    requires Below(ts, x, y) && Below(ts, y, z)
    ensures Below(ts, x, z)
    decreases x
  {
    if x != y { BelowTrans(ts, ts[x-1].closest, y, z); }
  }

  lemma {:induction false} BelowNum(ts: seq<Trace>, x: int, a: int)
    requires Below(ts, x, a)
    ensures a <= x && (x != a ==> 0 < x <= |ts|)
    decreases x
  {
    if x != a { BelowNum(ts, ts[x-1].closest, a); }
  }

  lemma {:induction false} SelectAscends(ts: seq<Trace>, o: nat, kind: Kind, n: nat)
    requires n <= |ts|
    ensures forall i | 0 <= i < |Select(ts, o, kind, n)| :: 0 < Select(ts, o, kind, n)[i] <= n
    ensures forall i, j | 0 <= i < j < |Select(ts, o, kind, n)| :: Select(ts, o, kind, n)[i] < Select(ts, o, kind, n)[j]
  {
    if n > 0 { SelectAscends(ts, o, kind, n - 1); }
  }

  lemma SelectAt(ts: seq<Trace>, o: nat, kind: Kind, i: nat)
    requires i < |Select(ts, o, kind, |ts|)|
    ensures var x := Select(ts, o, kind, |ts|)[i];
            0 < x <= |ts| && ts[x-1].closest == o && KindOf(ts[x-1]) == kind
  {
    SelectIn(ts, o, kind, |ts|, Select(ts, o, kind, |ts|)[i]);
  }

  /** The inline actions of o are siblings in their order. */
  ghost predicate Lined(ts: seq<Trace>, cs: seq<int>) {
    && (forall i | 0 <= i < |cs| :: 0 < cs[i] <= |ts|)
    && (forall i, j | 0 <= i < j < |cs| ::
          cs[i] != cs[j] && ts[cs[i]-1].closest == ts[cs[j]-1].closest && SiblingFirst(ts, cs[i], cs[j]))
  }

  lemma InlinesLined(ts: seq<Trace>, o: nat)
    requires o > 0
    ensures Lined(ts, Inlines(ts, o))
  {
    var a, b := Select(ts, o, ContextFree, |ts|), Select(ts, o, Inline, |ts|);
    SelectLined(ts, o, ContextFree);
    SelectLined(ts, o, Inline);
    forall i | 0 <= i < |a| ensures ts[a[i]-1].closest == o && KindOf(ts[a[i]-1]) == ContextFree { SelectAt(ts, o, ContextFree, i); }
    forall i | 0 <= i < |b| ensures ts[b[i]-1].closest == o && KindOf(ts[b[i]-1]) == Inline { SelectAt(ts, o, Inline, i); }
    hide Select;
    forall i, j | 0 <= i < |a| && 0 <= j < |b|
      ensures a[i] != b[j] && ts[a[i]-1].closest == ts[b[j]-1].closest && SiblingFirst(ts, a[i], b[j])
    {
    }
    hide SiblingFirst, KindOf;
    LinedThen(ts, a, b);
  }

  lemma SelectLined(ts: seq<Trace>, o: nat, kind: Kind)
    requires o > 0
    ensures Lined(ts, Select(ts, o, kind, |ts|))
  {
    var s := Select(ts, o, kind, |ts|);
    SelectAscends(ts, o, kind, |ts|);
    forall i | 0 <= i < |s| ensures ts[s[i]-1].closest == o && KindOf(ts[s[i]-1]) == kind { SelectAt(ts, o, kind, i); }
    hide Select;
  }

  lemma LinedThen(ts: seq<Trace>, a: seq<int>, b: seq<int>)
    requires Lined(ts, a) && Lined(ts, b)
    requires forall i, j | 0 <= i < |a| && 0 <= j < |b| ::
               a[i] != b[j] && ts[a[i]-1].closest == ts[b[j]-1].closest && SiblingFirst(ts, a[i], b[j])
    ensures Lined(ts, a + b)
  {
    hide SiblingFirst;
    var cs := a + b;
    forall i, j | 0 <= i < j < |cs|
      ensures cs[i] != cs[j] && ts[cs[i]-1].closest == ts[cs[j]-1].closest && SiblingFirst(ts, cs[i], cs[j])
    {
      assert cs[i] == if i < |a| then a[i] else b[i - |a|];
      assert cs[j] == if j < |a| then a[j] else b[j - |a|];
    }
  }

  lemma {:induction false} VisitBelow(ts: seq<Trace>, o: nat, x: int)
    requires Descending(ts) && 0 < o <= |ts| && x in Visit(ts, o)
    ensures Below(ts, x, o)
    decreases |ts| - o, 1, 0
  {
    InlinesAbove(ts, o);
    var cs := Inlines(ts, o);
    if x in Group(ts, o) {
      SelectIn(ts, o, Notified, |ts|, x);
      if x != o { assert Below(ts, ts[x-1].closest, o); }
    } else {
      var k := VisitAllBelow(ts, o, cs, |cs|, x);
      InlinesIn(ts, o, cs[k]);
      assert Below(ts, ts[cs[k]-1].closest, o) && Below(ts, cs[k], o);
      BelowTrans(ts, x, cs[k], o);
    }
  }

  lemma {:induction false} VisitAllBelow(ts: seq<Trace>, o: nat, cs: seq<int>, n: nat, x: int) returns (k: nat)
    requires Descending(ts) && o <= |ts| && n <= |cs| && forall i | 0 <= i < |cs| :: o < cs[i] <= |ts|
    requires x in VisitAll(ts, o, cs, n)
    ensures k < n && Below(ts, x, cs[k])
    decreases |ts| - o, 0, n
  {
    hide Visit;
    if x in Visit(ts, cs[n-1]) {
      k := n - 1;
      VisitBelow(ts, cs[n-1], x);
    } else {
      k := VisitAllBelow(ts, o, cs, n - 1, x);
    }
  }

  lemma {:induction false} VisitOrdered(ts: seq<Trace>, o: nat)
    requires Descending(ts) && 0 < o <= |ts|
    ensures Ordered(ts, Visit(ts, o))
    decreases |ts| - o, 1, 0
  {
    InlinesAbove(ts, o);
    InlinesLined(ts, o);
    var cs, group := Inlines(ts, o), Group(ts, o);
    VisitAllOrdered(ts, o, cs, |cs|);
    GroupOrdered(ts, o);
    var rest := VisitAll(ts, o, cs, |cs|);
    assert Visit(ts, o) == group + rest;
    forall i, j | 0 <= i < |group| && 0 <= j < |rest| ensures Earlier(ts, group[i], rest[j]) {
      assert rest[j] in rest;
      var k := VisitAllBelow(ts, o, cs, |cs|, rest[j]);
      GroupBefore(ts, o, i, cs[k], rest[j]);
    }
    hide Visit, VisitAll, Inlines, Group, Earlier;
    Joined(ts, group, rest);
  }

  lemma Joined(ts: seq<Trace>, a: seq<int>, b: seq<int>)
    requires Ordered(ts, a) && Ordered(ts, b)
    requires forall i, j | 0 <= i < |a| && 0 <= j < |b| :: Earlier(ts, a[i], b[j])
    ensures Ordered(ts, a + b)
  {
    hide Earlier;
  }

  lemma GroupOrdered(ts: seq<Trace>, o: nat)
    requires Descending(ts) && 0 < o <= |ts|
    ensures Ordered(ts, Group(ts, o))
  {
    var group, s := Group(ts, o), Select(ts, o, Notified, |ts|);
    SelectAscends(ts, o, Notified, |ts|);
    forall i, j | 0 <= i < j < |group| ensures Earlier(ts, group[i], group[j]) {
      SelectAt(ts, o, Notified, j - 1);
      assert group[j] == s[j-1];
      if i == 0 {
        assert Below(ts, ts[group[j]-1].closest, o);
        assert Below(ts, group[j], o);
      } else {
        SelectAt(ts, o, Notified, i - 1);
        assert Siblings(ts, group[i], group[j], group[i], group[j]);
      }
    }
  }

  /** The group of o comes before everything below an inline action c of o. */
  lemma GroupBefore(ts: seq<Trace>, o: nat, i: nat, c: int, y: int)
    requires Descending(ts) && 0 < o <= |ts| && i < |Group(ts, o)| && c in Inlines(ts, o) && Below(ts, y, c)
    ensures Earlier(ts, Group(ts, o)[i], y)
  {
    InlinesIn(ts, o, c);
    BelowNum(ts, y, c);
    var x := Group(ts, o)[i];
    if i == 0 {
      assert Below(ts, ts[c-1].closest, o) && Below(ts, c, o);
      BelowTrans(ts, y, c, o);
    } else {
      SelectAt(ts, o, Notified, i - 1);
      assert Siblings(ts, x, c, x, y);
      if x == y { NotBoth(ts, x, c, x); }
    }
  }

  /** Nothing is below two siblings. */
  lemma {:induction false} NotBoth(ts: seq<Trace>, a: int, b: int, x: int)
    requires Descending(ts) && 0 < a <= |ts| && 0 < b <= |ts| && a != b && ts[a-1].closest == ts[b-1].closest
    ensures !(Below(ts, x, a) && Below(ts, x, b))
    decreases x
  {
    if Below(ts, x, a) && Below(ts, x, b) {
      if x == a {
        BelowNum(ts, ts[a-1].closest, b);
      } else if x == b {
        BelowNum(ts, ts[b-1].closest, a);
      } else {
        NotBoth(ts, a, b, ts[x-1].closest);
      }
    }
  }

  lemma {:induction false} VisitAllOrdered(ts: seq<Trace>, o: nat, cs: seq<int>, n: nat)
    requires Descending(ts) && o <= |ts| && n <= |cs| && (forall i | 0 <= i < |cs| :: o < cs[i] <= |ts|) && Lined(ts, cs)
    ensures Ordered(ts, VisitAll(ts, o, cs, n))
    decreases |ts| - o, 0, n
  {
    if n > 0 {
      VisitAllOrdered(ts, o, cs, n - 1);
      VisitOrdered(ts, cs[n-1]);
      var a, b := VisitAll(ts, o, cs, n - 1), Visit(ts, cs[n-1]);
      assert VisitAll(ts, o, cs, n) == a + b;
      hide Visit, VisitAll, Below, Earlier;
      forall i, j | 0 <= i < |a| && 0 <= j < |b| ensures Earlier(ts, a[i], b[j]) {
        assert a[i] in a && b[j] in b;
        var k := VisitAllBelow(ts, o, cs, n - 1, a[i]);
        VisitBelow(ts, cs[n-1], b[j]);
        Apart(ts, cs[k], cs[n-1], a[i], b[j]);
      }
      Joined(ts, a, b);
    }
  }

  lemma Apart(ts: seq<Trace>, a: int, b: int, x: int, y: int)
    requires Descending(ts) && Siblings(ts, a, b, x, y)
    ensures Earlier(ts, x, y)
  {
    if x == y { NotBoth(ts, a, b, x); }
  }

  lemma OriginalsLined(ts: seq<Trace>, cs: seq<int>)
    requires forall i | 0 <= i < |cs| :: cs[i] == i + 1 <= |ts| && ts[i].closest == 0
    ensures Lined(ts, cs)
  {
  }

  // ---------------------------------------------------------------- and there is only one such order

  lemma {:induction false} Comparable(ts: seq<Trace>, x: int, a: int, b: int)
    requires Below(ts, x, a) && Below(ts, x, b)
    ensures Below(ts, a, b) || Below(ts, b, a)
    decreases x
  {
    if x != a && x != b { Comparable(ts, ts[x-1].closest, a, b); }
  }

  /** Of two actions, at most one comes earlier. */
  lemma EarlierOneWay(ts: seq<Trace>, x: int, y: int)
    requires Descending(ts) && Earlier(ts, x, y)
    ensures !Earlier(ts, y, x)
  {
    if Earlier(ts, y, x) {
      if Below(ts, y, x) {
        if Below(ts, x, y) {
          BelowNum(ts, x, y);
          BelowNum(ts, y, x);
        } else {
          var b, a :| Siblings(ts, b, a, y, x);
          BelowTrans(ts, y, x, a);
          NotBoth(ts, a, b, y);
        }
      } else {
        var a, b :| Siblings(ts, a, b, x, y);
        if Below(ts, x, y) {
          BelowTrans(ts, x, y, b);
          NotBoth(ts, a, b, x);
        } else {
          var b', a' :| Siblings(ts, b', a', y, x);
          SameFork(ts, a, b, a', b', x, y);
        }
      }
    }
  }

  ghost predicate Fork(ts: seq<Trace>, a: int, b: int, x: int, y: int) {
    && 0 < a <= |ts| && 0 < b <= |ts| && ts[a-1].closest == ts[b-1].closest && a != b
    && Below(ts, x, a) && Below(ts, y, b)
  }

  /** Two actions part ways at one pair of siblings only. */
  lemma SameFork(ts: seq<Trace>, a: int, b: int, a': int, b': int, x: int, y: int)
    requires Descending(ts) && Fork(ts, a, b, x, y) && Fork(ts, a', b', x, y)
    ensures a == a' && b == b'
  {
    Comparable(ts, x, a, a');
    if a == a' {
      if b != b' { NotBoth(ts, b, b', y); }
    } else if Below(ts, a, a') {
      StrictlyAbove(ts, a, b, a');
      BelowTrans(ts, y, b, a');
      NotBoth(ts, a', b', y);
    } else {
      StrictlyAbove(ts, a', b', a);
      BelowTrans(ts, y, b', a);
      NotBoth(ts, a, b, y);
    }
  }

  lemma StrictlyAbove(ts: seq<Trace>, a: int, b: int, c: int)
    requires Descending(ts) && 0 < a <= |ts| && 0 < b <= |ts| && ts[a-1].closest == ts[b-1].closest
    requires Below(ts, a, c) && a != c
    ensures Below(ts, b, c)
  {
  }

  /** So the law leaves one order of any set of actions. */
  lemma {:induction false} OneOrder(ts: seq<Trace>, p: seq<int>, q: seq<int>)
    requires Descending(ts) && Ordered(ts, p) && Ordered(ts, q) && forall x :: x in p <==> x in q
    ensures p == q
    decreases |p|
  {
    forall i | 0 <= i < |p| ensures p[i] in q { assert p[i] in p; }
    forall i | 0 <= i < |q| ensures q[i] in p { assert q[i] in q; }
    assert |q| > 0 ==> q[0] in p;
    if p != [] {
      var j :| 0 <= j < |q| && q[j] == p[0];
      var i :| 0 <= i < |p| && p[i] == q[0];
      if i > 0 && j > 0 { EarlierOneWay(ts, p[0], q[0]); }
      SameRest(ts, p, q);
      OneOrder(ts, p[1..], q[1..]);
      assert p == [p[0]] + p[1..] && q == [q[0]] + q[1..];
    }
  }

  lemma SameRest(ts: seq<Trace>, p: seq<int>, q: seq<int>)
    requires p != [] && q != [] && p[0] == q[0] && Ordered(ts, p) && Ordered(ts, q) && forall x :: x in p <==> x in q
    ensures Ordered(ts, p[1..]) && Ordered(ts, q[1..]) && forall x :: x in p[1..] <==> x in q[1..]
  {
    FirstOnce(ts, p);
    FirstOnce(ts, q);
    hide Earlier;
    forall x ensures x in p[1..] <==> x in q[1..] {
      assert x in p <==> x == p[0] || x in p[1..];
      assert x in q <==> x == q[0] || x in q[1..];
    }
  }

  lemma FirstOnce(ts: seq<Trace>, p: seq<int>)
    requires p != [] && Ordered(ts, p)
    ensures p[0] !in p[1..] && p == [p[0]] + p[1..]
  {
    forall i | 1 <= i < |p| ensures p[i] != p[0] { assert Earlier(ts, p[0], p[i]); }
  }
}
