/** libraries/chain/resource_limits.cpp: pending account limits, settled ones, and their totals. */
module ResourceLimits {
  import opened Basics
  import opened MapSums

  /** A negative limit means unlimited; it does not count towards the total. */
  datatype Limits = Limits(ram: int, net: int, cpu: int)

  const UNLIMITED := Limits(-1, -1, -1)
  const INT64_MAX := 0x7FFF_FFFF_FFFF_FFFF

  function Positive(x: int): nat { if x > 0 then x else 0 }

  datatype Resource = Ram | Net | Cpu

  function Limit(r: Resource, v: Limits): int { match r case Ram => v.ram case Net => v.net case Cpu => v.cpu }

  ghost function Counted(r: Resource): Limits -> int { (v: Limits) => Positive(Limit(r, v)) }

  datatype Totals = Totals(ram: nat, net: nat, cpu: nat)

  function Total(r: Resource, t: Totals): nat { match r case Ram => t.ram case Net => t.net case Cpu => t.cpu }

  /** Each total is the sum of the positive settled limits, and fits into 64 bits. */
  ghost predicate Summed(settled: map<Name, Limits>, totals: Totals) {
    forall r: Resource :: Total(r, totals) == Sum(settled, Counted(r)) <= UINT64_MAX
  }

  /** A total after the limits of an account change from v to w. */
  function After(r: Resource, totals: Totals, v: Limits, w: Limits): int {
    Total(r, totals) - Positive(Limit(r, v)) + Positive(Limit(r, w))
  }

  lemma SummedSet(settled: map<Name, Limits>, totals: Totals, a: Name, w: Limits, after: Totals)
    requires a in settled && Summed(settled, totals)
    requires forall r: Resource :: Total(r, after) == After(r, totals, settled[a], w) <= UINT64_MAX
    ensures Summed(settled[a := w], after)
  {
    forall r: Resource { SumSet(settled, Counted(r), a, w); }
  }

  /** No settled limit exceeds its total. */
  lemma NoUnderflow(settled: map<Name, Limits>, totals: Totals, a: Name)
    requires a in settled && Summed(settled, totals)
    ensures forall r: Resource :: Positive(Limit(r, settled[a])) <= Total(r, totals) <= UINT64_MAX
  {
    forall r: Resource { SumAtLeast(settled, Counted(r), a); }
  }

  // ---------------------------------------------------------------- settling in the order of the owners

  ghost predicate Ascending(owners: seq<Name>) {
    forall i, j | 0 <= i < j < |owners| :: owners[i] < owners[j]
  }

  /** The owners of pending entries in ascending order, as the by_owner index gives them. */
  ghost predicate InOrder(pending: map<Name, Limits>, owners: seq<Name>) {
    && Ascending(owners) && (forall i | 0 <= i < |owners| :: owners[i] in pending)
    && (forall a | a in pending :: a in owners)
  }

  /** A total after the first n of the owners are settled. */
  ghost function Running(r: Resource, settled: map<Name, Limits>, pending: map<Name, Limits>, totals: Totals,
      owners: seq<Name>, n: nat): int
    requires n <= |owners| && forall i | 0 <= i < |owners| :: owners[i] in pending && owners[i] in settled
  {
    if n == 0 then Total(r, totals)
    else Running(r, settled, pending, totals, owners, n - 1)
         - Positive(Limit(r, settled[owners[n-1]])) + Positive(Limit(r, pending[owners[n-1]]))
  }

  /** No total overflows after any of the first n owners. */
  ghost predicate Fits(settled: map<Name, Limits>, pending: map<Name, Limits>, totals: Totals, owners: seq<Name>, n: nat)
    requires n <= |owners| && forall i | 0 <= i < |owners| :: owners[i] in pending && owners[i] in settled
  {
    forall r: Resource, k | 0 <= k <= n :: Running(r, settled, pending, totals, owners, k) <= UINT64_MAX
  }

  lemma {:induction false} OwnersListed(keys: set<Name>) returns (owners: seq<Name>)
    ensures Ascending(owners) && forall a :: a in owners <==> a in keys
    decreases |keys|
  {
    if keys == {} {
      owners := [];
    } else {
      var top := Largest(keys);
      var rest := OwnersListed(keys - {top});
      forall i | 0 <= i < |rest| ensures rest[i] < top { assert rest[i] in rest; }
      owners := rest + [top];
    }
  }

  lemma OwnersInOrder(pending: map<Name, Limits>, owners: seq<Name>)
    requires Ascending(owners) && forall a :: a in owners <==> a in pending.Keys
    ensures InOrder(pending, owners)
  {
  }

  lemma {:induction false} Largest(keys: set<Name>) returns (top: Name)
    requires keys != {}
    ensures top in keys && forall a | a in keys :: a <= top
    decreases |keys|
  {
    top :| top in keys;
    var rest := keys - {top};
    assert forall a | a in keys :: a == top || a in rest;
    if rest != {} {
      var other := Largest(rest);
      if other > top { top := other; }
    }
  }

  datatype Accounts = Accounts(settled: map<Name, Limits>, pending: map<Name, Limits>, totals: Totals)

  /** The pending entries of the first n owners have replaced their settled ones. */
  ghost predicate Moved(from: Accounts, owners: seq<Name>, n: nat, now: Accounts) {
    && n <= |owners| && (forall i | 0 <= i < |owners| :: owners[i] in now.pending <==> n <= i)
    && (forall a | a in now.pending :: a in from.pending && now.pending[a] == from.pending[a])
    && now.settled.Keys == from.settled.Keys
    && (forall a | a in from.settled ::
          now.settled[a] == if a in from.pending && a !in now.pending then from.pending[a] else from.settled[a])
  }

  /** The first n owners of `from` have been settled. */
  ghost predicate Settling(from: Accounts, owners: seq<Name>, n: nat, now: Accounts) {
    && Moved(from, owners, n, now) && InOrder(from.pending, owners) && from.pending.Keys <= from.settled.Keys
    && (forall r: Resource :: Total(r, now.totals) == Running(r, from.settled, from.pending, from.totals, owners, n))
    && Fits(from.settled, from.pending, from.totals, owners, n)
  }

  lemma SettlingStarts(from: Accounts, owners: seq<Name>)
    requires InOrder(from.pending, owners) && from.pending.Keys <= from.settled.Keys && Summed(from.settled, from.totals)
    ensures Settling(from, owners, 0, from)
  {
  }

  /** The smallest pending owner is the next one. */
  lemma NextOwner(from: Accounts, owners: seq<Name>, n: nat, now: Accounts, a: Name)
    requires Settling(from, owners, n, now) && a in now.pending && forall b | b in now.pending :: a <= b
    ensures n < |owners| && a == owners[n]
  {
    hide Fits, Running;
    var i :| 0 <= i < |owners| && owners[i] == a;
    assert owners[n] in now.pending;
  }

  lemma NextTotals(from: Accounts, owners: seq<Name>, n: nat, now: Accounts)
    requires Settling(from, owners, n, now) && n < |owners|
    ensures owners[n] in now.pending && owners[n] in now.settled && owners[n] in from.pending
    ensures forall r: Resource ::
              After(r, now.totals, now.settled[owners[n]], now.pending[owners[n]])
              == Running(r, from.settled, from.pending, from.totals, owners, n + 1)
  {
    hide Fits;
    assert owners[n] in now.pending && owners[n] in from.pending;
  }

  lemma Overflowed(from: Accounts, owners: seq<Name>, n: nat, now: Accounts)
    requires Settling(from, owners, n, now) && n < |owners| && owners[n] in now.pending && owners[n] in now.settled
    requires !forall r: Resource :: After(r, now.totals, now.settled[owners[n]], now.pending[owners[n]]) <= UINT64_MAX
    ensures !Fits(from.settled, from.pending, from.totals, owners, |owners|)
  {
    NextTotals(from, owners, n, now);
    hide Running, After;
  }

  lemma SettledNext(from: Accounts, owners: seq<Name>, n: nat, was: Accounts, now: Accounts)
    requires Settling(from, owners, n, was) && n < |owners| && owners[n] in was.pending && owners[n] in was.settled
    requires now.settled == was.settled[owners[n] := was.pending[owners[n]]] && now.pending == was.pending - {owners[n]}
    requires forall r: Resource ::
               Total(r, now.totals) == After(r, was.totals, was.settled[owners[n]], was.pending[owners[n]]) <= UINT64_MAX
    ensures Settling(from, owners, n + 1, now)
  {
    hide Running, After, Total, Fits, Moved;
    var m := n + 1;
    NextTotals(from, owners, n, was);
    MovedNext(from, owners, n, was, now);
    forall r: Resource ensures Running(r, from.settled, from.pending, from.totals, owners, m) == Total(r, now.totals) {
      assert After(r, was.totals, was.settled[owners[n]], was.pending[owners[n]]) == Total(r, now.totals);
    }
    FitsNext(from, owners, n, m);
  }

  lemma MovedNext(from: Accounts, owners: seq<Name>, n: nat, was: Accounts, now: Accounts)
    requires Moved(from, owners, n, was) && InOrder(from.pending, owners) && n < |owners|
    requires owners[n] in was.pending && owners[n] in was.settled
    requires now.settled == was.settled[owners[n] := was.pending[owners[n]]] && now.pending == was.pending - {owners[n]}
    ensures Moved(from, owners, n + 1, now)
  {
  }

  lemma FitsNext(from: Accounts, owners: seq<Name>, n: nat, m: nat)
    requires n < m == n + 1 <= |owners|
    requires forall i | 0 <= i < |owners| :: owners[i] in from.pending && owners[i] in from.settled
    requires Fits(from.settled, from.pending, from.totals, owners, n)
    requires forall r: Resource :: Running(r, from.settled, from.pending, from.totals, owners, m) <= UINT64_MAX
    ensures Fits(from.settled, from.pending, from.totals, owners, m)
  {
    hide Running;
  }

  lemma SomePending(from: Accounts, owners: seq<Name>, n: nat, now: Accounts)
    requires Moved(from, owners, n, now)
    ensures n < |owners| ==> now.pending != map[]
  {
    assert n < |owners| ==> owners[n] in now.pending;
  }

  lemma AllSettled(from: Accounts, owners: seq<Name>, n: nat, now: Accounts)
    requires Settling(from, owners, n, now) && now.pending == map[]
    ensures Fits(from.settled, from.pending, from.totals, owners, |owners|) && now.settled.Keys == from.settled.Keys
    ensures forall a | a in now.settled ::
              now.settled[a] == if a in from.pending then from.pending[a] else from.settled[a]
  {
    hide Running, Fits;
    SomePending(from, owners, n, now);
  }

  const LARGEST := Limits(INT64_MAX, -1, -1)

  lemma NearlyFull(settled: map<Name, Limits>)
    requires settled == map[0 := Limits(1, -1, -1), 1 := LARGEST, 2 := LARGEST]
    ensures Summed(settled, Totals(UINT64_MAX, 0, 0))
  {
    forall r: Resource ensures Total(r, Totals(UINT64_MAX, 0, 0)) == Sum(settled, Counted(r)) {
      SumWithout(settled, Counted(r), 0);
      SumWithout(settled - {0}, Counted(r), 1);
      SumWithout(settled - {0} - {1}, Counted(r), 2);
      assert settled - {0} - {1} - {2} == map[];
    }
  }

  /** The order decides whether the call fails. These limits settle in the order 1, 0; in the order of
      the owners the RAM total overflows on the way, although it fits in the end. */
  lemma OwnerOrderOverflows() returns (settled: map<Name, Limits>, pending: map<Name, Limits>, totals: Totals)
    ensures pending.Keys == {0, 1} <= settled.Keys && Summed(settled, totals)
    ensures forall a | a in settled :: settled[a].ram <= INT64_MAX
    ensures InOrder(pending, [0, 1]) && !Fits(settled, pending, totals, [0, 1], 2)
    ensures Fits(settled, pending, totals, [1, 0], 2)
  {
    settled := map[0 := Limits(1, -1, -1), 1 := LARGEST, 2 := LARGEST];
    pending := map[0 := Limits(2, -1, -1), 1 := Limits(0, -1, -1)];
    totals := Totals(UINT64_MAX, 0, 0);
    NearlyFull(settled);
    hide Summed, Running;
    RunningTwo(Ram, settled, pending, totals, 0, 1);
    assert Running(Ram, settled, pending, totals, [0, 1], 1) > UINT64_MAX;
    forall r: Resource { RunningTwo(r, settled, pending, totals, 1, 0); }
  }

  lemma RunningTwo(r: Resource, settled: map<Name, Limits>, pending: map<Name, Limits>, totals: Totals, a: Name, b: Name)
    requires a in settled && b in settled && a in pending && b in pending
    ensures Running(r, settled, pending, totals, [a, b], 0) == Total(r, totals)
    ensures Running(r, settled, pending, totals, [a, b], 1) == After(r, totals, settled[a], pending[a])
    ensures Running(r, settled, pending, totals, [a, b], 2)
            == After(r, totals, settled[a], pending[a]) - Positive(Limit(r, settled[b])) + Positive(Limit(r, pending[b]))
  {
    assert Running(r, settled, pending, totals, [a, b], 0) == Total(r, totals);
    assert Running(r, settled, pending, totals, [a, b], 1) == After(r, totals, settled[a], pending[a]);
  }

  /** update_state_and_value: takes the old value out of a total and puts the new one in. The
      underflow check cannot fail; the overflow check can. */
  method UpdateTotal(total: nat, value: int, pending: int) returns (ok: bool, after: nat)
    requires Positive(value) <= total <= UINT64_MAX
    ensures ok <==> total - (if value > 0 then value else 0) + (if pending > 0 then pending else 0) <= UINT64_MAX
    ensures ok ==> after == total - (if value > 0 then value else 0) + if pending > 0 then pending else 0
    ensures ok <==> total - Positive(value) + Positive(pending) <= UINT64_MAX
    ensures ok ==> after == total - Positive(value) + Positive(pending)
  {
    after := total;
    if value > 0 {
      assert after >= value;
      after := after - value;
    }
    if pending > 0 {
      if UINT64_MAX - after < pending { return false, 0; }
      after := after + pending;
    }
    return true, after;
  }

  class Manager {
    var settled: map<Name, Limits>
    var pending: map<Name, Limits>
    var totals: Totals

    ghost predicate Valid()
      reads this
    {
      pending.Keys <= settled.Keys && Summed(settled, totals)
    }

    /** What get_account_limits reports. */
    ghost function Reported(a: Name): Limits
      requires a in settled
      reads this
    {
      if a in pending then pending[a] else settled[a]
    }

    constructor ()
      ensures Valid() && settled == map[] && pending == map[]
    {
      settled, pending, totals := map[], map[], Totals(0, 0, 0);
    }

    method InitializeAccount(a: Name) returns (ok: bool)
      requires Valid()
      modifies this`settled
      ensures Valid() && ok == (a !in old(settled))
      ensures settled == if ok then old(settled)[a := UNLIMITED] else old(settled)
    {
      if a in settled { return false; }
      forall r: Resource { SumSet(settled, Counted(r), a, UNLIMITED); }
      settled := settled[a := UNLIMITED];
      return true;
    }

    /** Reports whether the RAM limit went down. Only the pending entry changes. */
    method SetAccountLimits(a: Name, v: Limits) returns (ok: bool, decreased: bool)
      requires Valid()
      modifies this`pending
      ensures Valid() && ok == (a in settled)
      ensures if ok then pending == old(pending)[a := v] && Reported(a) == v else pending == old(pending)
      ensures ok ==> (decreased <==> v.ram >= 0 && (old(Reported(a)).ram < 0 || v.ram < old(Reported(a)).ram))
    {
      hide Summed;
      if a !in pending {
        if a !in settled { return false, false; }
        pending := pending[a := settled[a]];
      }
      decreased := v.ram >= 0 && (pending[a].ram < 0 || v.ram < pending[a].ram);
      pending := pending[a := v];
      return true, decreased;
    }

    method GetAccountLimits(a: Name) returns (ok: bool, v: Limits)
      requires Valid()
      ensures ok == (a in settled) && (ok ==> v == Reported(a))
    {
      if a in pending { return true, pending[a]; }
      if a in settled { return true, settled[a]; }
      return false, UNLIMITED;
    }

    /** Moves one pending entry into the settled one, unless a total overflows. */
    method SettleOne(a: Name) returns (ok: bool)
      requires Valid() && a in pending
      modifies this
      ensures ok <==> forall r: Resource :: old(After(r, totals, settled[a], pending[a])) <= UINT64_MAX
      ensures ok ==> Valid() && settled == old(settled)[a := old(pending)[a]] && pending == old(pending) - {a}
      ensures ok ==> forall r: Resource :: Total(r, totals) == old(After(r, totals, settled[a], pending[a]))
      ensures !ok ==> settled == old(settled) && pending == old(pending) && totals == old(totals)
    {
      hide Summed;
      NoUnderflow(settled, totals, a);
      var v, w := settled[a], pending[a];
      assert Positive(Limit(Ram, v)) <= Total(Ram, totals) <= UINT64_MAX;
      assert Positive(Limit(Cpu, v)) <= Total(Cpu, totals) <= UINT64_MAX;
      assert Positive(Limit(Net, v)) <= Total(Net, totals) <= UINT64_MAX;
      var okRam, ram := UpdateTotal(totals.ram, v.ram, w.ram);
      var okCpu, cpu := UpdateTotal(totals.cpu, v.cpu, w.cpu);
      var okNet, net := UpdateTotal(totals.net, v.net, w.net);
      assert okRam <==> After(Ram, totals, v, w) <= UINT64_MAX;
      assert okCpu <==> After(Cpu, totals, v, w) <= UINT64_MAX;
      assert okNet <==> After(Net, totals, v, w) <= UINT64_MAX;
      if !okRam || !okCpu || !okNet { return false; }
      SummedSet(settled, totals, a, w, Totals(ram, net, cpu));
      totals := Totals(ram, net, cpu);
      settled := settled[a := w];
      pending := pending - {a};
      return true;
    }

    /** The first pending entry of the by_owner index. */
    method FirstPending() returns (a: Name)
      requires pending != map[]
      ensures a in pending && forall b | b in pending :: a <= b
    {
      a :| a in pending;
      var rest := pending.Keys - {a};
      while rest != {}
        invariant rest <= pending.Keys && a in pending && forall b | b in pending && b !in rest :: a <= b
        decreases rest
      {
        var b :| b in rest;
        if b < a { a := b; }
        rest := rest - {b};
      }
    }

    /** What the abandoned undo session leaves. */
    method Restore(settled0: map<Name, Limits>, pending0: map<Name, Limits>, totals0: Totals)
      requires pending0.Keys <= settled0.Keys && Summed(settled0, totals0)
      modifies this
      ensures Valid() && settled == settled0 && pending == pending0 && totals == totals0
    {
      settled, pending, totals := settled0, pending0, totals0;
    }

    /** Settles every pending entry in the order of the owners, and leaves what is reported for any
        account as it was. It succeeds if and only if no total overflows on the way, and is undone
        otherwise. */
    method ProcessAccountLimitUpdates() returns (ok: bool, ghost owners: seq<Name>)
      requires Valid()
      modifies this
      ensures Valid() && settled.Keys == old(settled.Keys) && InOrder(old(pending), owners)
      ensures ok <==> Fits(old(settled), old(pending), old(totals), owners, |owners|)
      ensures ok ==> pending == map[] && forall a | a in settled :: settled[a] == old(Reported(a))
      ensures !ok ==> settled == old(settled) && pending == old(pending) && totals == old(totals)
    {
      hide Summed, After, Settling, Fits, InOrder, Ascending, Running, Total;
      ghost var from := Accounts(settled, pending, totals);
      var settled0, pending0, totals0 := settled, pending, totals;
      owners := OwnersListed(pending.Keys);
      OwnersInOrder(pending, owners);
      SettlingStarts(from, owners);
      ghost var n := 0;
      while pending != map[]
        invariant Valid() && Settling(from, owners, n, Accounts(settled, pending, totals))
        decreases |pending|
      {
        ghost var was := Accounts(settled, pending, totals);
        var a := FirstPending();
        NextOwner(from, owners, n, was, a);
        Smaller(pending, a);
        ok := SettleOne(a);
        if !ok {
          Overflowed(from, owners, n, was);
          Restore(settled0, pending0, totals0);
          return false, owners;
        }
        SettledNext(from, owners, n, was, Accounts(settled, pending, totals));
        n := n + 1;
      }
      AllSettled(from, owners, n, Accounts(settled, pending, totals));
      return true, owners;
    }
  }
}
