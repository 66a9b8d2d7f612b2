/** Order statistics over sequences of block numbers: the part of the standard library that
    the irreversibility calculation relies on, with the counting facts that give it meaning. */
module Selection {

  ghost predicate Sorted(s: seq<nat>) {
    forall i, j | 0 <= i < j < |s| :: s[i] <= s[j]
  }

  /** How many elements of s are at least v. */
  function CountGe(s: seq<nat>, v: nat): (c: nat)
    ensures c <= |s|
  {
    if s == [] then 0 else (if s[0] >= v then 1 else 0) + CountGe(s[1..], v)
  }

  /** The same elements in another order: for every v, equally many reach v. */
  ghost predicate Rearranged(s: seq<nat>, r: seq<nat>) {
    |r| == |s| && forall v: nat :: CountGe(r, v) == CountGe(s, v)
  }

  lemma RearrangedSize(s: seq<nat>, r: seq<nat>)
    requires Rearranged(s, r)
    ensures |r| == |s|
  {
  }

  function InsertSorted(x: nat, s: seq<nat>): seq<nat> {
    if s == [] || x <= s[0] then [x] + s else [s[0]] + InsertSorted(x, s[1..])
  }

  lemma {:induction false} InsertKeepsSorted(x: nat, s: seq<nat>)
    requires Sorted(s)
    ensures var r := InsertSorted(x, s);
            Sorted(r) && |r| == |s| + 1 && (r[0] == x || (s != [] && r[0] == s[0]))
  {
    if s != [] && x > s[0] {
      InsertKeepsSorted(x, s[1..]);
    }
  }

  lemma {:induction false} InsertCounts(x: nat, s: seq<nat>, v: nat)
    ensures CountGe(InsertSorted(x, s), v) == CountGe(s, v) + if x >= v then 1 else 0
  {
    if s == [] || x <= s[0] {
      assert ([x] + s)[1..] == s;
    } else {
      InsertCounts(x, s[1..], v);
      assert ([s[0]] + InsertSorted(x, s[1..]))[1..] == InsertSorted(x, s[1..]);
    }
  }

  method Sort(s: seq<nat>) returns (r: seq<nat>)
    ensures Sorted(r) && Rearranged(s, r)
  {
    r := [];
    for i := |s| downto 0
      invariant Sorted(r) && Rearranged(s[i..], r)
    {
      forall v: nat ensures CountGe(InsertSorted(s[i], r), v) == CountGe(s[i..], v) {
        InsertCounts(s[i], r, v);
        assert s[i..][1..] == s[i+1..];
      }
      InsertKeepsSorted(s[i], r);
      r := InsertSorted(s[i], r);
    }
    assert s[0..] == s;
  }

  /** The contract of std::nth_element: everything before position k is no larger than the element
      at k, and everything after it no smaller. */
  method NthElement(s: seq<nat>, k: nat) returns (r: seq<nat>)
    requires k < |s|
    ensures Rearranged(s, r)
    ensures forall i | 0 <= i < k :: r[i] <= r[k]
    ensures forall i | k < i < |r| :: r[k] <= r[i]
  {
    r := Sort(s);
  }

  lemma {:induction false} CountGeConcat(a: seq<nat>, b: seq<nat>, v: nat)
    ensures CountGe(a + b, v) == CountGe(a, v) + CountGe(b, v)
  {
    if a == [] {
      assert a + b == b;
    } else {
      assert (a + b)[1..] == a[1..] + b;
      CountGeConcat(a[1..], b, v);
    }
  }

  lemma {:induction false} CountGeAll(s: seq<nat>, v: nat)
    requires forall i | 0 <= i < |s| :: s[i] >= v
    ensures CountGe(s, v) == |s|
  {
    if s != [] { CountGeAll(s[1..], v); }
  }

  lemma {:induction false} CountGeNone(s: seq<nat>, v: nat)
    requires forall i | 0 <= i < |s| :: s[i] < v
    ensures CountGe(s, v) == 0
  {
    if s != [] { CountGeNone(s[1..], v); }
  }

  /** Position k of a partitioned sequence: at least |s| - k elements reach it, fewer exceed it. */
  lemma {:induction false} NthCounts(s: seq<nat>, k: nat)
    requires k < |s|
    requires forall i | 0 <= i < k :: s[i] <= s[k]
    requires forall i | k < i < |s| :: s[k] <= s[i]
    ensures CountGe(s, s[k]) >= |s| - k
    ensures CountGe(s, s[k] + 1) < |s| - k
  {
    var lo, hi := s[..k], s[k..];
    assert s == lo + hi;
    CountGeConcat(lo, hi, s[k]);
    CountGeAll(hi, s[k]);
    var lo', hi' := s[..k+1], s[k+1..];
    assert s == lo' + hi';
    CountGeConcat(lo', hi', s[k] + 1);
    CountGeNone(lo', s[k] + 1);
  }
}
