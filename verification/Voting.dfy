/** Confirmation counting on its own: each block of a branch casts one vote, which covers itself
    and a range of blocks before it. Positions are relative to the start of the branch. */
module Voting {
  import opened Basics
  import opened HeaderState

  datatype Vote = Vote(producer: Name, confirmed: nat, required: nat)

  predicate Covers(votes: seq<Vote>, j: int, r: int) {
    0 <= j < |votes| && j - votes[j].confirmed <= r <= j
  }

  /** The producers whose votes cover block r. */
  ghost function Confirmers(votes: seq<Vote>, r: int): set<Name> {
    set j | 0 <= j < |votes| && Covers(votes, j, r) :: votes[j].producer
  }

  /** Two votes of one producer never overlap. */
  ghost predicate OneVoteEach(votes: seq<Vote>) {
    forall i, j | 0 <= i < j < |votes| && votes[i].producer == votes[j].producer ::
      i < j - votes[j].confirmed
  }

  lemma OneVotePrefix(votes: seq<Vote>, n: nat)
    requires OneVoteEach(votes) && n <= |votes|
    ensures OneVoteEach(votes[..n])
  {
  }

  ghost function Missing(votes: seq<Vote>, r: nat): int
    requires r < |votes|
  {
    votes[r].required - |Confirmers(votes, r)|
  }

  /** The counter list ends at the newest block, and the counter of every block that the branch
      contains is what that block is still missing. */
  ghost predicate Counted(votes: seq<Vote>, counts: seq<int>) {
    forall t | 0 <= t < |counts| && |votes| - |counts| + t >= 0 ::
      counts[t] == Missing(votes, |votes| - |counts| + t)
  }

  lemma ConfirmersStep(votes: seq<Vote>, v: Vote, r: nat)
    requires OneVoteEach(votes + [v])
    ensures var n := |votes|;
            if n - v.confirmed <= r <= n then
              && v.producer !in Confirmers(votes, r)
              && Confirmers(votes + [v], r) == Confirmers(votes, r) + {v.producer}
            else Confirmers(votes + [v], r) == Confirmers(votes, r)
  {
    var all := votes + [v];
    var n := |votes|;
    assert all[n] == v;
    assert forall j | 0 <= j < n :: all[j] == votes[j] && (Covers(all, j, r) <==> Covers(votes, j, r));
    if n - v.confirmed <= r <= n {
      forall j | 0 <= j < n && Covers(votes, j, r) ensures votes[j].producer != v.producer {
        assert all[j] == votes[j];
      }
      assert Covers(all, n, r);
    }
  }

  /** What one more vote does to the missing confirmations of block r. */
  lemma MissingStep(votes: seq<Vote>, v: Vote, r: nat)
    requires OneVoteEach(votes + [v]) && r <= |votes|
    ensures Missing(votes + [v], r) ==
            (if r < |votes| then Missing(votes, r) else v.required)
            - (if |votes| - v.confirmed <= r then 1 else 0)
  {
    ConfirmersStep(votes, v, r);
    if r == |votes| {
      assert Confirmers(votes, r) == {};
    }
  }

  /** A new block joins the list with its full quorum missing. */
  ghost predicate CountedGrown(votes: seq<Vote>, v: Vote, g: seq<int>) {
    forall t | 0 <= t < |g| && |votes| + 1 - |g| + t >= 0 ::
      var r := |votes| + 1 - |g| + t;
      g[t] == if r < |votes| then Missing(votes, r) else v.required
  }

  lemma GrownCounted(votes: seq<Vote>, v: Vote, counts: seq<int>)
    requires Counted(votes, counts)
    ensures CountedGrown(votes, v, Grown(counts, v.required))
  {
    var g := Grown(counts, v.required);
    forall t | 0 <= t < |g| && |votes| + 1 - |g| + t >= 0
      ensures var r := |votes| + 1 - |g| + t;
              g[t] == if r < |votes| then Missing(votes, r) else v.required
    {
      if t < |g| - 1 {
        var t' := if |counts| < MAX_TRACKED_CONFIRMATIONS then t else t + 1;
        assert g[t] == counts[t'] && |votes| + 1 - |g| + t == |votes| - |counts| + t';
      }
    }
  }

  /** A new vote is taken off every counter in its range; a counter that reaches zero belongs to a
      block that is missing no confirmation any more. */
  lemma {:induction false} CountedConfirm(votes: seq<Vote>, v: Vote, g: seq<int>, c: Confirmation)
    requires OneVoteEach(votes + [v]) && CountedGrown(votes, v, g)
    requires forall t | 0 <= t < |g| :: g[t] > 0
    requires ConfirmedAt(g, v.confirmed + 1, c)
    ensures Counted(votes + [v], c.counts)
    ensures c.ready.Some? && |c.counts| <= |votes| ==>
              Missing(votes + [v], |votes| - |c.counts|) == 0
  {
    hide OneVoteEach, Missing;
    var all, n := votes + [v], |votes|;
    var d := |g| - |c.counts|;
    forall t | 0 <= t < |c.counts| && n + 1 - |c.counts| + t >= 0
      ensures c.counts[t] == Missing(all, n + 1 - |c.counts| + t)
    {
      MissingStep(votes, v, n + 1 - |g| + (d + t));
    }
    if c.ready.Some? && |c.counts| <= n {
      MissingStep(votes, v, n + 1 - |g| + (d - 1));
    }
  }

  lemma CountedStep(votes: seq<Vote>, v: Vote, counts: seq<int>, c: Confirmation)
    requires OneVoteEach(votes + [v]) && Counted(votes, counts)
    requires v.required > 0 && forall t | 0 <= t < |counts| :: counts[t] > 0
    requires c == Confirm(Grown(counts, v.required), v.confirmed + 1)
    ensures Counted(votes + [v], c.counts)
    ensures c.ready.Some? && |c.counts| <= |votes| ==>
              Missing(votes + [v], |votes| - |c.counts|) == 0
  {
    hide Confirm, ConfirmedAt, Counted, CountedGrown, OneVoteEach, Missing;
    GrownCounted(votes, v, counts);
    var g := Grown(counts, v.required);
    ConfirmAt(g, v.confirmed + 1);
    CountedConfirm(votes, v, g, c);
  }
}
