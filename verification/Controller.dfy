/** libraries/chain/controller.cpp: switching forks with undo and re-apply, and moving irreversible
    blocks into the log. Covers every read mode except the irreversible one. */
module ControllerClass {
  import opened Basics
  import opened ForkDb
  import opened ForkTree
  import opened ForkBranches
  import opened ForkLead
  import opened ForkDatabaseClass
  import opened ChainState

  datatype SwitchResult =
    | Switched
    | Rejected(bad: Id)   // a block failed to apply; the exception is rethrown
    | Undefined           // the source reads the last element of an empty branch

  /** The block log: consecutive, prev-linked, and ending at the root of the fork database. */
  ghost predicate LogMatches(log: seq<Block>, firstNum: nat, root: Block) {
    && (if log == [] then root.id.num + 1 == firstNum else log[|log|-1] == root)
    && (forall i | 0 <= i < |log| :: log[i].id.num == firstNum + i)
    && (forall i | 0 < i < |log| :: log[i].prev == log[i-1].id)
  }

  class Controller<S(!new)> {
    const exec: Exec<S>
    const fork: ForkDatabase
    const firstNum: nat              // first_block_num of the block log
    var head: Block
    var current: S                   // the state database, and its undo stack
    var undo: seq<S>
    var revision: nat
    var reversible: map<nat, Block>  // the reversible-blocks database
    var log: seq<Block>
    ghost var start: S               // the state of the root block

    /** The state that replaying the chain from the root to block x gives. */
    ghost function StateAt(x: Id): Option<S>
      reads this, fork
    {
      StateOf(exec, fork.index, fork.root.id, start, x)
    }

    ghost function At(): Position<S>
      reads this
    {
      Position(head, current, undo, revision, reversible)
    }

    ghost predicate Valid()
      reads this, fork
    {
      && fork.Valid() && InSync(exec, fork.View(), start, At())
      && LogMatches(log, firstNum, fork.root) && Numbered(fork.root)
    }

    /** A controller at its root block: with the root as first block of the log (genesis), or with
        an empty log that starts after it (snapshot). */
    constructor (apply: Exec<S>, root: Block, state: S, logHoldsRoot: bool)
      requires Numbered(root)
      ensures Valid() && fresh(fork) && exec == apply && fork.root == head == root && current == state
      ensures log == (if logHoldsRoot then [root] else []) && Leads() && Flushed() && fork.View() == Reset(root)
    {
      exec, head, current, start := apply, root, state, state;
      undo, revision, reversible := [], root.id.num, map[];
      fork := new ForkDatabase(root);
      firstNum := if logHoldsRoot then root.id.num else root.id.num + 1;
      log := if logHoldsRoot then [root] else [];
    }

    /** pop_block: never reaches the root, so the parent is known and the undo stack is not empty. */
    method PopBlock()
      requires Valid() && head.id != fork.root.id
      modifies this`head, this`current, this`undo, this`revision, this`reversible
      ensures Valid() && Known(fork.View(), old(head).prev)
      ensures head == Lookup(fork.View(), old(head).prev)
    {
      hide Tree, BestHead, InSync, LogMatches;
      PopSync(exec, fork.View(), start, At());
      var prev := if head.prev == fork.root.id then fork.root else fork.index[head.prev];
      reversible := reversible - {head.id.num};
      head := prev;
      current, undo, revision := undo[|undo|-1], undo[..|undo|-1], revision - 1;
      assert At() == Popped(fork.View(), old(At()));
    }

    /** apply_block followed by mark_valid and the head assignment. A block that fails to apply
        leaves everything as it was; creating its reversible-blocks entry never clashes. */
    method AdvanceTo(b: Block) returns (ok: bool)
      requires Valid() && b.id in fork.index && fork.index[b.id] == b && b.prev == head.id
      modifies this`head, this`current, this`undo, this`revision, this`reversible, fork
      ensures Valid() && ok == old(StateAt(b.id)).Some?
      ensures ForkDb.MarkValid(old(fork.View()), b.id).Ok?
      ensures fork.View() == if ok then ForkDb.MarkValid(old(fork.View()), b.id).value else old(fork.View())
      ensures ok ==> head == b && Some(current) == old(StateAt(b.id))
      ensures !ok ==> At() == old(At())
    {
      hide Tree, BestHead, InSync, LogMatches, StateOf, ForkDb.MarkValid;
      AdvanceSync(exec, fork.View(), start, At(), b);
      MarkValidKeeps(fork.View(), b.id);
      MarkShape(fork.View(), b.id);
      match exec(b, current)
      case None => return false;
      case Some(next) =>
        assert b.id.num !in reversible && revision == head.id.num;
        undo, current, revision := undo + [current], next, revision + 1;
        reversible := reversible[b.id.num := b];
        var marked := fork.MarkValid(b.id);
        head := b;
        assert At() == Pushed(old(At()), b, next);
        return true;
    }

    /** fork_db.remove for a block that failed to apply: its subtree leaves the tree, and nothing
        the controller stands on is in it. */
    method RemoveBad(bad: Id)
      requires Valid() && bad in fork.index && StateAt(bad).None?
      modifies fork
      ensures Valid() && fork.valid == old(fork.valid) && fork.head == old(fork.head)
      ensures fork.root == old(fork.root) && fork.index == old(fork.index) - Subtree(old(fork.index), bad)
    {
      assert WellNumbered(fork.index) && fork.valid <= fork.index.Keys;
      hide Tree, BestHead, InSync, LogMatches, StateOf, WellNumbered, Under, Subtree;
      RemoveSync(exec, fork.View(), start, At(), bad);
      RemoveKeeps(fork.View(), bad);
      var removed := fork.Remove(bad);
    }

    /** Pops a whole branch of the head, down to z. */
    method PopBranch(q: seq<Block>, ghost z: Id)
      requires Valid() && IsChain(fork.index, head.id, q, z) && Known(fork.View(), z)
      modifies this`head, this`current, this`undo, this`revision, this`reversible
      ensures Valid() && head.id == z && head == Lookup(fork.View(), z)
    {
      hide Tree, BestHead, InSync, LogMatches;
      ghost var x := head.id;
      OnTreeFacts(exec, fork.View(), start, At());
      for i := 0 to |q|
        invariant Valid() && OnTree(fork.View(), head)
        invariant head.id == if i < |q| then q[i].id else z
      {
        ChainAt(fork.View(), x, q, z, i);
        assert head == q[i];
        PopBlock();
        LookupOnTree(fork.View(), q[i].prev);
      }
    }

    /** Applies block k - 1 of branch p, or removes it with everything under it if it fails. */
    method ApplyNext(p: seq<Block>, ghost z: Id, k: nat, ghost db: Db) returns (ok: bool)
      requires Valid() && 0 < k <= |p| && fork.root == db.root && fork.index == db.index && MarkedOn(db, fork.View(), p, k)
      requires IsChain(db.index, p[0].id, p, z) && head.id == if k < |p| then p[k].id else z
      modifies this`head, this`current, this`undo, this`revision, this`reversible, fork
      ensures Valid() && fork.root == db.root && db.valid <= fork.valid && ok == old(StateAt(p[k-1].id)).Some?
      ensures ok ==> head == p[k-1] && fork.index == db.index && MarkedOn(db, fork.View(), p, k - 1)
      ensures !ok ==> At() == old(At()) && fork.index == db.index - Subtree(db.index, p[k-1].id)
      ensures start == old(start)
    {
      hide Tree, BestHead, InSync, LogMatches, IsChain, StateOf, ForkDb.MarkValid, MarkedOn, Subtree;
      ghost var before := fork.View();
      MarkedShape(db, before, p, k);
      ChainAt(before, p[0].id, p, z, k - 1);
      ok := AdvanceTo(p[k-1]);
      if ok {
        MarkedMore(db, before, p, k);
        MarkedShape(db, fork.View(), p, k - 1);
      } else {
        RemoveBad(p[k-1].id);
      }
    }

    /** Applies the blocks of branch p, oldest first, on top of its end z. On the first failure the
        block and everything under it leave the fork database. */
    method ApplyBranch(p: seq<Block>, ghost z: Id) returns (left: nat)
      requires Valid() && p != [] && head.id == z && IsChain(fork.index, p[0].id, p, z) && Known(fork.View(), z)
      modifies this`head, this`current, this`undo, this`revision, this`reversible, fork
      ensures Valid() && left <= |p| && fork.root == old(fork.root) && old(fork.valid) <= fork.valid
      ensures head.id == if left < |p| then p[left].id else z
      ensures left == 0 ==> head == p[0] && fork.index == old(fork.index) && MarkedOn(old(fork.View()), fork.View(), p, 0)
      ensures left > 0 ==> old(StateAt(p[left-1].id)).None?
                           && fork.index == old(fork.index) - Subtree(old(fork.index), p[left-1].id)
    {
      ghost var db := fork.View();
      assert MarkedOn(db, db, p, |p|);
      hide *;
      left := |p|;
      while left > 0
        invariant Valid() && left <= |p| && fork.root == db.root && fork.index == db.index && start == old(start)
        invariant head.id == (if left < |p| then p[left].id else z) && (left == 0 ==> head == p[0])
        invariant MarkedOn(db, fork.View(), p, left)
      {
        var ok := ApplyNext(p, z, left, db);
        if !ok { return; }
        left := left - 1;
      }
      MarkedShape(db, fork.View(), p, 0);
    }

    /** Re-applies a branch that was validated before, which therefore cannot fail. */
    method ReapplyBranch(q: seq<Block>, ghost z: Id)
      requires Valid() && q != [] && head.id == z && IsChain(fork.index, q[0].id, q, z) && Known(fork.View(), z)
      requires forall k | 0 <= k < |q| :: q[k].id in fork.valid
      modifies this`head, this`current, this`undo, this`revision, this`reversible, fork
      ensures Valid() && head == q[0] && fork.View() == old(fork.View())
    {
      ghost var db := fork.View();
      hide Tree, BestHead, InSync, LogMatches, IsChain, StateOf, ForkDb.MarkValid;
      var i := |q|;
      while i > 0
        invariant Valid() && 0 <= i <= |q| && fork.View() == db
        invariant head.id == (if i < |q| then q[i].id else z) && (i == 0 ==> head == q[0])
      {
        ChainAt(db, q[0].id, q, z, i - 1);
        SyncReplays(exec, db, start, At(), q[i-1].id);
        var ok := AdvanceTo(q[i-1]);
        i := i - 1;
      }
    }

    /** The handler of a failed switch: pops the blocks of p that did apply, and re-applies q. */
    method BackOut(p: seq<Block>, q: seq<Block>, left: nat, ghost z: Id, ghost db: Db, ghost was: Position<S>)
      returns (r: SwitchResult)
      requires Valid() && 0 < left <= |p| && (q != [] ==> q[0] == was.head)
      requires Tree(db) && InSync(exec, db, start, was) && Known(db, z)
      requires IsChain(db.index, p[0].id, p, z) && IsChain(db.index, was.head.id, q, z)
      requires StateOf(exec, db.index, db.root.id, start, p[left-1].id).None? && p[left-1].id in db.index
      requires fork.index == db.index - Subtree(db.index, p[left-1].id) && fork.root == db.root && db.valid <= fork.valid
      requires head.id == if left < |p| then p[left].id else z
      modifies this`head, this`current, this`undo, this`revision, this`reversible, fork
      ensures r == if q == [] then Undefined else Rejected(p[left-1].id)
      ensures q != [] ==> Valid() && fork.View() == old(fork.View()) && At() == was
    {
      hide Tree, BestHead, InSync, LogMatches, IsChain, StateOf, Subtree;
      SurvivingChains(exec, db, start, was, p, q, z, left, fork.View());
      PopBranch(p[left..], z);
      if q == [] {
        return Undefined;
      }
      ReapplyBranch(q, z);
      Restored(exec, db, fork.View(), start, was, At(), p[left-1].id);
      return Rejected(p[left-1].id);
    }

    /** maybe_switch_forks for a new head that does not extend the current one. */
    method SwitchTo(newHead: Block) returns (r: SwitchResult)
      requires Valid() && OnTree(fork.View(), newHead) && newHead.id != head.id && newHead.prev != head.id
      modifies this`head, this`current, this`undo, this`revision, this`reversible, fork
      ensures !r.Undefined? ==> Valid()
      ensures SwitchOutcome(exec, start, old(fork.View()), old(At()), newHead, r, fork.View(), At())
    {
      hide Tree, BestHead, InSync, LogMatches, IsChain, StateOf, Branches, Under, Subtree, MarkedOn, Lookup, SwitchOutcome;
      ghost var db, was := fork.View(), At();
      OnTreeFacts(exec, db, start, was);
      var branches := fork.FetchBranchFrom(newHead.id, head.id);
      var p, q := branches.value.0, branches.value.1;
      ghost var z := ForkPoint(db, newHead, head, p, q);
      hide OnTree, Known;
      PopBranch(q, z);
      if p == [] {
        SwitchedBack(exec, db, start, was, newHead, At());
        return Switched;
      }
      var left := ApplyBranch(p, z);
      if left == 0 {
        SwitchedHead(exec, db, start, was, p, z, fork.View(), At());
        return Switched;
      }
      BadOnPath(exec, db, start, p, z, left - 1);
      r := BackOut(p, q, left, z, db, was);
      SwitchFailed(exec, db, start, was, p[left-1].id, newHead, r, fork.View(), At());
    }

    /** undo_stack::commit: drops the entries of revisions up to num, oldest first. */
    method CommitState(num: nat)
      requires |undo| <= revision
      modifies this`undo
      ensures var gone := num - (revision - |old(undo)|);
              undo == if gone <= 0 then old(undo) else if gone <= |old(undo)| then old(undo)[gone..] else []
    {
      while undo != [] && revision - |undo| + 1 <= num
        invariant |undo| <= |old(undo)| && undo == old(undo)[|old(undo)| - |undo|..]
        invariant |undo| < |old(undo)| ==> revision - |undo| <= num
        decreases |undo|
      {
        undo := undo[1..];
      }
    }

    /** Removes the reversible blocks up to num. */
    method DropReversible(num: nat)
      modifies this`reversible
      ensures reversible == map n | n in old(reversible) && n > num :: old(reversible)[n]
    {
      var todo := set n | n in reversible && n <= num;
      while todo != {}
        invariant forall n | n in todo :: n in reversible && n <= num
        invariant forall n | n in reversible :: n in old(reversible) && reversible[n] == old(reversible)[n]
        invariant forall n | n in old(reversible) && n !in reversible :: n <= num
        invariant forall n | n in reversible && n <= num :: n in todo
        decreases todo
      {
        var n :| n in todo;
        reversible := reversible - {n};
        todo := todo - {n};
      }
    }

    /** Moves block i of the branch into the log. */
    method LogNext(branch: seq<Block>, i: nat, ghost db: Db, ghost was: Position<S>)
      requires BranchOk(db, was, branch) && i < |branch| && CanCommit(db, was, LogRoot(db, branch, i + 1).id)
      requires At() == Committed(db, was, LogRoot(db, branch, i + 1).id)
      requires LogMatches(log, firstNum, LogRoot(db, branch, i + 1))
      modifies this`undo, this`reversible, this`log
      ensures log == old(log) + [branch[i]] && LogMatches(log, firstNum, branch[i])
      ensures CanCommit(db, was, branch[i].id) && At() == Committed(db, was, branch[i].id)
    {
      hide LogMatches, Committed, BranchOk, CanCommit;
      LogStep(db, was, branch, i, log, firstNum);
      CommitState(branch[i].id.num);
      assert branch[i].id.num == firstNum + |log|;
      log := log + [branch[i]];
      DropReversible(branch[i].id.num);
    }

    /** log_irreversible: the blocks of the head's branch up to its irreversible number move from the
        undo stack, the reversible-blocks database and the fork database into the log. */
    method LogIrreversible()
      requires Valid() && head == fork.head
      modifies this`undo, this`reversible, this`log, this`start, fork
      ensures Valid() && fork.head == head && old(log) <= log
      ensures fork.index.Keys <= old(fork.index.Keys) && forall x | x in fork.index :: fork.index[x] == old(fork.index)[x]
      ensures fork.index == Kept(old(fork.View()), fork.root.id)
      ensures Under(old(fork.index), head.id, fork.root.id) && OnTree(old(fork.View()), fork.root)
      ensures fork.root.id.num == Settled(head.lib, old(fork.root.id.num), head.id.num)
      ensures LogGrew(old(fork.index), old(fork.root), head, old(log), log, fork.root)
    {
      hide Tree, BestHead, InSync, LogMatches, StateOf, Under, Subtree, Path, UpTo, Committed, ForkDb.AdvanceRoot, BranchOk, Kept,
           LogGrew, LoggedFrom;
      ghost var db, was := fork.View(), At();
      KeptAtRoot(db);
      LogAtRoot(exec, db, start, was, log, firstNum);
      NothingLogged(db, head, log);
      var lib := fork.head.lib;
      if lib <= (if log == [] then firstNum - 1 else log[|log|-1].id.num) {
        return;
      }
      var branch := fork.FetchBranch(fork.head.id, lib);
      BranchToLog(exec, db, start, was, lib, branch);
      var i := |branch|;
      while i > 0
        invariant 0 <= i <= |branch| && fork.View() == db && start == old(start) && old(log) <= log
        invariant CanCommit(db, was, LogRoot(db, branch, i).id)
        invariant At() == Committed(db, was, LogRoot(db, branch, i).id)
        invariant LogMatches(log, firstNum, LogRoot(db, branch, i)) && LoggedFrom(old(log), log, branch, i)
      {
        i := i - 1;
        ghost var before := log;
        LogNext(branch, i, db, was);
        LoggedMore(old(log), before, log, branch, i);
      }
      BranchGrew(db, was, branch, old(log), log);
      if branch != [] {
        BranchLogged(exec, db, start, was, branch);
        var advanced := fork.AdvanceRoot(branch[0].id);
        start := StateOf(exec, db.index, db.root.id, start, branch[0].id).value;
      }
    }

    /** maybe_switch_forks, up to the logging of irreversible blocks. */
    method Reorganize(newHead: Block) returns (r: SwitchResult)
      requires Valid() && OnTree(fork.View(), newHead) && IsPending(fork.View(), newHead)
      modifies this`head, this`current, this`undo, this`revision, this`reversible, fork
      ensures !r.Undefined? ==> Valid()
      ensures SwitchOutcome(exec, start, old(fork.View()), old(At()), newHead, r, fork.View(), At())
    {
      hide Tree, BestHead, InSync, LogMatches, StateOf, Under, Subtree, SwitchOutcome, ForkDb.MarkValid, IsPending;
      ghost var db, was := fork.View(), At();
      if newHead.prev == head.id {
        ExtendsHead(exec, db, start, was, newHead);
        var ok := AdvanceTo(newHead);
        if ok {
          ExtendedHead(exec, db, start, was, newHead, At());
          return Switched;
        }
        RemoveBad(newHead.id);
        ExtensionFailed(exec, db, start, was, newHead, fork.View());
        return Rejected(newHead.id);
      } else if newHead.id != head.id {
        r := SwitchTo(newHead);
      } else {
        HeadUnchanged(exec, db, start, was, newHead);
        return Switched;
      }
    }

    /** Nothing in the fork database is preferred to the controller's head. */
    ghost predicate Leads()
      reads this, fork
    {
      LeadsTree(fork.index, head)
    }

    /** Everything irreversible on the head's path has left the fork database. */
    ghost predicate Flushed()
      reads this, fork
    {
      head.lib <= fork.root.id.num || head.id.num <= fork.root.id.num
    }

    lemma FlushedIndex()
      requires Valid() && Flushed()
      ensures forall x | x in fork.index :: head.lib < x.num || head.id.num < x.num
    {
      forall x | x in fork.index ensures fork.root.id.num < x.num { UnderRoot(fork.View(), x); }
    }

    /** push_block: the log keeps what it holds, and a head that led the tree still leads it, or its
        successor does. Only an undefined switch promises nothing; it cannot happen to a leading head
        if no block of the tree reports a lower irreversible number than its parent. */
    method PushBlock(b: Block) returns (r: PushResult)
      requires Valid() && Numbered(b)
      modifies this`head, this`current, this`undo, this`revision, this`reversible, this`log, this`start, fork
      ensures r != Handled(Undefined) ==> Valid() && old(log) <= log && (old(Leads()) ==> Leads())
      ensures r != Handled(Undefined) ==> Blocks(fork.View()) <= old(Blocks(fork.View())) + {b}
      ensures r != Handled(Undefined) && (old(Flushed()) || head != old(head)) ==> Flushed()
      ensures old(Leads()) && LibsRise(old(Blocks(fork.View()))) ==> r != Handled(Undefined)
      ensures match ForkDb.Add(old(fork.View()), b, false, false)
              case Err(e) => r == Refused(e) && fork.View() == old(fork.View()) && At() == old(At()) && log == old(log)
              case Ok(db) => r.Handled?
                             && PushOutcome(exec, old(start), db, old(At()), old(log), r.outcome, fork.View(), At(), log)
    {
      hide Tree, BestHead, InSync, LogMatches, StateOf, Under, Subtree, SwitchOutcome, PushOutcome, ForkDb.Add,
           LeadsTree, LibsRise, Blocks, Kept, LogGrew;
      ghost var was := At();
      AddedSync(exec, fork.View(), start, was, b);
      var added := fork.Add(b, false, false);
      if added.Failed? { return Refused(added.error); }
      ghost var db := fork.View();
      var newHead := fork.PendingHead();
      PendingOnTree(db);
      var changed := newHead.id != head.id;
      var outcome := Reorganize(newHead);
      ghost var mid, there := fork.View(), At();
      if outcome.Switched? && changed {
        SwitchedTo(exec, db, start, was, newHead, outcome, mid, there);
        LogIrreversible();
      }
      PushDone(exec, old(start), db, was, old(log), outcome, mid, there, fork.View(), At(), log);
      PushFlushed(exec, old(start), db, was, old(log), outcome, fork.View(), At(), log);
      PushLeads(exec, old(start), old(fork.View()), b, was, old(log), outcome, fork.View(), At(), log);
      return Handled(outcome);
    }

    /** commit_block for a block produced on top of the head. It is accepted exactly when it is
        preferred to every validated block. Otherwise the exception leaves the state database at the
        old head while `head` already names the fork database's head; the two agree exactly if the old
        head was the front of the validated blocks, or nothing was validated. */
    method CommitBlock(b: Block) returns (r: CommitResult)
      requires Valid() && Numbered(b) && b.prev == head.id && exec(b, current).Some?
      modifies this`head, this`current, this`undo, this`revision, this`reversible, this`log, this`start, fork
      ensures r == if b.id in old(fork.index) then NotAdded(Duplicate)
                   else if old(Beats(fork.View(), b)) then Produced else NotHead
      ensures r.NotAdded? ==> Valid() && fork.View() == old(fork.View()) && At() == old(At()) && log == old(log)
      ensures r.Produced? ==> LogGrew(old(fork.index)[b.id := b], old(fork.root), b, old(log), log, fork.root) && Flushed()
      ensures r.Produced? ==> Valid() && head == b == fork.head && Some(current) == old(exec(b, current)) && old(log) <= log
      ensures r.NotHead? ==> head == fork.head && At() == old(At()).(head := head) && log == old(log)
      ensures r.NotHead? ==> (Valid() <==> old(FrontOfValid(fork.View(), head))) && (Valid() <==> head == old(head))
      ensures r.NotHead? ==> ForkDb.MarkValid(Insert(old(fork.View()), b, false), b.id) == Ok(fork.View())
      ensures old(Leads()) && old(head) != old(fork.root) ==>
                (r.NotHead? <==> b.id !in old(fork.index) && b.lib < old(head).lib)
      ensures old(Leads()) && old(head).lib <= b.lib ==> !r.NotHead? && Leads()
      ensures !r.NotHead? ==> Blocks(fork.View()) <= old(Blocks(fork.View())) + {b} && (old(Flushed()) ==> Flushed())
    {
      hide Tree, BestHead, InSync, LogMatches, StateOf, ForkDb.Add, ForkDb.MarkValid, Beats, LeadsTree, Blocks, Under,
           FrontOfValid, LogGrew;
      ghost var db, was := fork.View(), At();
      AddedSync(exec, db, start, was, b);
      CommitHead(exec, db, start, was, b);
      var added := fork.Add(b, false, false);
      if added.Failed? { return NotAdded(added.error); }
      ghost var with := fork.View();
      AdvanceSync(exec, with, start, was, b);
      MarkShape(with, b.id);
      if LeadsTree(db.index, was.head) { BeatsWhenLeading(exec, db, start, was, b); }
      var marked := fork.MarkValid(b.id);
      ghost var now := fork.View();
      head := fork.head;
      if head != b {
        MarkSync(exec, with, start, was, b);
        RefusedHead(exec, db, start, was, b);
        HeadForced(exec, now, start, was, head);
        return NotHead;
      }
      undo, current, revision := undo + [current], exec(b, current).value, revision + 1;
      reversible := reversible[b.id.num := b];
      assert At() == Pushed(was, b, current);
      LogIrreversible();
      GrewFlushed(now.index, now.root, head, old(log), log, fork.root);
      BlocksAfter(db, b, now, fork.View());
      if LeadsTree(db.index, was.head) && was.head.lib <= b.lib { ProducedLeads(db, was.head, b, fork.index); }
      return Produced;
    }

    lemma HeadOnTree()
      requires Valid()
      ensures OnTree(fork.View(), head)
    {
      OnTreeFacts(exec, fork.View(), start, At());
    }

    /** Any run of pushed and produced blocks only ever extends the log. It stops early only at an
        undefined switch, or at a produced block that the fork database did not prefer; neither
        happens to a leading head if no block reports a lower irreversible number than its parent. */
    method Run(events: seq<Event>) returns (r: RunResult)
      requires Valid() && forall i | 0 <= i < |events| :: Numbered(events[i].block)
      modifies this`head, this`current, this`undo, this`revision, this`reversible, this`log, this`start, fork
      ensures r != Lost ==> old(log) <= log
      ensures r == Ran ==> Valid()
      ensures r == Ran && old(Flushed()) ==> forall x | x in fork.index :: head.lib < x.num || head.id.num < x.num
      ensures (forall i | 0 <= i < |events| :: events[i].Push?) ==> r != Forked
      ensures old(Leads()) && LibsRise(old(Blocks(fork.View())) + Arriving(events)) ==> r == Ran && Leads()
    {
      hide *;
      ghost var all := Blocks(fork.View()) + Arriving(events);
      ghost var rising := Leads() && LibsRise(all);
      for i := 0 to |events|
        invariant Valid() && old(log) <= log && (old(Flushed()) ==> Flushed())
        invariant rising ==> Leads() && Blocks(fork.View()) <= all
      {
        var b := events[i].block;
        HeadOnTree();
        if rising { StillRising(fork.View(), head, events, i, all); }
        if events[i].Push? {
          var pushed := PushBlock(b);
          if pushed == Handled(Undefined) { return Lost; }
        } else if b.prev == head.id && exec(b, current).Some? {
          var committed := CommitBlock(b);
          if committed == NotHead { return Forked; }
        }
      }
      if Flushed() { FlushedIndex(); }
      return Ran;
    }
  }

  datatype RunResult = Ran | Forked | Lost

  ghost function Arriving(events: seq<Event>): set<Block> {
    set i | 0 <= i < |events| :: events[i].block
  }

  lemma StillRising(db: Db, head: Block, events: seq<Event>, i: nat, all: set<Block>)
    requires i < |events| && Arriving(events) <= all && Blocks(db) <= all && LibsRise(all) && OnTree(db, head)
    ensures LibsRise(Blocks(db)) && events[i].block in all
    ensures events[i].block.prev == head.id ==> head.lib <= events[i].block.lib
  {
    assert events[i].block in Arriving(events);
    BlocksHas(db, head.id);
  }

  datatype CommitResult = Produced | NotAdded(error: Error) | NotHead

  datatype Event = Push(block: Block) | Produce(block: Block)

  datatype PushResult = Refused(error: Error) | Handled(outcome: SwitchResult)

  /** What push_block does once the block is in the fork database, which is then db. The best known
      block becomes the head if it replays, and nothing known is preferred to it. Otherwise the
      controller stays exactly where it was, and the offending branch is gone. */
  ghost predicate PushOutcome<S>(exec: Exec<S>, start: S, db: Db, was: Position<S>, log: seq<Block>,
      r: SwitchResult, now: Db, c: Position<S>, log': seq<Block>)
    requires forall x | x in db.index :: db.index[x].id == x
  {
    var best := PendingHead(db);
    var state := StateOf(exec, db.index, db.root.id, start, best.id);
    && (forall x | x in db.index :: !FirstPreferred(db.index[x], best))
    && (r.Switched? <==> state.Some?)
    && (r.Switched? ==> c.head == best == now.head && state == Some(c.current)
                        && Under(db.index, best.id, now.root.id) && OnTree(db, now.root)
                        && now.index == Kept(db, now.root.id)
                        && (if best.id == was.head.id then log' == log && now.root == db.root
                            else LogGrew(db.index, db.root, best, log, log', now.root)))
    && (r.Rejected? ==> c == was && log' == log && now.root == db.root
                        && r.bad in db.index && Under(db.index, best.id, r.bad)
                        && StateOf(exec, db.index, db.root.id, start, r.bad).None?
                        && now.index == db.index - Subtree(db.index, r.bad))
    && (r.Undefined? <==> state.None? && best.prev != was.head.id && Under(db.index, best.id, was.head.id))
  }

  lemma GrewFlushed(index: map<Id, Block>, root: Block, head: Block, log: seq<Block>, log': seq<Block>, root': Block)
    requires LogGrew(index, root, head, log, log', root')
    ensures head.lib <= root'.id.num || head.id.num <= root'.id.num
  {
  }

  lemma PushFlushed<S>(exec: Exec<S>, start: S, db: Db, was: Position<S>, log: seq<Block>,
      r: SwitchResult, now: Db, c: Position<S>, log': seq<Block>)
    requires Tree(db) && BestHead(db) && InSync(exec, db, start, was)
    requires PushOutcome(exec, start, db, was, log, r, now, c, log')
    ensures !r.Undefined? && c.head != was.head ==> c.head.lib <= now.root.id.num || c.head.id.num <= now.root.id.num
    ensures !r.Undefined? && c.head == was.head ==> now.root == db.root
  {
    hide StateOf, PendingHead, Under, Kept, Subtree, BestHead, InSync;
    PendingOnTree(db);
    OnTreeFacts(exec, db, start, was);
  }

  /** What a push means for the lead of the head. */
  lemma PushLeads<S>(exec: Exec<S>, start: S, before: Db, b: Block, was: Position<S>, log: seq<Block>,
      r: SwitchResult, now: Db, c: Position<S>, log': seq<Block>)
    requires Tree(before) && Numbered(b) && Add(before, b, false, false).Ok? && InSync(exec, before, start, was)
    requires PushOutcome(exec, start, Add(before, b, false, false).value, was, log, r, now, c, log')
    ensures !r.Undefined? ==> Blocks(now) <= Blocks(before) + {b}
    ensures !r.Undefined? && LeadsTree(before.index, was.head) ==> LeadsTree(now.index, c.head)
    ensures LeadsTree(before.index, was.head) && LibsRise(Blocks(before)) ==> !r.Undefined?
  {
    hide StateOf, Under, InSync, First, PendingHead, LeadsTree, LibsRise, Blocks, Subtree, BestHead, Kept;
    var db := Add(before, b, false, false).value;
    var best := PendingHead(db);
    AddKeeps(before, b, false, false);
    PendingOnTree(db);
    if !r.Undefined? {
      if r.Switched? { KeptSubset(db, now.root.id); }
      BlocksAfter(before, b, db, now);
      BestLeads(db.index, best);
      if LeadsTree(before.index, was.head) {
        if r.Switched? {
          LeadsFewer(db.index, now.index, best);
        } else {
          assert StateOf(exec, db.index, db.root.id, start, best.id).None?;
          StateNone(exec, db, start, best);
          RejectedLeads(before, b, was.head, best, r.bad, now.index);
        }
      }
    } else if LeadsTree(before.index, was.head) && LibsRise(Blocks(before)) {
      OnTreeFacts(exec, before, start, was);
      AddedUnderHead(before, b, was.head, best.id);
      HeadState(exec, before, b, start, was);
    }
  }

  lemma KeptSubset(db: Db, r: Id)
    ensures Kept(db, r).Keys <= db.index.Keys && forall x | x in Kept(db, r) :: Kept(db, r)[x] == db.index[x]
  {
  }

  lemma StateNone<S>(exec: Exec<S>, db: Db, start: S, b: Block)
    requires OnTree(db, b) && StateOf(exec, db.index, db.root.id, start, b.id).None?
    ensures b.id in db.index && db.index[b.id] == b
  {
  }

  lemma RejectedLeads(before: Db, b: Block, head: Block, best: Block, bad: Id, after: map<Id, Block>)
    requires LeadsTree(before.index, head) && LeadsTree(before.index[b.id := b], best)
    requires best.id in before.index[b.id := b] && before.index[b.id := b][best.id] == best
    requires Under(before.index[b.id := b], best.id, bad)
    requires after == before.index[b.id := b] - Subtree(before.index[b.id := b], bad)
    ensures LeadsTree(after, head)
  {
    hide Under;
    assert best == b || !FirstPreferred(best, head);
    assert best.id in Subtree(before.index[b.id := b], bad);
    LeadKept(before.index, b, head, best, after);
  }

  lemma BestLeads(index: map<Id, Block>, best: Block)
    requires forall x | x in index :: !FirstPreferred(index[x], best)
    ensures LeadsTree(index, best)
  {
  }

  lemma LeadsFewer(index: map<Id, Block>, after: map<Id, Block>, head: Block)
    requires LeadsTree(index, head) && after.Keys <= index.Keys && forall x | x in after :: after[x] == index[x]
    ensures LeadsTree(after, head)
  {
  }

  /** A push brings in no other block. */
  lemma BlocksAfter(before: Db, b: Block, db: Db, now: Db)
    requires db.index == before.index[b.id := b] && db.root == before.root && OnTree(db, now.root)
    requires now.index.Keys <= db.index.Keys && forall x | x in now.index :: now.index[x] == db.index[x]
    ensures Blocks(now) <= Blocks(before) + {b}
  {
  }

  lemma HeadState<S>(exec: Exec<S>, db: Db, b: Block, start: S, c: Position<S>)
    requires Tree(db) && InSync(exec, db, start, c) && b.id !in db.index
    ensures StateOf(exec, db.index[b.id := b], db.root.id, start, c.head.id).Some?
  {
    StateKeptAdd(exec, db, b, start, c.head.id);
  }

  lemma ExtendsHead<S>(exec: Exec<S>, db: Db, start: S, c: Position<S>, newHead: Block)
    requires Tree(db) && Numbered(db.root) && InSync(exec, db, start, c)
    requires OnTree(db, newHead) && newHead.prev == c.head.id
    ensures newHead.id in db.index && db.index[newHead.id] == newHead
  {
    UnderRoot(db, c.head.id);
  }

  lemma ExtendedHead<S>(exec: Exec<S>, db: Db, start: S, was: Position<S>, newHead: Block, c: Position<S>)
    requires Tree(db) && BestHead(db) && newHead.id in db.index && db.index[newHead.id] == newHead
    requires c.head == newHead && Some(c.current) == StateOf(exec, db.index, db.root.id, start, newHead.id)
    ensures SwitchOutcome(exec, start, db, was, newHead, Switched, MarkValid(db, newHead.id).value, c)
  {
    MarkedHead(db, newHead.id);
    MarkValidKeeps(db, newHead.id);
    MarkShape(db, newHead.id);
    assert newHead.id in MarkValid(db, newHead.id).value.valid;
    hide First, StateOf;
  }

  lemma ExtensionFailed<S>(exec: Exec<S>, db: Db, start: S, was: Position<S>, newHead: Block, now: Db)
    requires newHead.id in db.index && newHead.prev == was.head.id
    requires StateOf(exec, db.index, db.root.id, start, newHead.id).None?
    requires now.index == db.index - Subtree(db.index, newHead.id) && now.root == db.root && now.valid == db.valid
    ensures SwitchOutcome(exec, start, db, was, newHead, Rejected(newHead.id), now, was)
  {
    hide StateOf;
  }

  lemma HeadUnchanged<S>(exec: Exec<S>, db: Db, start: S, c: Position<S>, newHead: Block)
    requires Tree(db) && BestHead(db) && InSync(exec, db, start, c)
    requires OnTree(db, newHead) && IsPending(db, newHead) && newHead.id == c.head.id
    ensures SwitchOutcome(exec, start, db, c, newHead, Switched, db, c)
  {
  }

  lemma AddedSync<S>(exec: Exec<S>, db: Db, start: S, c: Position<S>, b: Block)
    requires Tree(db) && InSync(exec, db, start, c) && Numbered(b)
    ensures Add(db, b, false, false).Ok? ==>
              InSync(exec, Add(db, b, false, false).value, start, c) && Add(db, b, false, false).value.root == db.root
  {
    hide InSync;
    if Known(db, b.prev) && b.id !in db.index { AddSync(exec, db, start, c, b); }
  }

  lemma PendingOnTree(db: Db)
    requires Tree(db) && BestHead(db)
    ensures OnTree(db, PendingHead(db)) && IsPending(db, PendingHead(db))
  {
    PendingHeadIsBest(db);
    hide First;
  }

  lemma SwitchedTo<S>(exec: Exec<S>, db: Db, start: S, was: Position<S>, newHead: Block, r: SwitchResult, now: Db, c: Position<S>)
    requires SwitchOutcome(exec, start, db, was, newHead, r, now, c) && r.Switched? && IsPending(db, newHead)
    ensures c.head == now.head
  {
  }

  /** Preferred to every validated block, or to the root if there is none. */
  ghost predicate Beats(db: Db, b: Block) {
    && (db.valid == {} ==> FirstPreferred(b, db.root))
    && forall x | x in db.valid && x in db.index :: FirstPreferred(b, db.index[x])
  }

  /** A produced block becomes the fork database's head exactly when it beats what is validated. */
  lemma CommitHead<S>(exec: Exec<S>, db: Db, start: S, c: Position<S>, b: Block)
    requires Tree(db) && BestHead(db) && InSync(exec, db, start, c) && Numbered(b) && b.prev == c.head.id
    ensures var r := Add(db, b, false, false);
            && r == (if b.id in db.index then Err(Duplicate) else Ok(Insert(db, b, false)))
            && (r.Ok? ==> b.id in r.value.index && r.value.index[b.id] == b && Tree(r.value)
                          && MarkValid(r.value, b.id).Ok?
                          && (MarkValid(r.value, b.id).value.head == b <==> Beats(db, b)))
  {
    hide StateOf, UndoMatches, ReversibleMatches;
    UnderRoot(db, c.head.id);
    if b.id !in db.index {
      AddKeeps(db, b, false, false);
      var with := Insert(db, b, false);
      AddedHead(db, b);
      MarkValidKeeps(with, b.id);
      MarkedHead(with, b.id);
    }
  }

  /** For a head that leads, the irreversible number decides. */
  lemma BeatsWhenLeading<S>(exec: Exec<S>, db: Db, start: S, c: Position<S>, b: Block)
    requires Tree(db) && InSync(exec, db, start, c) && Numbered(b) && b.prev == c.head.id
    requires LeadsTree(db.index, c.head)
    ensures c.head.lib <= b.lib ==> Beats(db, b)
    ensures c.head != db.root ==> (Beats(db, b) <==> c.head.lib <= b.lib)
  {
    hide StateOf, UndoMatches, ReversibleMatches, Replays, LeadsTree;
    if c.head.lib <= b.lib { ChildLeads(db, c.head, b); }
  }

  lemma ProducedLeads(db: Db, head: Block, b: Block, after: map<Id, Block>)
    requires Tree(db) && LeadsTree(db.index, head) && Numbered(b) && b.prev == head.id && head.lib <= b.lib
    requires forall x | x in after :: x in db.index[b.id := b] && after[x] == db.index[b.id := b][x]
    ensures LeadsTree(after, b)
  {
    ChildLeads(db, head, b);
  }

  /** Adding a block that is not validated makes the best validated block the head. */
  lemma AddedHead(db: Db, b: Block)
    requires Tree(db) && b.id !in db.index && b.id != db.root.id
    ensures var with := Insert(db, b, false);
            && with.valid == db.valid && with.head.id != b.id
            && (FirstPreferred(b, with.head) <==> Beats(db, b))
  {
    var index := db.index[b.id := b];
    assert b.id in index;
    var first := First(db.valid, index);
    FirstIsBest(db.valid, index, first);
    forall x | x in db.valid ensures x in index && index[x] == db.index[x] { }
  }

  /** The front of the validated blocks in the by_lib_block_num order, if there are any. */
  ghost predicate FrontOfValid(db: Db, head: Block) {
    db.valid != {} ==>
      && head.id in db.valid && head.id in db.index && db.index[head.id] == head
      && forall x | x in db.valid && x in db.index && x != head.id :: Before(db.valid, head, db.index[x])
  }

  /** Adding a block that is not validated puts the front of the validated blocks at the head. */
  lemma AddedFront(db: Db, b: Block, head: Block)
    requires Tree(db) && b.id !in db.index && HeadOk(db, head)
    ensures Insert(db, b, false).head == head <==> FrontOfValid(db, head)
  {
    var index := db.index[b.id := b];
    assert b.id in index;
    var first := First(db.valid, index);
    FirstIsBest(db.valid, index, first);
    forall x | x in db.valid ensures x in index && index[x] == db.index[x] { }
    if db.valid != {} {
      assert first.id in db.valid by { var x :| x in db.valid; assert x in index; }
      if FrontOfValid(db, head) {
        assert IsFirst(db.valid, index, head);
        FirstUnique(db.valid, index, first, head);
      }
    }
  }

  /** A produced block that is not preferred leaves the head in place exactly if it was that front. */
  lemma RefusedHead<S>(exec: Exec<S>, db: Db, start: S, c: Position<S>, b: Block)
    requires Tree(db) && BestHead(db) && InSync(exec, db, start, c) && Numbered(b) && b.prev == c.head.id
    requires b.id !in db.index && !Beats(db, b)
    ensures MarkValid(Insert(db, b, false), b.id).value.head == c.head <==> FrontOfValid(db, c.head)
  {
    hide StateOf, UndoMatches, ReversibleMatches, First, FrontOfValid;
    UnderRoot(db, c.head.id);
    AddKeeps(db, b, false, false);
    CommitHead(exec, db, start, c, b);
    AddedFront(db, b, c.head);
    MarkedHead(Insert(db, b, false), b.id);
  }

  lemma MarkSync<S>(exec: Exec<S>, db: Db, start: S, c: Position<S>, b: Block)
    requires Tree(db) && BestHead(db) && InSync(exec, db, start, c) && exec(b, c.current).Some?
    requires b.id in db.index && db.index[b.id] == b && b.prev == c.head.id
    ensures MarkValid(db, b.id).Ok? && InSync(exec, MarkValid(db, b.id).value, start, c)
  {
    AdvanceSync(exec, db, start, c, b);
    MarkShape(db, b.id);
    hide First, MarkValid, StateOf, UndoMatches, ReversibleMatches;
  }

  /** The reversible-blocks database fits one head only. */
  lemma HeadForced<S>(exec: Exec<S>, db: Db, start: S, c: Position<S>, head: Block)
    requires Tree(db) && InSync(exec, db, start, c)
    ensures InSync(exec, db, start, c.(head := head)) <==> head == c.head
  {
    if InSync(exec, db, start, c.(head := head)) {
      if head.id in db.index { assert Under(db.index, head.id, head.id); }
      if c.head.id in db.index { assert Under(db.index, c.head.id, c.head.id); }
    }
  }

  lemma SameKept(db: Db, db': Db, r: Id)
    ensures db.index == db'.index ==> Kept(db, r) == Kept(db', r)
  {
  }

  /** Puts the switch and the logging after it together. */
  lemma PushDone<S>(exec: Exec<S>, start: S, db: Db, was: Position<S>, log: seq<Block>, r: SwitchResult,
      mid: Db, there: Position<S>, now: Db, c: Position<S>, log': seq<Block>)
    requires Tree(db) && BestHead(db)
    requires SwitchOutcome(exec, start, db, was, PendingHead(db), r, mid, there)
    requires (now == mid && c == there && log' == log && (r.Switched? ==> PendingHead(db).id == was.head.id))
             || (r.Switched? && PendingHead(db).id != was.head.id
                 && LogGrew(mid.index, mid.root, c.head, log, log', now.root)
                 && c.head == there.head == now.head && c.current == there.current
                 && Under(mid.index, c.head.id, now.root.id) && OnTree(mid, now.root)
                 && now.index == Kept(mid, now.root.id))
    ensures PushOutcome(exec, start, db, was, log, r, now, c, log')
  {
    hide StateOf, PendingHead, InSync, Kept, BestHead, LogGrew;
    PendingOnTree(db);
    KeptAtRoot(db);
    SameKept(db, mid, now.root.id);
    UnderRoot(db, PendingHead(db).id);
  }

  // ---------------------------------------------------------------- facts about logging

  /** Where the root ends up: at the irreversible number, but neither below the old root nor above
      the head. */
  function Settled(lib: nat, root: nat, head: nat): nat {
    if lib <= root then root else if lib <= head then lib else head
  }

  ghost predicate CanCommit<S>(db: Db, c: Position<S>, r: Id) {
    0 <= r.num - db.root.id.num <= |c.undo|
  }

  ghost function LogRoot(db: Db, branch: seq<Block>, i: nat): Block {
    if i < |branch| then branch[i] else db.root
  }

  /** The log grew by exactly the blocks of the head's path above the old root, up to the smaller of the
      head's irreversible number and its own, and the last of them is the root now. */
  ghost predicate LogGrew(index: map<Id, Block>, root: Block, head: Block, log: seq<Block>, log': seq<Block>, root': Block) {
    && log <= log' && |log'| - |log| == root'.id.num - root.id.num
    && (root'.id.num == root.id.num || root'.id.num == head.lib || root'.id.num == head.id.num)
    && (head.lib <= root'.id.num || head.id.num <= root'.id.num)
    && (root'.id.num > root.id.num ==> root'.id.num <= head.lib && root'.id.num <= head.id.num)
    && root' == (if |log'| == |log| then root else log'[|log'|-1])
    && forall i | |log| <= i < |log'| ::
         && log'[i].id in index && index[log'[i].id] == log'[i] && Under(index, head.id, log'[i].id)
         && log'[i].id.num == root.id.num + 1 + (i - |log|)
  }

  /** Everything from position i of the branch on is in the log, oldest first. */
  ghost predicate LoggedFrom(log: seq<Block>, log': seq<Block>, branch: seq<Block>, i: nat) {
    && i <= |branch| && log <= log' && |log'| == |log| + |branch| - i
    && forall j | |log| <= j < |log'| :: log'[j] == branch[|branch| - 1 - (j - |log|)]
  }

  lemma LoggedMore(log: seq<Block>, log1: seq<Block>, log2: seq<Block>, branch: seq<Block>, i: nat)
    requires i < |branch| && LoggedFrom(log, log1, branch, i + 1) && log2 == log1 + [branch[i]]
    ensures LoggedFrom(log, log2, branch, i)
  {
  }

  lemma NothingLogged(db: Db, head: Block, log: seq<Block>)
    requires db.root.id.num <= head.id.num
    ensures head.lib <= db.root.id.num ==> LogGrew(db.index, db.root, head, log, log, db.root)
    ensures forall branch | |branch| >= 0 :: LoggedFrom(log, log, branch, |branch|)
  {
  }

  lemma BranchGrew<S>(db: Db, c: Position<S>, branch: seq<Block>, log: seq<Block>, log': seq<Block>)
    requires BranchOk(db, c, branch) && LoggedFrom(log, log', branch, 0) && db.root.id.num < c.head.lib
    requires db.root.id.num + |branch| == Settled(c.head.lib, db.root.id.num, c.head.id.num) && db.root.id.num <= c.head.id.num
    ensures LogGrew(db.index, db.root, c.head, log, log', LogRoot(db, branch, 0))
  {
    hide Under;
    forall i | |log| <= i < |log'|
      ensures log'[i].id in db.index && db.index[log'[i].id] == log'[i] && Under(db.index, c.head.id, log'[i].id)
      ensures log'[i].id.num == db.root.id.num + 1 + (i - |log|)
    {
      var k := |branch| - 1 - (i - |log|);
      assert log'[i] == branch[k];
    }
  }

  lemma LogAtRoot<S>(exec: Exec<S>, db: Db, start: S, c: Position<S>, log: seq<Block>, firstNum: nat)
    requires Tree(db) && InSync(exec, db, start, c) && LogMatches(log, firstNum, db.root)
    ensures db.root.id.num == (if log == [] then firstNum - 1 else log[|log|-1].id.num)
    ensures db.root.id.num + 1 == firstNum + |log|
    ensures Known(db, c.head.id) && db.root.id.num <= c.head.id.num && Under(db.index, c.head.id, db.root.id)
  {
    UnderRoot(db, c.head.id);
  }

  /** The trimmed branch: consecutive, prev-linked and on the path of the head. */
  ghost predicate BranchOk<S>(db: Db, c: Position<S>, branch: seq<Block>) {
    && (forall k | 0 <= k < |branch| ::
          && branch[k].id in db.index && db.index[branch[k].id] == branch[k]
          && Under(db.index, c.head.id, branch[k].id)
          && branch[k].id.num == db.root.id.num + |branch| - k
          && branch[k].prev == LogRoot(db, branch, k + 1).id)
    && |branch| <= |c.undo| && |c.undo| == c.revision - db.root.id.num
  }

  lemma BranchToLog<S>(exec: Exec<S>, db: Db, start: S, c: Position<S>, lib: nat, branch: seq<Block>)
    requires Tree(db) && InSync(exec, db, start, c) && lib > db.root.id.num
    requires branch == UpTo(Path(db.index, c.head.id), lib)
    ensures BranchOk(db, c, branch) && db.root.id.num + |branch| == Settled(lib, db.root.id.num, c.head.id.num)
    ensures Committed(db, c, db.root.id) == c
  {
    hide Tree, Path, UpTo, Committed, InSync, UndoMatches, ReversibleMatches, Under, IsChain, BranchOk;
    var x := c.head.id;
    SyncParts(exec, db, start, c);
    PathIsChain(db, x);
    UndoDepth(exec, db, start, x, c.current, c.undo);
    NothingAtRoot(db, c);
    var p := Path(db.index, x);
    UpToIsSuffix(db.index, x, p, db.root.id, lib);
    if x.num <= lib {
      SuffixOk(db, c, p, 0);
      assert p[0..] == p;
    } else {
      SuffixOk(db, c, p, x.num - lib);
    }
  }

  lemma SuffixOk<S>(db: Db, c: Position<S>, p: seq<Block>, m: nat)
    requires IsChain(db.index, c.head.id, p, db.root.id) && m <= |p|
    requires |p| == |c.undo| == c.head.id.num - db.root.id.num && c.revision == c.head.id.num
    ensures BranchOk(db, c, p[m..])
  {
    hide IsChain, Under;
    var branch := p[m..];
    forall k | 0 <= k < |branch|
      ensures branch[k].id in db.index && db.index[branch[k].id] == branch[k]
      ensures Under(db.index, c.head.id, branch[k].id)
      ensures branch[k].id.num == db.root.id.num + |branch| - k
      ensures branch[k].prev == LogRoot(db, branch, k + 1).id
    {
      PathBlock(db, c.head.id, p, m + k);
    }
  }

  lemma PathBlock(db: Db, x: Id, p: seq<Block>, k: nat)
    requires IsChain(db.index, x, p, db.root.id) && k < |p|
    ensures p[k].id in db.index && db.index[p[k].id] == p[k] && Under(db.index, x, p[k].id)
    ensures p[k].id.num == x.num - k && p[k].prev == LogRoot(db, p, k + 1).id
  {
    ChainSegment(db.index, x, p, db.root.id, k);
    ChainNumbers(db.index, x, p, db.root.id, k);
  }

  lemma NothingAtRoot<S>(db: Db, c: Position<S>)
    requires Tree(db) && ReversibleMatches(db.index, c.head.id, c.reversible)
    ensures Committed(db, c, db.root.id) == c
  {
    forall n | n in c.reversible ensures n > db.root.id.num { UnderRoot(db, c.reversible[n].id); }
    assert (map n | n in c.reversible && n > db.root.id.num :: c.reversible[n]) == c.reversible;
    assert c.undo[0..] == c.undo;
  }

  lemma LogStep<S>(db: Db, c: Position<S>, branch: seq<Block>, i: nat, log: seq<Block>, firstNum: nat)
    requires BranchOk(db, c, branch) && i < |branch| && CanCommit(db, c, LogRoot(db, branch, i + 1).id)
    requires LogMatches(log, firstNum, LogRoot(db, branch, i + 1))
    ensures CanCommit(db, c, branch[i].id) && branch[i].id.num == firstNum + |log|
    ensures LogMatches(log + [branch[i]], firstNum, branch[i])
    ensures var from := Committed(db, c, LogRoot(db, branch, i + 1).id);
            && 0 < |from.undo| <= from.revision
            && branch[i].id.num - (from.revision - |from.undo|) == 1
            && Committed(db, c, branch[i].id) == from.(
                 undo := from.undo[1..],
                 reversible := map n | n in from.reversible && n > branch[i].id.num :: from.reversible[n])
  {
    var num, n := branch[i].id.num, LogRoot(db, branch, i + 1).id.num;
    assert num == n + 1;
    var from := Committed(db, c, LogRoot(db, branch, i + 1).id);
    assert from.undo[1..] == c.undo[num - db.root.id.num..];
    assert (map m | m in from.reversible && m > num :: from.reversible[m])
           == (map m | m in c.reversible && m > num :: c.reversible[m]);
  }

  lemma BranchLogged<S>(exec: Exec<S>, db: Db, start: S, c: Position<S>, branch: seq<Block>)
    requires Tree(db) && BestHead(db) && InSync(exec, db, start, c) && db.head == c.head
    requires BranchOk(db, c, branch) && branch != []
    ensures var r := branch[0].id;
            && r.num == db.root.id.num + |branch|
            && Under(db.index, c.head.id, r) && AdvanceRoot(db, r).Ok?
            && StateOf(exec, db.index, db.root.id, start, r).Some? && CanCommit(db, c, r)
            && var db' := AdvanceRoot(db, r).value;
            && InSync(exec, db', StateOf(exec, db.index, db.root.id, start, r).value, Committed(db, c, r))
            && db'.root == branch[0] && Numbered(branch[0]) && OnTree(db, branch[0]) && db'.head == db.head
            && db'.index == Kept(db, r)
            && db'.index.Keys <= db.index.Keys && forall x | x in db'.index :: db'.index[x] == db.index[x]
  {
    hide Under, Tree, BestHead, InSync, Committed, StateOf, Subtree, AdvanceRoot;
    var r := branch[0].id;
    RebaseSync(exec, db, start, c, r);
    AdvancedSubset(db, r);
  }

  lemma KeptAtRoot(db: Db)
    requires Tree(db)
    ensures Kept(db, db.root.id) == db.index
  {
    forall x | x in db.index ensures x in Subtree(db.index, db.root.id) - {db.root.id} { UnderRoot(db, x); }
  }

  lemma AdvancedSubset(db: Db, r: Id)
    requires Tree(db) && AdvanceRoot(db, r).Ok?
    ensures var db' := AdvanceRoot(db, r).value;
            && db'.root == db.index[r] && db'.root.id == r && Numbered(db'.root) && OnTree(db, db'.root)
            && db'.head == db.head
            && db'.index == Kept(db, r)
            && db'.index.Keys <= db.index.Keys && forall x | x in db'.index :: db'.index[x] == db.index[x]
  {
  }

  /** Block log and reversible-blocks database together are the whole chain up to the head: every
      number once, without a gap, each block linked to the one before. */
  lemma WholeChain<S>(exec: Exec<S>, db: Db, start: S, c: Position<S>, log: seq<Block>, firstNum: nat)
    requires Tree(db) && InSync(exec, db, start, c) && LogMatches(log, firstNum, db.root)
    ensures forall n :: n in c.reversible <==> firstNum + |log| <= n <= c.head.id.num
    ensures forall n | n in c.reversible :: ReversibleLink(db.root.id, c.reversible, n)
    ensures c.head != db.root ==> c.head.id.num in c.reversible && c.reversible[c.head.id.num] == c.head
  {
    SyncParts(exec, db, start, c);
    LogAtRoot(exec, db, start, c, log, firstNum);
    HeadReversible(exec, db, start, c);
    hide *;
    forall n | n in c.reversible
      ensures ReversibleLink(db.root.id, c.reversible, n) && db.root.id.num < n <= c.head.id.num
    {
      ReversibleAt(db, c.head.id, c.reversible, n);
    }
    forall n | db.root.id.num < n <= c.head.id.num ensures n in c.reversible {
      ReversibleCovers(db, c.head.id, c.reversible, n);
    }
  }

  /** Entry n is block n, linked to entry n - 1, or to the root if it is the first. */
  ghost predicate ReversibleLink(root: Id, r: map<nat, Block>, n: nat)
    requires n in r
  {
    && root.num < n && r[n].id.num == n
    && (n > root.num + 1 ==> n - 1 in r && r[n].prev == r[n-1].id)
    && (n == root.num + 1 ==> r[n].prev == root)
  }

  lemma HeadReversible<S>(exec: Exec<S>, db: Db, start: S, c: Position<S>)
    requires Tree(db) && InSync(exec, db, start, c)
    ensures c.head != db.root ==> c.head.id.num in c.reversible && c.reversible[c.head.id.num] == c.head
  {
    assert Under(db.index, c.head.id, c.head.id);
  }

  lemma ReversibleAt(db: Db, x: Id, r: map<nat, Block>, n: nat)
    requires Tree(db) && Known(db, x) && ReversibleMatches(db.index, x, r) && n in r
    ensures ReversibleLink(db.root.id, r, n) && db.root.id.num < n <= x.num
  {
    var y := r[n].id;
    UnderNum(db.index, x, y);
    UnderRoot(db, y);
    UnderRoot(db, r[n].prev);
    UnderTransitive(db.index, x, y, r[n].prev);
  }

  lemma ReversibleCovers(db: Db, x: Id, r: map<nat, Block>, n: nat)
    requires Tree(db) && Known(db, x) && ReversibleMatches(db.index, x, r) && db.root.id.num < n <= x.num
    ensures n in r
  {
    hide IsChain, Path, Tree, Under, ReversibleMatches, Known;
    PathIsChain(db, x);
    var p := Path(db.index, x);
    ChainUnder(db.index, x, p, db.root.id);
    PathBlock(db, x, p, x.num - n);
    ReversibleHas(db.index, x, r, p[x.num - n].id);
  }

  lemma ReversibleHas(index: map<Id, Block>, x: Id, r: map<nat, Block>, y: Id)
    requires ReversibleMatches(index, x, r) && y in index && Under(index, x, y)
    ensures y.num in r
  {
  }

  // ---------------------------------------------------------------- fork switches

  /** The outcome of a fork switch from position `was` to the head newHead. On success the controller
      stands on the replay of the whole path to the new head, which is also the head of the fork
      database if it was the pending head. If a block fails, the controller is back exactly where it
      was, and precisely that block and everything under it have left the fork database. Only a new
      head above the current one that fails on the way has no defined outcome. */
  ghost predicate SwitchOutcome<S>(
      exec: Exec<S>, start: S, db: Db, was: Position<S>, newHead: Block, r: SwitchResult, now: Db, c: Position<S>)
  {
    var state := StateOf(exec, db.index, db.root.id, start, newHead.id);
    && (!r.Undefined? ==> now.root == db.root && db.valid <= now.valid)
    && (r.Switched? <==> state.Some?)
    && (r.Switched? ==> c.head == newHead && state == Some(c.current) && now.index == db.index
                        && (IsPending(db, newHead) ==> now.head == newHead))
    && (r.Rejected? ==> c == was && r.bad in db.index && Under(db.index, newHead.id, r.bad)
                        && StateOf(exec, db.index, db.root.id, start, r.bad).None?
                        && now.index == db.index - Subtree(db.index, r.bad))
    && (r.Undefined? <==> state.None? && newHead.prev != was.head.id && Under(db.index, newHead.id, was.head.id))
  }

  // ---------------------------------------------------------------- facts about a fork switch

  /** The branches meet at z; one of them is empty exactly when it starts there. */
  lemma ForkPoint(db: Db, newHead: Block, head: Block, p: seq<Block>, q: seq<Block>) returns (z: Id)
    requires Tree(db) && OnTree(db, newHead) && OnTree(db, head)
    requires Branches(db.index, newHead.id, head.id, p, q)
    ensures IsChain(db.index, newHead.id, p, z) && IsChain(db.index, head.id, q, z) && Known(db, z)
    ensures p != [] ==> p[0] == newHead
    ensures q != [] ==> q[0] == head
    ensures p == [] ==> z == newHead.id && Under(db.index, head.id, newHead.id)
    ensures q == [] <==> Under(db.index, newHead.id, head.id)
  {
    z :| IsChain(db.index, newHead.id, p, z) && IsChain(db.index, head.id, q, z) && Disjoint(p, q)
         && NearestCommonAncestor(db.index, newHead.id, head.id, z);
    ChainUnder(db.index, newHead.id, p, z);
    ChainUnder(db.index, head.id, q, z);
    if Under(db.index, newHead.id, head.id) {
      assert Under(db.index, head.id, head.id);
      assert Under(db.index, z, head.id);
      UnderNum(db.index, z, head.id);
    }
  }

  /** The new head is an ancestor of the old one: popping is enough. */
  lemma SwitchedBack<S>(exec: Exec<S>, db: Db, start: S, was: Position<S>, newHead: Block, c: Position<S>)
    requires Tree(db) && BestHead(db) && InSync(exec, db, start, was) && OnTree(db, newHead)
    requires Under(db.index, was.head.id, newHead.id) && newHead.id != was.head.id
    requires InSync(exec, db, start, c) && c.head == newHead
    ensures SwitchOutcome(exec, start, db, was, newHead, Switched, db, c)
  {
    UnderNum(db.index, was.head.id, newHead.id);
    if newHead.id in db.index { ValidAbove(exec, db, start, was.head.id, newHead.id); }
  }

  lemma {:induction false} ChainSegment(index: map<Id, Block>, x: Id, p: seq<Block>, z: Id, k: nat)
    requires IsChain(index, x, p, z) && k < |p|
    ensures Under(index, x, p[k].id) && IsChain(index, p[k].id, p[k..], z)
    decreases k
  {
    if k > 0 {
      ChainTail(index, x, p, z);
      ChainSegment(index, p[0].prev, p[1..], z, k - 1);
      assert p[1..][k-1..] == p[k..];
    }
  }

  lemma BadOnPath<S>(exec: Exec<S>, db: Db, start: S, p: seq<Block>, z: Id, k: nat)
    requires Tree(db) && k < |p| && IsChain(db.index, p[0].id, p, z)
    requires StateOf(exec, db.index, db.root.id, start, p[k].id).None?
    ensures p[k].id in db.index && Under(db.index, p[0].id, p[k].id)
    ensures StateOf(exec, db.index, db.root.id, start, p[0].id).None?
  {
    ChainSegment(db.index, p[0].id, p, z, k);
    UnderRoot(db, p[k].id);
    NoStateBelow(exec, db.index, db.root.id, start, p[0].id, p[k].id);
  }

  lemma ChainKept(index: map<Id, Block>, gone: set<Id>, x: Id, p: seq<Block>, z: Id)
    requires IsChain(index, x, p, z) && forall k | 0 <= k < |p| :: p[k].id !in gone
    ensures IsChain(index - gone, x, p, z)
  {
  }

  /** Neither the blocks already applied nor the old branch are under the block that failed. */
  lemma SurvivingChains<S>(
      exec: Exec<S>, db: Db, start: S, was: Position<S>, p: seq<Block>, q: seq<Block>, z: Id, left: nat, now: Db)
    requires Tree(db) && InSync(exec, db, start, was) && 0 < left <= |p| && Known(db, z)
    requires IsChain(db.index, p[0].id, p, z) && IsChain(db.index, was.head.id, q, z)
    requires StateOf(exec, db.index, db.root.id, start, p[left-1].id).None?
    requires now.index == db.index - Subtree(db.index, p[left-1].id) && now.root == db.root && db.valid <= now.valid
    ensures Known(now, z)
    ensures IsChain(now.index, if left < |p| then p[left].id else z, p[left..], z)
    ensures q != [] ==> IsChain(now.index, q[0].id, q, z)
    ensures forall k | 0 <= k < |q| :: q[k].id in now.valid
  {
    var bad := p[left-1].id;
    var gone := Subtree(db.index, bad);
    forall k | 0 <= k < |q| ensures q[k].id in db.valid && q[k].id !in gone {
      ChainAt(db, was.head.id, q, z, k);
      ChainSegment(db.index, was.head.id, q, z, k);
      UnderNum(db.index, was.head.id, q[k].id);
      UnderRoot(db, q[k].id);
      ValidAbove(exec, db, start, was.head.id, q[k].id);
      ChainAt(db, p[0].id, p, z, left - 1);
      if q[k].id in gone { BadNotValid(exec, db, start, bad, q[k].id); }
    }
    ChainKept(db.index, gone, was.head.id, q, z);
    OlderSurvives(db, p, z, left);
  }

  lemma OlderSurvives(db: Db, p: seq<Block>, z: Id, left: nat)
    requires Tree(db) && 0 < left <= |p| && IsChain(db.index, p[0].id, p, z) && Known(db, z)
    ensures var gone := Subtree(db.index, p[left-1].id);
            && z !in gone
            && IsChain(db.index - gone, if left < |p| then p[left].id else z, p[left..], z)
  {
    var bad := p[left-1].id;
    var gone := Subtree(db.index, bad);
    ChainUnder(db.index, p[0].id, p, z);
    ChainNumbers(db.index, p[0].id, p, z, left - 1);
    if z in gone { UnderNum(db.index, z, bad); }
    if left < |p| {
      ChainSegment(db.index, p[0].id, p, z, left);
      forall k | 0 <= k < |p[left..]| ensures p[left..][k].id !in gone {
        ChainNumbers(db.index, p[0].id, p, z, left + k);
        if p[left+k].id in gone { UnderNum(db.index, p[left+k].id, bad); }
      }
      ChainKept(db.index, gone, p[left].id, p[left..], z);
    }
  }

  /** Back at the old head, in sync with the reduced tree: everything is as it was. */
  lemma Restored<S>(exec: Exec<S>, db: Db, now: Db, start: S, was: Position<S>, c: Position<S>, bad: Id)
    requires Tree(db) && InSync(exec, db, start, was) && InSync(exec, now, start, c) && c.head == was.head
    requires bad in db.index && StateOf(exec, db.index, db.root.id, start, bad).None?
    requires now.index == db.index - Subtree(db.index, bad) && now.root == db.root
    ensures c == was
  {
    var gone := Subtree(db.index, bad);
    NotUnderGone(exec, db, start, bad, was.head.id);
    UndoKept(exec, db.index, gone, db.root.id, start, was.head.id, was.current, was.undo);
    ReversibleKept(db.index, gone, was.head.id, was.reversible);
    hide UndoMatches, ReversibleMatches, Replays, Subtree;
    SyncUnique(exec, now, start, c, was);
  }

  /** newHead is what pending_head returned. */
  ghost predicate IsPending(db: Db, b: Block) {
    && (b == db.head || (b.id in db.index && FirstPreferred(b, db.head)))
    && forall x | x in db.index :: !FirstPreferred(db.index[x], b)
  }

  lemma SyncReplays<S>(exec: Exec<S>, db: Db, start: S, c: Position<S>, x: Id)
    requires InSync(exec, db, start, c) && x in db.valid && Tree(db)
    ensures StateOf(exec, db.index, db.root.id, start, x).Some? && MarkValid(db, x) == Ok(db)
  {
  }

  /** The whole branch p was applied. */
  lemma SwitchedHead<S>(
      exec: Exec<S>, db: Db, start: S, was: Position<S>, p: seq<Block>, z: Id, now: Db, c: Position<S>)
    requires p != [] && IsChain(db.index, p[0].id, p, z) && Tree(db)
    requires MarkedOn(db, now, p, 0) && Tree(now) && BestHead(now) && InSync(exec, now, start, c) && c.head == p[0]
    ensures SwitchOutcome(exec, start, db, was, p[0], Switched, now, c)
  {
    if IsPending(db, p[0]) && now.head != p[0] {
      assert !FirstPreferred(p[0], now.head);
      var j :| 0 <= j < |p| && now.head == p[j];
      ChainNumbers(db.index, p[0].id, p, z, j);
    }
  }

  /** A block of the branch failed to apply. */
  lemma SwitchFailed<S>(exec: Exec<S>, db: Db, start: S, was: Position<S>, bad: Id, newHead: Block,
      r: SwitchResult, now: Db, c: Position<S>)
    requires bad in db.index && Under(db.index, newHead.id, bad)
    requires StateOf(exec, db.index, db.root.id, start, bad).None?
    requires StateOf(exec, db.index, db.root.id, start, newHead.id).None?
    requires newHead.prev != was.head.id
    requires r == if Under(db.index, newHead.id, was.head.id) then Undefined else Rejected(bad)
    requires r.Rejected? ==> c == was && now.root == db.root && db.valid <= now.valid
                             && now.index == db.index - Subtree(db.index, bad)
    ensures SwitchOutcome(exec, start, db, was, newHead, r, now, c)
  {
  }

  /** Marking has reached the blocks of p from position k on: only those are newly validated, and the
      head of the fork database is the old one or one of them. */
  ghost predicate MarkedOn(db: Db, now: Db, p: seq<Block>, k: nat) {
    && now.index == db.index && now.root == db.root && db.valid <= now.valid
    && (forall j | k <= j < |p| :: p[j].id in now.valid)
    && (now.head == db.head || exists j :: k <= j < |p| && now.head == p[j])
  }

  lemma MarkedShape(db: Db, now: Db, p: seq<Block>, k: nat)
    requires MarkedOn(db, now, p, k)
    ensures now.index == db.index && now.root == db.root && db.valid <= now.valid
  {
  }

  lemma MarkedMore(db: Db, before: Db, p: seq<Block>, k: nat)
    requires 0 < k <= |p| && MarkedOn(db, before, p, k) && Tree(before) && BestHead(before)
    requires p[k-1].id in before.index && before.index[p[k-1].id] == p[k-1] && p[k-1].id != before.root.id
    ensures MarkedOn(db, MarkValid(before, p[k-1].id).value, p, k - 1)
  {
    hide Tree, BestHead, ForkDb.MarkValid, FirstPreferred;
    MarkedHead(before, p[k-1].id);
    MarkShape(before, p[k-1].id);
    MarkValidKeeps(before, p[k-1].id);
    MarkMakesValid(before, p[k-1].id);
  }

  lemma MarkMakesValid(db: Db, x: Id)
    requires Tree(db) && x in db.index
    ensures MarkValid(db, x).Ok? && x in MarkValid(db, x).value.valid
  {
  }

  lemma LookupOnTree(db: Db, x: Id)
    requires Tree(db) && Known(db, x)
    ensures Lookup(db, x).id == x && OnTree(db, Lookup(db, x))
  {
  }

  lemma MarkShape(db: Db, x: Id)
    requires Tree(db)
    ensures var r := MarkValid(db, x);
            r.Ok? ==> r.value.root == db.root && r.value.index == db.index && db.valid <= r.value.valid
  {
  }

  lemma OnTreeFacts<S>(exec: Exec<S>, db: Db, start: S, c: Position<S>)
    requires Tree(db) && InSync(exec, db, start, c)
    ensures OnTree(db, c.head)
  {
  }

  lemma ChainAt(db: Db, x: Id, q: seq<Block>, z: Id, i: nat)
    requires Tree(db) && IsChain(db.index, x, q, z) && i < |q|
    ensures q[i].id in db.index && db.index[q[i].id] == q[i] && q[i].id != db.root.id
    ensures q[i].prev == if i + 1 < |q| then q[i+1].id else z
  {
  }
}
