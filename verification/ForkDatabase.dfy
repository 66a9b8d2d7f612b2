/** libraries/chain/fork_database.cpp as an object: every method is proved against the value-level
    operation of the same name. */
module ForkDatabaseClass {
  import opened ForkDb
  import opened ForkTree
  import opened ForkBranches

  datatype Outcome = Done | Failed(error: Error)

  /** Scans for the front of the by_lib_block_num index. */
  method FrontOf(valid: set<Id>, index: map<Id, Block>) returns (b: Block)
    requires index != map[] && forall x | x in index :: index[x].id == x
    ensures IsFirst(valid, index, b)
  {
    var k :| k in index;
    b := index[k];
    var rest := index.Keys - {k};
    while rest != {}
      invariant rest <= index.Keys && b.id in index && index[b.id] == b && b.id !in rest
      invariant forall x | x in index && x !in rest && x != b.id :: Before(valid, b, index[x])
      decreases rest
    {
      var x :| x in rest;
      if Before(valid, index[x], b) { b := index[x]; }
      rest := rest - {x};
    }
  }

  class ForkDatabase {
    var index: map<Id, Block>
    var valid: set<Id>
    var root: Block
    var head: Block

    ghost function View(): Db
      reads this
    {
      Db(index, valid, root, head)
    }

    ghost predicate Valid()
      reads this
    {
      Tree(View()) && BestHead(View())
    }

    constructor (rootBlock: Block)
      ensures View() == Reset(rootBlock) && Valid()
    {
      index, valid, root, head := map[], {}, rootBlock, rootBlock;
      new;
      ResetKeeps(rootBlock);
    }

    /** Clears every validated flag, one entry at a time, and returns the head to the root. */
    method RollbackHeadToRoot()
      requires Valid()
      modifies this
      ensures View() == Rollback(old(View())) && Valid()
      ensures index == old(index) && root == old(root) && valid == {} && head == root
    {
      var todo := index.Keys;
      while todo != {}
        invariant index == old(index) && root == old(root) && head == old(head)
        invariant todo <= index.Keys && valid <= todo
        decreases todo
      {
        var x :| x in todo;
        valid := valid - {x};
        todo := todo - {x};
      }
      head := root;
      RollbackKeeps(old(View()));
    }

    method Add(b: Block, validated: bool, ignoreDuplicate: bool) returns (r: Outcome)
      requires Valid() && Numbered(b)
      modifies this
      ensures Valid()
      ensures match ForkDb.Add(old(View()), b, validated, ignoreDuplicate)
              case Ok(db) => r == Done && View() == db
              case Err(e) => r == Failed(e) && View() == old(View())
    {
      AddKeeps(View(), b, validated, ignoreDuplicate);
      if b.prev != root.id && b.prev !in index {
        return Failed(Unlinkable);
      }
      if b.id in index {
        return if ignoreDuplicate then Done else Failed(Duplicate);
      }
      index := index[b.id := b];
      if validated { valid := valid + {b.id}; }
      assert b.id in index;
      var candidate := FrontOf(valid, index);
      FirstUnique(valid, index, candidate, First(valid, index));
      if candidate.id in valid { head := candidate; }
      return Done;
    }

    method MarkValid(x: Id) returns (r: Outcome)
      requires Valid()
      modifies this
      ensures Valid()
      ensures match ForkDb.MarkValid(old(View()), x)
              case Ok(db) => r == Done && View() == db
              case Err(e) => r == Failed(e) && View() == old(View())
    {
      MarkValidKeeps(View(), x);
      if x == root.id || x in valid { return Done; }
      if x !in index { return Failed(NotInDatabase); }
      valid := valid + {x};
      var candidate := FrontOf(valid, index);
      FirstUnique(valid, index, candidate, First(valid, index));
      if FirstPreferred(candidate, head) { head := candidate; }
      return Done;
    }

    method PendingHead() returns (b: Block)
      requires Valid()
      ensures b == ForkDb.PendingHead(View())
      ensures forall x | x in index :: !FirstPreferred(index[x], b)
    {
      PendingHeadIsBest(View());
      var waiting := index - valid;
      if waiting == map[] { return head; }
      var w := FrontOf({}, waiting);
      FirstUnique({}, waiting, w, First({}, waiting));
      return if FirstPreferred(w, head) then w else head;
    }

    // -------------------------------------------------------------- removal

    /** The range of the by_prev index for x. */
    method ChildrenOf(x: Id) returns (ys: seq<Id>)
      ensures Distinct(ys) && forall y :: y in ys <==> y in index && index[y].prev == x
    {
      ys := [];
      var todo := set y | y in index && index[y].prev == x;
      while todo != {}
        invariant Distinct(ys) && forall y | y in ys :: y !in todo
        invariant forall y :: y in ys || y in todo <==> y in index && index[y].prev == x
        decreases todo
      {
        var y :| y in todo;
        ys := ys + [y];
        todo := todo - {y};
      }
    }

    /** The removal queue grows while it is walked; it ends up holding x and everything under x,
        unless the head turns up in it. */
    method CollectSubtree(x: Id) returns (queue: seq<Id>, hitHead: bool)
      requires WellNumbered(index)
      ensures hitHead <==> Under(index, head.id, x)
      ensures !hitHead ==> forall y :: y in queue <==> y == x || y in Subtree(index, x)
    {
      queue := [x];
      var i := 0;
      ghost var done: set<Id> := {};
      QueueStart(index, x);
      hide QueueInvariant, Under, Subtree, WellNumbered, Distinct;
      while i < |queue|
        invariant i <= |queue| && QueueInvariant(index, x, queue, i, done)
        invariant head.id !in done
        decreases |index| + 1 - i
      {
        QueueBound(index, x, queue, i, done);
        if queue[i] == head.id {
          QueueUnder(index, x, queue, i, done, i);
          return queue, true;
        }
        var children := ChildrenOf(queue[i]);
        QueueStep(index, x, queue, i, done, children);
        done := done + {queue[i]};
        queue := queue + children;
        i := i + 1;
      }
      QueueFinal(index, x, queue, done);
      return queue, false;
    }

    method Remove(x: Id) returns (r: Outcome)
      requires WellNumbered(index) && valid <= index.Keys
      modifies this
      ensures match ForkDb.Remove(old(View()), x)
              case Ok(db) => r == Done && View() == db
              case Err(e) => r == Failed(e) && View() == old(View())
      ensures old(Valid()) ==> Valid()
    {
      ghost var was := View();
      var queue, hitHead := CollectSubtree(x);
      if hitHead { return Failed(RemovesHead); }
      ghost var gone := Subtree(index, x);
      for i := 0 to |queue|
        invariant root == was.root && head == was.head
        invariant index == was.index - (set j | 0 <= j < i :: queue[j])
        invariant valid == was.valid - (set j | 0 <= j < i :: queue[j])
      {
        index := index - {queue[i]};
        valid := valid - {queue[i]};
      }
      ghost var removed := set j | 0 <= j < |queue| :: queue[j];
      assert forall y | y in was.index :: y in removed <==> y in gone;
      assert index == was.index - gone;
      assert valid == was.valid - gone;
      if Tree(was) { RemoveKeeps(was, x); }
      return Done;
    }

    /** Walks from x to the root and removes every other branch on the way. When the head does not
        lie under x the removal of an ancestor fails, after blocks have already left the index. */
    method AdvanceRoot(x: Id) returns (r: Outcome)
      requires Valid()
      modifies this
      ensures match ForkDb.AdvanceRoot(old(View()), x)
              case Ok(db) => r == Done && View() == db && Valid()
              case Err(e) => r == Failed(e) && (e != RemovesHead ==> View() == old(View()))
    {
      ghost var was := View();
      AdvanceRootKeeps(was, x);
      if x !in index { return Failed(NotInDatabase); }
      if x !in valid { return Failed(NotValidated); }
      var newRoot := index[x];
      var toRemove := AncestorsOf(x);
      index := index - {x};
      valid := valid - {x};
      assert AdvanceInvariant(was, x, View());
      hide AdvanceInvariant, Under, Subtree, WellNumbered, Tree, BestHead;
      for i := 0 to |toRemove|
        invariant root == was.root && head == was.head
        invariant i < |toRemove| ==> AdvanceInvariant(was, x, View())
        invariant i == |toRemove| ==>
                    Under(was.index, head.id, x) && View() == Without(was, Dropped(was, x))
      {
        AdvanceStep(was, x, View(), toRemove[i]);
        var removed := Remove(toRemove[i]);
        if removed.Failed? { return removed; }
      }
      root := newRoot;
      return Done;
    }

    /** The parent of x, its parent, and so on up to the root. */
    method AncestorsOf(x: Id) returns (ids: seq<Id>)
      requires Valid() && x in index
      ensures ids != [] && ids[|ids|-1] == root.id
      ensures forall i | 0 <= i < |ids| - 1 :: ids[i] != root.id
      ensures forall i | 0 <= i < |ids| :: ids[i].num < x.num
    {
      ids := [];
      var b := index[x];
      while true
        invariant b.id in index && index[b.id] == b && b.id.num <= x.num
        invariant forall i | 0 <= i < |ids| :: ids[i] != root.id && ids[i].num < x.num
        decreases b.id.num
      {
        ids := ids + [b.prev];
        if b.prev !in index {
          return;
        }
        b := index[b.prev];
      }
    }

    // -------------------------------------------------------------- branches

    /** The branch from h to the root, without blocks numbered above the limit, newest first. */
    method FetchBranch(h: Id, trimAfter: nat) returns (branch: seq<Block>)
      requires Valid()
      ensures branch == UpTo(Path(index, h), trimAfter)
    {
      branch := [];
      var s := h;
      hide Path, UpTo;
      while s in index
        invariant branch + UpTo(Path(index, s), trimAfter) == UpTo(Path(index, h), trimAfter)
        decreases s.num
      {
        var b := index[s];
        PathStep(View(), s, trimAfter);
        if b.id.num <= trimAfter { branch := branch + [b]; }
        s := b.prev;
      }
      PathEnd(index, s, trimAfter);
    }

    method Get(x: Id) returns (r: Result<Block>)
      ensures r == if Known(View(), x) then Ok(Lookup(View(), x)) else Err(BlockNotFound)
    {
      if x == root.id { return Ok(root); }
      if x in index { return Ok(index[x]); }
      return Err(BlockNotFound);
    }

    /** Follows parents from a until the number of b is reached. */
    method Climb(x: Id, start: Block, b: Block) returns (p: seq<Block>, a: Block)
      requires Valid() && OnTree(View(), start) && OnTree(View(), b) && start.id == x
      ensures OnTree(View(), a) && IsChain(index, x, p, a.id)
      ensures a.id.num == if start.id.num <= b.id.num then start.id.num else b.id.num
      ensures start.id.num <= b.id.num ==> p == []
    {
      p, a := [], start;
      while a.id.num > b.id.num
        invariant OnTree(View(), a) && IsChain(index, x, p, a.id)
        invariant if start.id.num <= b.id.num then a == start && p == [] else b.id.num <= a.id.num
        decreases a.id.num
      {
        ClimbOk(View(), a, b);
        ChainExtend(index, x, p, a);
        p := p + [a];
        a := if a.prev == root.id then root else index[a.prev];
      }
    }

    /** Both branches down to just above the nearest common ancestor. For known blocks no lookup
        on the way can fail. */
    method FetchBranchFrom(first: Id, second: Id) returns (r: Result<(seq<Block>, seq<Block>)>)
      requires Valid()
      ensures r.Ok? <==> Known(View(), first) && Known(View(), second)
      ensures r.Ok? ==> Branches(index, first, second, r.value.0, r.value.1)
    {
      ghost var db := View();
      var f := Get(first);
      if f.Err? { return Err(f.error); }
      var s := Get(second);
      if s.Err? { return Err(s.error); }
      hide Tree, BestHead, Branches, IsChain;
      var p, a := Climb(first, f.value, s.value);
      var q, b := Climb(second, s.value, a);
      if a.id == b.id {
        BranchesFork(index, first, second, p, q, a.id);
        return Ok((p, q));
      }
      while a.prev != b.prev
        invariant OnTree(db, a) && OnTree(db, b) && a.id.num == b.id.num && a.id != b.id
        invariant IsChain(index, first, p, a.id) && IsChain(index, second, q, b.id)
        decreases a.id.num
      {
        SiblingsOk(db, a, b);
        ChainExtend(index, first, p, a);
        ChainExtend(index, second, q, b);
        p, q := p + [a], q + [b];
        if a.prev !in index { return Err(BlockNotFound); }
        if b.prev !in index { return Err(BlockNotFound); }
        a, b := index[a.prev], index[b.prev];
      }
      SiblingsOk(db, a, b);
      ChainExtend(index, first, p, a);
      ChainExtend(index, second, q, b);
      p, q := p + [a], q + [b];
      BranchesFork(index, first, second, p, q, a.prev);
      return Ok((p, q));
    }
  }

  ghost predicate OnTree(db: Db, b: Block) { Known(db, b.id) && Lookup(db, b.id) == b }

  /** A block numbered above another known block is not the root, and its parent is known. */
  lemma ClimbOk(db: Db, a: Block, b: Block)
    requires Tree(db) && OnTree(db, a) && OnTree(db, b) && a.id.num > b.id.num
    ensures a.id in db.index && db.index[a.id] == a && Numbered(a) && Known(db, a.prev)
  {
    UnderRoot(db, b.id);
  }

  /** Different blocks of one number are not the root, and their parents are not the root unless
      they are the same. */
  lemma SiblingsOk(db: Db, a: Block, b: Block)
    requires Tree(db) && OnTree(db, a) && OnTree(db, b) && a.id.num == b.id.num && a.id != b.id
    ensures a.id in db.index && db.index[a.id] == a && Numbered(a)
    ensures b.id in db.index && db.index[b.id] == b && Numbered(b)
    ensures a.prev != b.prev ==> a.prev in db.index && b.prev in db.index
  {
    UnderRoot(db, a.id);
    UnderRoot(db, b.id);
    if a.id in db.index { UnderRoot(db, a.prev); }
    if b.id in db.index { UnderRoot(db, b.prev); }
  }

  // ---------------------------------------------------------------- facts about advancing the root

  /** What leaves the index when the root advances to x. */
  ghost function Dropped(db: Db, x: Id): set<Id> { db.index.Keys - (Subtree(db.index, x) - {x}) }

  ghost predicate AdvanceInvariant(was: Db, x: Id, now: Db) {
    && Tree(was) && x in was.index && Advancing(was, x, now.index)
    && WellNumbered(now.index) && now.valid == was.valid * now.index.Keys
    && now.root == was.root && now.head == was.head
    && (Under(was.index, was.head.id, x) || was.head == was.root || was.head.id in now.index)
  }

  /** Removing an ancestor succeeds while the head lies under x; removing the root fails otherwise,
      and leaves exactly the strict descendants of x. */
  lemma AdvanceStep(was: Db, x: Id, now: Db, a: Id)
    requires AdvanceInvariant(was, x, now) && a.num < x.num
    ensures WellNumbered(now.index) && now.valid <= now.index.Keys
    ensures Under(was.index, was.head.id, x) ==> Remove(now, a).Ok?
    ensures Remove(now, a).Ok? && a != was.root.id ==> AdvanceInvariant(was, x, Remove(now, a).value)
    ensures Remove(now, a).Ok? && a == was.root.id ==>
              && Under(was.index, was.head.id, x)
              && Remove(now, a).value == Without(was, Dropped(was, x))
  {
    if Under(was.index, a, x) { UnderNum(was.index, a, x); }
    AdvancingRemove(was, x, now.index, a);
    if a == was.root.id {
      AdvancingDone(was, x, now.index);
      if !Under(was.index, was.head.id, x) && was.head.id in now.index {
        AttachedToRoot(was, x, now.index, was.head.id);
      }
      if Remove(now, a).Ok? { AdvanceLast(was, x, now); }
    }
  }

  lemma AdvanceLast(was: Db, x: Id, now: Db)
    requires AdvanceInvariant(was, x, now)
    ensures Without(now, Subtree(now.index, was.root.id)) == Without(was, Dropped(was, x))
  {
    AdvancingDone(was, x, now.index);
    var left := now.index - Subtree(now.index, was.root.id);
    assert left == was.index - Dropped(was, x);
    assert left.Keys == now.index.Keys - Subtree(now.index, was.root.id) == was.index.Keys - Dropped(was, x);
  }

  lemma PathEnd(index: map<Id, Block>, s: Id, top: nat)
    requires s !in index
    ensures UpTo(Path(index, s), top) == []
  {
  }

  lemma PathStep(db: Db, s: Id, top: nat)
    requires Tree(db) && s in db.index
    ensures var b := db.index[s];
            UpTo(Path(db.index, s), top) ==
              (if b.id.num <= top then [b] else []) + UpTo(Path(db.index, b.prev), top)
    ensures db.index[s].prev.num < s.num
  {
    var b := db.index[s];
    var rest := Path(db.index, b.prev);
    assert Path(db.index, s) == [b] + rest && ([b] + rest)[1..] == rest;
  }

  // ---------------------------------------------------------------- facts about the removal queue

  ghost predicate Distinct(s: seq<Id>) {
    forall j, k | 0 <= j < k < |s| :: s[j] != s[k]
  }

  lemma {:induction false} DistinctBound(s: seq<Id>, keys: set<Id>)
    requires Distinct(s) && forall j | 0 <= j < |s| :: s[j] in keys
    ensures |s| <= |keys|
  {
    if s != [] {
      var n := |s| - 1;
      DistinctBound(s[..n], keys - {s[n]});
    }
  }

  /** The queue starts with x and holds, each once, blocks under x whose parents are among its first
      i entries, which make up `done`; all children of those entries are in it. */
  ghost predicate QueueInvariant(index: map<Id, Block>, x: Id, queue: seq<Id>, i: nat, done: set<Id>) {
    && i <= |queue| && queue != [] && queue[0] == x && Distinct(queue)
    && (forall j | 0 <= j < |queue| :: queue[j] in done <==> j < i)
    && (forall y | y in done :: y in queue)
    && (forall j | 0 < j < |queue| :: queue[j] in index && index[queue[j]].prev in done)
    && (forall j | 0 <= j < |queue| :: Under(index, queue[j], x))
    && (forall y | y in index && index[y].prev in done :: y in queue)
  }

  lemma QueueStart(index: map<Id, Block>, x: Id)
    ensures QueueInvariant(index, x, [x], 0, {})
  {
  }

  lemma QueueBound(index: map<Id, Block>, x: Id, queue: seq<Id>, i: nat, done: set<Id>)
    requires QueueInvariant(index, x, queue, i, done)
    ensures |queue| <= |index| + 1
  {
    DistinctBound(queue[1..], index.Keys);
  }

  lemma QueueStep(index: map<Id, Block>, x: Id, queue: seq<Id>, i: nat, done: set<Id>, ys: seq<Id>)
    requires WellNumbered(index) && QueueInvariant(index, x, queue, i, done) && i < |queue|
    requires Distinct(ys) && forall y :: y in ys <==> y in index && index[y].prev == queue[i]
    ensures QueueInvariant(index, x, queue + ys, i + 1, done + {queue[i]})
  {
    var longer, done' := queue + ys, done + {queue[i]};
    UnderNum(index, queue[i], x);
    forall y | y in ys ensures y !in queue && y !in done' && Under(index, y, x) {
      UnderChild(index, y, x);
    }
    DistinctConcat(queue, ys);
    assert queue[i] !in done;
    hide Under, Distinct;
    forall j | 0 <= j < |longer|
      ensures longer[j] in done' <==> j < i + 1
      ensures Under(index, longer[j], x)
      ensures j > 0 ==> longer[j] in index && index[longer[j]].prev in done'
    {
      if j < |queue| {
        assert longer[j] == queue[j];
        QueueAt(queue, i, j);
      } else {
        assert longer[j] == ys[j - |queue|] && longer[j] in ys;
      }
    }
  }

  lemma QueueAt(queue: seq<Id>, i: nat, j: nat)
    requires Distinct(queue) && i < |queue| && j < |queue|
    ensures queue[j] == queue[i] <==> i == j
  {
  }

  lemma DistinctConcat(a: seq<Id>, b: seq<Id>)
    requires Distinct(a) && Distinct(b) && forall y | y in b :: y !in a
    ensures Distinct(a + b)
  {
    forall j, k | 0 <= j < k < |a + b| ensures (a + b)[j] != (a + b)[k] {
      if j < |a| <= k { assert (a + b)[k] in b && (a + b)[j] in a; }
    }
  }

  lemma UnderChild(index: map<Id, Block>, y: Id, x: Id)
    requires y in index && index[y].prev.num < y.num && Under(index, index[y].prev, x)
    ensures Under(index, y, x)
  {
  }

  lemma QueueUnder(index: map<Id, Block>, x: Id, queue: seq<Id>, i: nat, done: set<Id>, j: nat)
    requires QueueInvariant(index, x, queue, i, done) && j < |queue|
    ensures Under(index, queue[j], x)
  {
  }

  lemma QueueFinal(index: map<Id, Block>, x: Id, queue: seq<Id>, done: set<Id>)
    requires QueueInvariant(index, x, queue, |queue|, done)
    ensures forall y :: y in done <==> Under(index, y, x)
    ensures forall y :: y in queue <==> y == x || y in Subtree(index, x)
  {
    forall y | Under(index, y, x) ensures y in done { QueueComplete(index, x, queue, done, y); }
  }

  lemma {:induction false} QueueComplete(index: map<Id, Block>, x: Id, queue: seq<Id>, done: set<Id>, y: Id)
    requires QueueInvariant(index, x, queue, |queue|, done) && Under(index, y, x)
    ensures y in done
    decreases y.num
  {
    if y != x { QueueComplete(index, x, queue, done, index[y].prev); }
  }
}
