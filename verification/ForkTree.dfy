/** What every operation of the fork database keeps: a tree below the root, and a best head. */
module ForkTree {
  import opened ForkDb

  /** The validated block at the front of the index is not beaten by any validated block. */
  lemma FirstIsBest(valid: set<Id>, index: map<Id, Block>, b: Block)
    requires IsFirst(valid, index, b) && forall x | x in index :: index[x].id == x
    ensures b.id in valid ==> forall x | x in valid && x in index :: !FirstPreferred(index[x], b)
    ensures b.id !in valid ==> forall x | x in index :: x !in valid
  {
    forall x | x in valid && x in index
      ensures b.id in valid && !FirstPreferred(index[x], b)
    {
      if x != b.id { assert Before(valid, b, index[x]); }
    }
  }

  lemma ResetKeeps(root: Block)
    ensures Tree(Reset(root)) && BestHead(Reset(root))
  {
  }

  lemma RollbackKeeps(db: Db)
    requires Tree(db)
    ensures Tree(Rollback(db)) && BestHead(Rollback(db))
  {
  }

  lemma AddKeeps(db: Db, b: Block, validated: bool, ignoreDuplicate: bool)
    requires Tree(db) && Numbered(b)
    ensures var r := Add(db, b, validated, ignoreDuplicate);
            r.Ok? && r.value != db ==> Tree(r.value) && BestHead(r.value)
  {
    if Known(db, b.prev) && b.id !in db.index {
      UnderRoot(db, b.prev);
      var db' := Insert(db, b, validated);
      FirstIsBest(db'.valid, db'.index, First(db'.valid, db'.index));
    }
  }

  lemma MarkValidKeeps(db: Db, x: Id)
    requires Tree(db) && BestHead(db)
    ensures MarkValid(db, x).Ok? <==> Known(db, x)
    ensures MarkValid(db, x).Ok? ==>
              Tree(MarkValid(db, x).value) && BestHead(MarkValid(db, x).value)
  {
    if x in db.index && x !in db.valid {
      FirstIsBest(db.valid + {x}, db.index, First(db.valid + {x}, db.index));
    }
  }

  lemma RemoveKeeps(db: Db, x: Id)
    requires Tree(db)
    ensures Remove(db, x).Ok? ==> Tree(Remove(db, x).value)
    ensures Remove(db, x).Ok? && BestHead(db) ==> BestHead(Remove(db, x).value)
  {
  }

  /** Advancing the root to a validated block below which the head lies keeps exactly the strict
      descendants of that block, as a tree under it. */
  lemma AdvanceRootKeeps(db: Db, x: Id)
    requires Tree(db)
    ensures AdvanceRoot(db, x).Ok? <==> x in db.valid && Under(db.index, db.head.id, x)
    ensures AdvanceRoot(db, x).Ok? ==>
              var db' := AdvanceRoot(db, x).value;
              && Tree(db') && db'.head == db.head && (BestHead(db) ==> BestHead(db'))
              && (forall y :: y in db'.index <==> y in db.index && y != x && Under(db.index, y, x))
              && (forall y | y in db'.index :: db'.index[y] == db.index[y])
  {
    if AdvanceRoot(db, x).Ok? {
      var db' := AdvanceRoot(db, x).value;
      assert db'.index.Keys == Subtree(db.index, x) - {x};
      forall y | y in db'.index ensures Known(db', db'.index[y].prev) {
        assert Under(db.index, db.index[y].prev, x);
        UnderNum(db.index, db.index[y].prev, x);
      }
      UnderNum(db.index, db.head.id, x);
    }
  }

  /** No block at all is strictly preferred to the pending head. */
  lemma PendingHeadIsBest(db: Db)
    requires Tree(db) && BestHead(db)
    ensures var p := PendingHead(db);
            && (p == db.head || (p.id in db.index && p.id !in db.valid && db.index[p.id] == p))
            && (forall x | x in db.index :: !FirstPreferred(db.index[x], p))
  {
    var waiting := db.index - db.valid;
    if waiting != map[] {
      var w := First({}, waiting);
      forall x | x in db.index ensures !FirstPreferred(db.index[x], PendingHead(db)) {
        if x in waiting && x != w.id { assert Before({}, w, waiting[x]); }
      }
    } else {
      assert forall x | x in db.index && x !in db.valid :: x in waiting;
    }
  }

  lemma FirstUnique(valid: set<Id>, index: map<Id, Block>, b: Block, c: Block)
    requires IsFirst(valid, index, b) && IsFirst(valid, index, c)
    ensures b == c
  {
  }

  // ---------------------------------------------------------------- advancing the root, step by step

  /** Entries are stored under their own id and number. */
  ghost predicate WellNumbered(index: map<Id, Block>) {
    forall x | x in index :: index[x].id == x && Numbered(index[x])
  }

  /** While the ancestors of x are being removed: x is gone, its strict descendants are all there,
      and every other block still hangs on something. */
  ghost predicate Advancing(db: Db, x: Id, index: map<Id, Block>) {
    && x !in index
    && (forall y | y in index :: y in db.index && index[y] == db.index[y])
    && (forall y | y in db.index && y != x && Under(db.index, y, x) :: y in index)
    && (forall y | y in index :: index[y].prev in index || index[y].prev == x || index[y].prev == db.root.id)
  }

  /** In such an index nothing below x lies under an ancestor of x any more. */
  lemma {:induction false} DetachedFrom(db: Db, x: Id, index: map<Id, Block>, y: Id, a: Id)
    requires Tree(db) && x in db.index && Advancing(db, x, index)
    requires Under(db.index, y, x) && a != x && !Under(db.index, a, x)
    ensures !Under(index, y, a)
    decreases y.num
  {
    if y == a {
    } else if y != x && y in index {
      DetachedFrom(db, x, index, index[y].prev, a);
    }
  }

  /** Everything else still lies under the root. */
  lemma {:induction false} AttachedToRoot(db: Db, x: Id, index: map<Id, Block>, y: Id)
    requires Tree(db) && x in db.index && Advancing(db, x, index)
    requires y in index && !Under(db.index, y, x)
    ensures Under(index, y, db.root.id)
    decreases y.num
  {
    var p := index[y].prev;
    assert !Under(db.index, p, x);
    if p != db.root.id { AttachedToRoot(db, x, index, p); }
  }

  lemma AdvancingRemove(db: Db, x: Id, index: map<Id, Block>, a: Id)
    requires Tree(db) && x in db.index && Advancing(db, x, index)
    requires a != x && !Under(db.index, a, x)
    ensures Advancing(db, x, index - Subtree(index, a))
    ensures forall y | Under(db.index, y, x) :: !Under(index, y, a)
  {
    forall y | Under(db.index, y, x) ensures !Under(index, y, a) {
      DetachedFrom(db, x, index, y, a);
    }
  }

  lemma AdvancingLeftovers(db: Db, x: Id, index: map<Id, Block>, y: Id)
    requires Tree(db) && x in db.index && Advancing(db, x, index)
    requires y in index && !Under(index, y, db.root.id)
    ensures y != x && y in Subtree(db.index, x)
  {
    if !Under(db.index, y, x) { AttachedToRoot(db, x, index, y); }
  }

  /** After the root itself has been removed, only the strict descendants of x are left. */
  lemma AdvancingDone(db: Db, x: Id, index: map<Id, Block>)
    requires Tree(db) && x in db.index && Advancing(db, x, index)
    ensures index - Subtree(index, db.root.id) == db.index - (db.index.Keys - (Subtree(db.index, x) - {x}))
  {
    assert !Under(db.index, db.root.id, x);
    AdvancingRemove(db, x, index, db.root.id);
    var left := index - Subtree(index, db.root.id);
    forall y | y in left ensures y in Subtree(db.index, x) - {x} {
      AdvancingLeftovers(db, x, index, y);
    }
    assert left.Keys == Subtree(db.index, x) - {x};
  }
}
