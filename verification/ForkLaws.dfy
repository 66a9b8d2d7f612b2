/** What each operation of the fork database does, block by block, and when opening a saved file is
    refused. */
module ForkLaws {
  import opened ForkDb
  import opened ForkTree
  import opened ForkFile
  import opened ChainState

  // ---------------------------------------------------------------- the orders

  /** By irreversible number, then by block number, both downwards, then by hash upwards. */
  ghost predicate Ahead(a: Block, b: Block) {
    a.lib > b.lib
    || (a.lib == b.lib && (a.id.num > b.id.num || (a.id.num == b.id.num && a.id.hash < b.id.hash)))
  }

  /** Preferred means a higher irreversible number, or the same one and a higher block number. */
  lemma PreferredExactly(a: Block, b: Block)
    ensures FirstPreferred(a, b) <==> a.lib > b.lib || (a.lib == b.lib && a.id.num > b.id.num)
    ensures FirstPreferred(a, b) ==> Ahead(a, b)
    ensures Ahead(a, b) ==> !FirstPreferred(b, a)
  {
  }

  /** The front of the by_lib_block_num index: validated blocks go first. */
  lemma FrontExactly(valid: set<Id>, index: map<Id, Block>, b: Block)
    requires forall x | x in index :: index[x].id == x
    ensures IsFirst(valid, index, b) <==>
              && b.id in index && index[b.id] == b
              && forall x | x in index && x != b.id ::
                   (b.id in valid && x !in valid) || ((b.id in valid <==> x in valid) && Ahead(b, index[x]))
  {
    if b.id in index && index[b.id] == b {
      forall x | x in index && x != b.id
        ensures Before(valid, b, index[x])
                <==> (b.id in valid && x !in valid) || ((b.id in valid <==> x in valid) && Ahead(b, index[x]))
      {
        assert b.id.num == x.num && b.id.hash == x.hash ==> b.id == x;
      }
    }
  }

  /** Of validated blocks, the one ahead of all the others. */
  ghost predicate AheadOfValid(index: map<Id, Block>, valid: set<Id>, head: Block) {
    && head.id in valid && head.id in index && index[head.id] == head
    && forall x | x in valid && x in index && x != head.id :: Ahead(head, index[x])
  }

  // ---------------------------------------------------------------- operations

  lemma AddExactly(db: Db, b: Block, validated: bool, ignoreDuplicate: bool)
    requires Tree(db)
    ensures var r := Add(db, b, validated, ignoreDuplicate);
            var linked := b.prev == db.root.id || b.prev in db.index;
            && (r == Err(Unlinkable) <==> !linked)
            && (r == Err(Duplicate) <==> linked && b.id in db.index && !ignoreDuplicate)
            && (linked && b.id in db.index && ignoreDuplicate ==> r == Ok(db))
            && (linked && b.id !in db.index ==>
                  && r.Ok? && r.value.index == db.index[b.id := b] && r.value.root == db.root
                  && r.value.valid == (if validated then db.valid + {b.id} else db.valid)
                  && (if r.value.valid == {} then r.value.head == db.head
                      else AheadOfValid(r.value.index, r.value.valid, r.value.head)))
  {
    if (b.prev == db.root.id || b.prev in db.index) && b.id !in db.index {
      var index := db.index[b.id := b];
      assert b.id in index;
      var valid := if validated then db.valid + {b.id} else db.valid;
      var first := First(valid, index);
      FirstIsBest(valid, index, first);
      FrontExactly(valid, index, first);
      hide IsFirst, Ahead;
      assert valid <= index.Keys;
      if valid != {} { var x :| x in valid; assert x in index; }
    }
  }

  lemma MarkValidExactly(db: Db, x: Id)
    requires Tree(db) && BestHead(db)
    ensures var r := MarkValid(db, x);
            && (r == Err(NotInDatabase) <==> x != db.root.id && x !in db.index)
            && (x == db.root.id || x in db.valid ==> r == Ok(db))
            && (x in db.index && x !in db.valid && x != db.root.id ==>
                  && r.Ok? && r.value.index == db.index && r.value.root == db.root && r.value.valid == db.valid + {x}
                  && r.value.head == if FirstPreferred(db.index[x], db.head) then db.index[x] else db.head)
  {
    if x in db.index && x !in db.valid && x != db.root.id {
      MarkedHead(db, x);
      MarkValidKeeps(db, x);
      var now := MarkValid(db, x).value;
      assert x in now.valid && !FirstPreferred(db.index[x], now.head);
    }
  }

  lemma RemoveExactly(db: Db, x: Id)
    ensures var r := Remove(db, x);
            && (r == Err(RemovesHead) <==> Under(db.index, db.head.id, x)) && (r.Err? ==> r == Err(RemovesHead))
            && (r.Ok? ==>
                  && r.value.root == db.root && r.value.head == db.head
                  && (forall y :: y in r.value.index <==> y in db.index && !Under(db.index, y, x))
                  && (forall y | y in r.value.index :: r.value.index[y] == db.index[y])
                  && forall y | y in db.index :: y in r.value.valid <==> y in db.valid && !Under(db.index, y, x))
  {
  }

  lemma RollbackExactly(db: Db)
    ensures var r := Rollback(db); r.index == db.index && r.root == db.root && r.valid == {} && r.head == db.root
  {
  }

  // ---------------------------------------------------------------- opening a file

  /** Every entry is new and hangs on the root or on an entry before it. */
  ghost predicate Linked(root: Block, es: seq<Entry>, n: nat)
    requires n <= |es|
  {
    forall i | 0 <= i < n ::
      !HasId(es, i, es[i].block.id) && (es[i].block.prev == root.id || HasId(es, i, es[i].block.prev))
  }

  lemma {:induction false} LoadsExactly(root: Block, es: seq<Entry>, n: nat)
    requires n <= |es|
    ensures LoadEntries(root, es, n).Ok? <==> Linked(root, es, n)
  {
    if n > 0 {
      hide HasId, LoadEntries, Linked;
      LoadsExactly(root, es, n - 1);
      LinkedNext(root, es, n - 1);
      LoadsNext(root, es, n - 1);
    } else {
      LoadNone(root, es);
    }
  }

  lemma LoadsNext(root: Block, es: seq<Entry>, n: nat)
    requires n < |es|
    ensures LoadEntries(root, es, n + 1).Ok?
            <==> LoadEntries(root, es, n).Ok? && !HasId(es, n, es[n].block.id)
                 && (es[n].block.prev == root.id || HasId(es, n, es[n].block.prev))
  {
    hide Insert, IndexOf, ValidOf, HasId;
    if LoadEntries(root, es, n).Ok? {
      LoadedExactly(root, es, n);
      IndexOfHas(es, n, es[n].block.id);
      IndexOfHas(es, n, es[n].block.prev);
    }
  }

  lemma LinkedNext(root: Block, es: seq<Entry>, n: nat)
    requires n < |es|
    ensures Linked(root, es, n + 1)
            <==> Linked(root, es, n) && !HasId(es, n, es[n].block.id)
                 && (es[n].block.prev == root.id || HasId(es, n, es[n].block.prev))
  {
    hide HasId;
  }

  /** The block that a saved id names. */
  ghost predicate Names(f: File, x: Id, b: Block) {
    if x == f.root.id then b == f.root else b.id == x && exists i :: 0 <= i < |f.entries| && f.entries[i].block == b
  }

  ghost predicate SomeValidated(f: File) { exists i :: 0 <= i < |f.entries| && f.entries[i].validated }

  lemma {:induction false} EntriesLoaded(root: Block, es: seq<Entry>, n: nat)
    requires n <= |es| && Linked(root, es, n)
    ensures forall i | 0 <= i < n ::
              && es[i].block.id in IndexOf(es, n) && IndexOf(es, n)[es[i].block.id] == es[i].block
              && (es[i].block.id in ValidOf(es, n) <==> es[i].validated)
    ensures forall x | x in IndexOf(es, n) :: exists i :: 0 <= i < n && es[i].block.id == x && es[i].block == IndexOf(es, n)[x]
    ensures ValidOf(es, n) <= IndexOf(es, n).Keys
  {
    if n > 0 {
      EntriesLoaded(root, es, n - 1);
      var last := es[n-1].block.id;
      IndexOfHas(es, n - 1, last);
      forall i | 0 <= i < n - 1 ensures es[i].block.id != last { }
      forall x | x in IndexOf(es, n) ensures exists i :: 0 <= i < n && es[i].block.id == x && es[i].block == IndexOf(es, n)[x] {
        if x == last {
          assert es[n-1].block.id == x && es[n-1].block == IndexOf(es, n)[x];
        } else {
          var i :| 0 <= i < n - 1 && es[i].block.id == x && es[i].block == IndexOf(es, n - 1)[x];
          assert es[i].block == IndexOf(es, n)[x];
        }
      }
    }
  }

  /** A file whose entries all link is refused if and only if its head is unknown, or is not the root
      although nothing was validated, or some validated entry is preferred to it. Otherwise it opens
      with exactly its entries, flags, root and head. */
  lemma OpensExactly(f: File)
    requires Linked(f.root, f.entries, |f.entries|)
    ensures Load(f) == Err(HeadNotFound) <==> !exists b :: Names(f, f.headId, b)
    ensures Load(f) == Err(HeadNotRoot)
            <==> (exists b :: Names(f, f.headId, b)) && f.headId != f.root.id && !SomeValidated(f)
    ensures Load(f) == Err(HeadNotBest)
            <==> exists b, i :: Names(f, f.headId, b) && 0 <= i < |f.entries| && f.entries[i].validated
                                && FirstPreferred(f.entries[i].block, b)
    ensures Load(f).Ok? ==>
              && Load(f).value.root == f.root && Names(f, f.headId, Load(f).value.head)
              && Load(f).value.index == IndexOf(f.entries, |f.entries|) && Load(f).value.valid == ValidOf(f.entries, |f.entries|)
    ensures Load(f).Err? ==> Load(f).error in {HeadNotFound, HeadNotRoot, HeadNotBest}
  {
    var es, n := f.entries, |f.entries|;
    LoadsExactly(f.root, es, n);
    LoadedExactly(f.root, es, n);
    EntriesLoaded(f.root, es, n);
    var db := LoadEntries(f.root, es, n).value;
    hide LoadEntries, Linked;
    HeadNamed(f, db);
    if Known(db, f.headId) { HeadChecked(f, db); }
  }

  ghost predicate Holds(f: File, db: Db) {
    && db.root == f.root && IdsMatch(db.index) && db.valid <= db.index.Keys
    && (forall i | 0 <= i < |f.entries| ::
          && f.entries[i].block.id in db.index && db.index[f.entries[i].block.id] == f.entries[i].block
          && (f.entries[i].block.id in db.valid <==> f.entries[i].validated))
    && forall x | x in db.index :: exists i :: 0 <= i < |f.entries| && f.entries[i].block.id == x && f.entries[i].block == db.index[x]
  }

  lemma HeadNamed(f: File, db: Db)
    requires Holds(f, db)
    ensures Known(db, f.headId) <==> exists b :: Names(f, f.headId, b)
    ensures forall b | Names(f, f.headId, b) :: Known(db, f.headId) && b == Lookup(db, f.headId)
    ensures Known(db, f.headId) ==> Names(f, f.headId, Lookup(db, f.headId))
  {
    if f.headId == f.root.id {
      assert Names(f, f.headId, f.root);
    } else if f.headId in db.index {
      assert Names(f, f.headId, db.index[f.headId]);
    }
  }

  lemma HeadChecked(f: File, db: Db)
    requires Holds(f, db) && Known(db, f.headId)
    ensures var r, head := WithHead(db, f.headId), Lookup(db, f.headId);
            && (r == Err(HeadNotRoot) <==> f.headId != f.root.id && !SomeValidated(f))
            && (r == Err(HeadNotBest)
                <==> exists i :: 0 <= i < |f.entries| && f.entries[i].validated && FirstPreferred(f.entries[i].block, head))
            && (r.Ok? ==> r.value == db.(head := head)) && (r.Err? ==> r.error in {HeadNotRoot, HeadNotBest})
  {
    var head := Lookup(db, f.headId);
    if db.index == map[] {
      assert forall i | 0 <= i < |f.entries| :: f.entries[i].block.id in db.index;
    } else {
      var first := First(db.valid, db.index);
      FirstIsBest(db.valid, db.index, first);
      var k :| 0 <= k < |f.entries| && f.entries[k].block.id == first.id && f.entries[k].block == db.index[first.id];
      if first.id in db.valid {
        assert f.entries[k].validated;
        forall i | 0 <= i < |f.entries| && f.entries[i].validated && FirstPreferred(f.entries[i].block, head)
          ensures FirstPreferred(first, head)
        {
          assert !FirstPreferred(db.index[f.entries[i].block.id], first);
        }
      } else {
        forall i | 0 <= i < |f.entries| ensures !f.entries[i].validated { assert f.entries[i].block.id !in db.valid; }
      }
    }
  }
}
