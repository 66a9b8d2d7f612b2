/** The chain state that a block of the fork tree stands for: replaying every block from the root.
    Applying a block is a deterministic partial function of the block and the state before it. */
module ChainState {
  import opened Basics
  import opened ForkDb
  import opened ForkTree
  import opened ForkBranches

  type Exec<!S> = (Block, S) -> Option<S>

  /** The state after block x: the root state for the root, otherwise x applied to its parent's. */
  ghost function StateOf<S>(exec: Exec<S>, index: map<Id, Block>, root: Id, start: S, x: Id): Option<S>
    decreases x.num
  {
    if x == root then Some(start)
    else if x in index && index[x].prev.num < x.num then
      match StateOf(exec, index, root, start, index[x].prev)
      case None => None
      case Some(s) => exec(index[x], s)
    else None
  }

  /** Validated blocks have validated parents, and every validated block has a state. */
  ghost predicate Replays<S>(exec: Exec<S>, db: Db, start: S) {
    && (forall x | x in db.valid && x in db.index :: db.index[x].prev == db.root.id || db.index[x].prev in db.valid)
    && (forall x | x in db.valid :: StateOf(exec, db.index, db.root.id, start, x).Some?)
  }

  /** What the state database should hold when the controller is at block x: its state, and below it
      on the undo stack the states of its ancestors down to the root. */
  ghost predicate UndoMatches<S>(
      exec: Exec<S>, index: map<Id, Block>, root: Id, start: S, x: Id, current: S, undo: seq<S>)
    decreases x.num
  {
    && StateOf(exec, index, root, start, x) == Some(current)
    && if x == root then undo == []
       else x in index && index[x].prev.num < x.num && undo != []
            && UndoMatches(exec, index, root, start, index[x].prev, undo[|undo|-1], undo[..|undo|-1])
  }

  /** The reversible-blocks database at block x: each block of the path, under its number. */
  ghost predicate ReversibleMatches(index: map<Id, Block>, x: Id, reversible: map<nat, Block>) {
    && (forall y | y in index && Under(index, x, y) :: y.num in reversible && reversible[y.num] == index[y])
    && (forall n | n in reversible ::
          var y := reversible[n].id; y in index && y.num == n && Under(index, x, y) && index[y] == reversible[n])
  }

  // ---------------------------------------------------------------- states under changes of the tree

  /** Validity reaches up: an ancestor of a validated block is validated or is the root. */
  lemma {:induction false} ValidAbove<S>(exec: Exec<S>, db: Db, start: S, x: Id, y: Id)
    requires Tree(db) && Replays(exec, db, start) && x in db.valid && Under(db.index, x, y)
    ensures y in db.valid || !(y in db.index)
    decreases x.num
  {
    if x != y && db.index[x].prev != y {
      if db.index[x].prev in db.valid { ValidAbove(exec, db, start, db.index[x].prev, y); }
    }
  }

  /** Blocks that are not under a removed block keep their state. */
  lemma {:induction false} StateKept<S>(exec: Exec<S>, index: map<Id, Block>, gone: set<Id>, root: Id, start: S, x: Id)
    requires forall y | y in gone :: !Under(index, x, y)
    ensures StateOf(exec, index - gone, root, start, x) == StateOf(exec, index, root, start, x)
    decreases x.num
  {
    if x != root && x in index && index[x].prev.num < x.num {
      assert x !in gone;
      StateKept(exec, index, gone, root, start, index[x].prev);
    }
  }

  /** Blocks known before a new leaf was added keep their state. */
  lemma {:induction false} StateKeptAdd<S>(exec: Exec<S>, db: Db, b: Block, start: S, x: Id)
    requires Tree(db) && Known(db, x) && b.id !in db.index
    ensures StateOf(exec, db.index[b.id := b], db.root.id, start, x) == StateOf(exec, db.index, db.root.id, start, x)
    decreases x.num
  {
    if x != db.root.id { StateKeptAdd(exec, db, b, start, db.index[x].prev); }
  }

  /** Measured from a new root on its path, a block has the same state. */
  lemma {:induction false} StateRebased<S>(exec: Exec<S>, db: Db, start: S, r: Id, x: Id)
    requires Tree(db) && r in db.index && Under(db.index, x, r)
    requires StateOf(exec, db.index, db.root.id, start, r).Some?
    ensures var start' := StateOf(exec, db.index, db.root.id, start, r).value;
            var kept := db.index - (db.index.Keys - (Subtree(db.index, r) - {r}));
            StateOf(exec, kept, r, start', x) == StateOf(exec, db.index, db.root.id, start, x)
    decreases x.num
  {
    if x != r {
      UnderNum(db.index, x, r);
      UnderRoot(db, r);
      StateRebased(exec, db, start, r, db.index[x].prev);
      assert x in Subtree(db.index, r) - {r};
    }
  }

  // ---------------------------------------------------------------- the undo stack and reversible blocks

  lemma {:induction false} UndoUnique<S>(
      exec: Exec<S>, index: map<Id, Block>, root: Id, start: S, x: Id, c: S, u: seq<S>, c': S, u': seq<S>)
    requires UndoMatches(exec, index, root, start, x, c, u) && UndoMatches(exec, index, root, start, x, c', u')
    ensures c == c' && u == u'
    decreases x.num
  {
    if x != root {
      UndoUnique(exec, index, root, start, index[x].prev, u[|u|-1], u[..|u|-1], u'[|u'|-1], u'[..|u'|-1]);
      assert u == u[..|u|-1] + [u[|u|-1]] && u' == u'[..|u'|-1] + [u'[|u'|-1]];
    }
  }

  lemma {:induction false} UndoDepth<S>(exec: Exec<S>, db: Db, start: S, x: Id, current: S, undo: seq<S>)
    requires Tree(db) && Known(db, x) && UndoMatches(exec, db.index, db.root.id, start, x, current, undo)
    ensures |undo| == x.num - db.root.id.num
    decreases x.num
  {
    if x != db.root.id {
      UndoDepth(exec, db, start, db.index[x].prev, undo[|undo|-1], undo[..|undo|-1]);
    }
  }

  /** Two ancestors with the same number are the same. */
  lemma {:induction false} AncestorUnique(index: map<Id, Block>, x: Id, y: Id, z: Id)
    requires Under(index, x, y) && Under(index, x, z) && y.num == z.num
    ensures y == z
    decreases x.num
  {
    if x == y {
      UnderNum(index, x, z);
    } else if x == z {
      UnderNum(index, x, y);
    } else {
      AncestorUnique(index, index[x].prev, y, z);
    }
  }

  lemma ReversibleUnique(index: map<Id, Block>, x: Id, r: map<nat, Block>, r': map<nat, Block>)
    requires ReversibleMatches(index, x, r) && ReversibleMatches(index, x, r')
    ensures r == r'
  {
    assert forall n | n in r :: r[n].id.num in r' && r'[n] == r[n];
    assert forall n | n in r' :: r'[n].id.num in r;
  }

  lemma ReversiblePop(index: map<Id, Block>, x: Id, r: map<nat, Block>)
    requires x in index && index[x].prev.num < x.num && ReversibleMatches(index, x, r)
    ensures ReversibleMatches(index, index[x].prev, r - {x.num})
  {
    var p := index[x].prev;
    forall y | y in index && Under(index, p, y) ensures y.num in r - {x.num} && r[y.num] == index[y] {
      UnderNum(index, p, y);
      assert Under(index, x, y);
    }
  }

  lemma ReversiblePush(index: map<Id, Block>, x: Id, b: Block, r: map<nat, Block>)
    requires b.id in index && index[b.id] == b && Numbered(b) && b.prev == x && ReversibleMatches(index, x, r)
    ensures b.id.num !in r && ReversibleMatches(index, b.id, r[b.id.num := b])
  {
    if b.id.num in r { UnderNum(index, x, r[b.id.num].id); }
    forall y | y in index && Under(index, b.id, y)
      ensures y.num in r[b.id.num := b] && r[b.id.num := b][y.num] == index[y]
    {
      if y != b.id { UnderNum(index, x, y); }
    }
    forall n | n in r ensures Under(index, b.id, r[n].id) { }
  }

  /** Ancestors are the same after a removal elsewhere. */
  lemma {:induction false} UnderKept(index: map<Id, Block>, gone: set<Id>, x: Id, y: Id)
    requires forall g | g in gone :: !Under(index, x, g)
    ensures Under(index - gone, x, y) <==> Under(index, x, y)
    decreases x.num
  {
    if x != y && x in index && index[x].prev.num < x.num {
      assert x !in gone;
      UnderKept(index, gone, index[x].prev, y);
    }
  }

  lemma ReversibleKept(index: map<Id, Block>, gone: set<Id>, x: Id, r: map<nat, Block>)
    requires forall g | g in gone :: !Under(index, x, g)
    requires ReversibleMatches(index, x, r)
    ensures ReversibleMatches(index - gone, x, r)
  {
    forall y ensures Under(index - gone, x, y) <==> Under(index, x, y) { UnderKept(index, gone, x, y); }
  }

  lemma {:induction false} UndoKept<S>(
      exec: Exec<S>, index: map<Id, Block>, gone: set<Id>, root: Id, start: S, x: Id, current: S, undo: seq<S>)
    requires forall g | g in gone :: !Under(index, x, g)
    requires UndoMatches(exec, index, root, start, x, current, undo)
    ensures UndoMatches(exec, index - gone, root, start, x, current, undo)
    decreases x.num
  {
    StateKept(exec, index, gone, root, start, x);
    if x != root {
      assert x !in gone;
      UndoKept(exec, index, gone, root, start, index[x].prev, undo[|undo|-1], undo[..|undo|-1]);
    }
  }

  lemma {:induction false} UnderKeptAdd(db: Db, b: Block, x: Id, y: Id)
    requires Tree(db) && Known(db, x) && b.id !in db.index && b.id != db.root.id
    ensures Under(db.index[b.id := b], x, y) <==> Under(db.index, x, y)
    decreases x.num
  {
    if x != y && x in db.index { UnderKeptAdd(db, b, db.index[x].prev, y); }
  }

  lemma ReversibleKeptAdd(db: Db, b: Block, x: Id, r: map<nat, Block>)
    requires Tree(db) && Known(db, x) && b.id !in db.index && b.id != db.root.id
    requires ReversibleMatches(db.index, x, r)
    ensures ReversibleMatches(db.index[b.id := b], x, r)
  {
    var index := db.index[b.id := b];
    forall y ensures Under(index, x, y) <==> Under(db.index, x, y) { UnderKeptAdd(db, b, x, y); }
    if Under(index, x, b.id) { UnderNotNew(db, b, x); }
  }

  lemma {:induction false} UnderNotNew(db: Db, b: Block, x: Id)
    requires Tree(db) && Known(db, x) && b.id !in db.index && b.id != db.root.id
    ensures !Under(db.index, x, b.id)
    decreases x.num
  {
    if x in db.index { UnderNotNew(db, b, db.index[x].prev); }
  }

  lemma {:induction false} UndoKeptAdd<S>(exec: Exec<S>, db: Db, b: Block, start: S, x: Id, current: S, undo: seq<S>)
    requires Tree(db) && Known(db, x) && b.id !in db.index
    requires UndoMatches(exec, db.index, db.root.id, start, x, current, undo)
    ensures UndoMatches(exec, db.index[b.id := b], db.root.id, start, x, current, undo)
    decreases x.num
  {
    StateKeptAdd(exec, db, b, start, x);
    if x != db.root.id {
      UndoKeptAdd(exec, db, b, start, db.index[x].prev, undo[|undo|-1], undo[..|undo|-1]);
    }
  }

  // ---------------------------------------------------------------- advancing the root

  /** The undo stack above a new root: commit drops the entries below it. */
  lemma {:induction false} UndoRebased<S>(exec: Exec<S>, db: Db, start: S, r: Id, x: Id, current: S, undo: seq<S>)
    requires Tree(db) && r in db.index && Under(db.index, x, r) && Known(db, x)
    requires UndoMatches(exec, db.index, db.root.id, start, x, current, undo)
    ensures StateOf(exec, db.index, db.root.id, start, r).Some?
    ensures var k := r.num - db.root.id.num;
            && 0 <= k <= |undo|
            && UndoMatches(exec, Kept(db, r), r,
                           StateOf(exec, db.index, db.root.id, start, r).value, x, current, undo[k..])
    decreases x.num
  {
    UndoDepth(exec, db, start, x, current, undo);
    UnderRoot(db, r);
    if x == r {
      StateRebased(exec, db, start, r, x);
    } else {
      var n := |undo| - 1;
      UndoRebased(exec, db, start, r, db.index[x].prev, undo[n], undo[..n]);
      StateRebased(exec, db, start, r, x);
      var k := r.num - db.root.id.num;
      UnderNum(db.index, x, r);
      UndoDepth(exec, db, start, db.index[x].prev, undo[n], undo[..n]);
      UnderNum(db.index, db.index[x].prev, r);
      assert undo[k..][..|undo[k..]|-1] == undo[..n][k..];
      assert x in Subtree(db.index, r) - {r};
    }
  }

  ghost function Kept(db: Db, r: Id): map<Id, Block> {
    db.index - (db.index.Keys - (Subtree(db.index, r) - {r}))
  }

  lemma {:induction false} UnderRebased(db: Db, r: Id, x: Id, y: Id)
    requires Tree(db) && r in db.index && Under(db.index, x, r) && y in Kept(db, r)
    ensures Under(Kept(db, r), x, y) <==> Under(db.index, x, y)
    decreases x.num
  {
    if x == r {
      if Under(db.index, r, y) { UnderNum(db.index, r, y); UnderNum(db.index, y, r); }
    } else if x != y {
      assert x in Subtree(db.index, r) - {r};
      UnderRebased(db, r, db.index[x].prev, y);
    }
  }

  /** On the path of x, a block numbered above an ancestor r is a strict descendant of r. */
  lemma {:induction false} BetweenUnder(index: map<Id, Block>, x: Id, y: Id, r: Id)
    requires Under(index, x, y) && Under(index, x, r) && y.num > r.num
    ensures Under(index, y, r)
    decreases x.num
  {
    if x == r { UnderNum(index, x, y); }
    else if x != y { BetweenUnder(index, index[x].prev, y, r); }
  }

  lemma ReversibleRebased(db: Db, r: Id, x: Id, reversible: map<nat, Block>)
    requires Tree(db) && r in db.index && Under(db.index, x, r)
    requires ReversibleMatches(db.index, x, reversible)
    ensures ReversibleMatches(Kept(db, r), x, map n | n in reversible && n > r.num :: reversible[n])
  {
    var kept := Kept(db, r);
    var above := map n | n in reversible && n > r.num :: reversible[n];
    forall y | y in kept && Under(kept, x, y) ensures y.num in above && above[y.num] == kept[y] {
      UnderRebased(db, r, x, y);
      UnderNum(db.index, y, r);
      assert y in db.index && kept[y] == db.index[y];
    }
    forall n | n in above
      ensures var y := above[n].id; y in kept && y.num == n && Under(kept, x, y) && kept[y] == above[n]
    {
      assert n in reversible && above[n] == reversible[n];
      var y := above[n].id;
      BetweenUnder(db.index, x, y, r);
      UnderRebased(db, r, x, y);
    }
    hide Under, Subtree, Tree, Kept;
  }

  /** Validated blocks above the new root still replay from its state. */
  lemma ReplaysRebased<S>(exec: Exec<S>, db: Db, start: S, r: Id)
    requires Tree(db) && Replays(exec, db, start) && r in db.valid && AdvanceRoot(db, r).Ok?
    ensures Replays(exec, AdvanceRoot(db, r).value, StateOf(exec, db.index, db.root.id, start, r).value)
  {
    var db' := AdvanceRoot(db, r).value;
    assert db'.index == Kept(db, r);
    forall x | x in db'.valid
      ensures StateOf(exec, db'.index, r, StateOf(exec, db.index, db.root.id, start, r).value, x).Some?
      ensures db'.index[x].prev == r || db'.index[x].prev in db'.valid
    {
      assert x in Subtree(db.index, r) - {r};
      StateRebased(exec, db, start, r, x);
      var p := db.index[x].prev;
      if p != r {
        assert Under(db.index, p, r);
        UnderNum(db.index, p, r);
        assert p != db.root.id;
      }
    }
  }

  // ---------------------------------------------------------------- validity under the other operations

  lemma ReplaysMark<S>(exec: Exec<S>, db: Db, start: S, x: Id)
    requires Tree(db) && Replays(exec, db, start) && x in db.index
    requires StateOf(exec, db.index, db.root.id, start, x).Some?
    requires db.index[x].prev == db.root.id || db.index[x].prev in db.valid
    ensures Replays(exec, MarkValid(db, x).value, start)
  {
  }

  /** A block without a state, and everything under it, has never been validated. */
  lemma BadNotValid<S>(exec: Exec<S>, db: Db, start: S, bad: Id, y: Id)
    requires Tree(db) && Replays(exec, db, start) && bad in db.index
    requires StateOf(exec, db.index, db.root.id, start, bad).None? && Under(db.index, y, bad)
    ensures y !in db.valid && y != db.root.id
  {
    if y in db.valid { ValidAbove(exec, db, start, y, bad); }
    UnderNum(db.index, y, bad);
  }

  lemma ReplaysRemove<S>(exec: Exec<S>, db: Db, start: S, bad: Id)
    requires Tree(db) && Replays(exec, db, start) && bad in db.index
    requires StateOf(exec, db.index, db.root.id, start, bad).None?
    ensures Remove(db, bad).Ok? && Replays(exec, Remove(db, bad).value, start)
    ensures Remove(db, bad).value.valid == db.valid
  {
    if Under(db.index, db.head.id, bad) { BadNotValid(exec, db, start, bad, db.head.id); }
    var gone := Subtree(db.index, bad);
    forall x | x in db.valid ensures x !in gone {
      if x in gone { BadNotValid(exec, db, start, bad, x); }
    }
    assert db.valid - gone == db.valid;
    forall x | x in db.valid
      ensures StateOf(exec, db.index - gone, db.root.id, start, x) == StateOf(exec, db.index, db.root.id, start, x)
    {
      NotUnderGone(exec, db, start, bad, x);
      StateKept(exec, db.index, gone, db.root.id, start, x);
    }
  }

  /** Nothing under the bad block is an ancestor of a validated block or of the root. */
  lemma NotUnderGone<S>(exec: Exec<S>, db: Db, start: S, bad: Id, x: Id)
    requires Tree(db) && Replays(exec, db, start) && bad in db.index
    requires StateOf(exec, db.index, db.root.id, start, bad).None? && (x in db.valid || x == db.root.id)
    ensures forall g | g in Subtree(db.index, bad) :: !Under(db.index, x, g)
  {
    forall g | g in Subtree(db.index, bad) ensures !Under(db.index, x, g) {
      if Under(db.index, x, g) {
        UnderTransitive(db.index, x, g, bad);
        BadNotValid(exec, db, start, bad, x);
      }
    }
  }

  lemma ReplaysAdd<S>(exec: Exec<S>, db: Db, start: S, b: Block)
    requires Tree(db) && Replays(exec, db, start) && b.id !in db.index
    ensures Replays(exec, Insert(db, b, false), start)
  {
    forall x | x in db.valid
      ensures StateOf(exec, db.index[b.id := b], db.root.id, start, x) == StateOf(exec, db.index, db.root.id, start, x)
    {
      StateKeptAdd(exec, db, b, start, x);
    }
  }

  /** Marking a block can make only that block the new head. */
  lemma MarkedHead(db: Db, x: Id)
    requires Tree(db) && BestHead(db) && x in db.index
    ensures var db' := MarkValid(db, x).value;
            db'.head == db.head || (db'.head == db.index[x] && FirstPreferred(db'.head, db.head))
  {
  }

  /** A block without a state leaves its descendants without one. */
  lemma {:induction false} NoStateBelow<S>(exec: Exec<S>, index: map<Id, Block>, root: Id, start: S, x: Id, y: Id)
    requires Under(index, x, y) && StateOf(exec, index, root, start, y).None? && root.num < y.num
    ensures StateOf(exec, index, root, start, x).None?
    decreases x.num
  {
    if x != y {
      UnderNum(index, x, y);
      NoStateBelow(exec, index, root, start, index[x].prev, y);
    }
  }

  // ---------------------------------------------------------------- the controller in sync with the tree

  /** Where the controller stands: its head, the state database with its undo stack, and the
      reversible-blocks database. */
  datatype Position<S> = Position(
    head: Block, current: S, undo: seq<S>, revision: nat, reversible: map<nat, Block>)

  ghost predicate HeadOk(db: Db, head: Block) {
    head == db.root || (head.id in db.valid && head.id in db.index && db.index[head.id] == head)
  }

  ghost predicate InSync<S>(exec: Exec<S>, db: Db, start: S, c: Position<S>) {
    && HeadOk(db, c.head) && Replays(exec, db, start)
    && UndoMatches(exec, db.index, db.root.id, start, c.head.id, c.current, c.undo)
    && ReversibleMatches(db.index, c.head.id, c.reversible)
    && c.revision == c.head.id.num
  }

  ghost function Popped<S>(db: Db, c: Position<S>): Position<S>
    requires Known(db, c.head.prev) && c.undo != [] && c.revision > 0
  {
    var n := |c.undo| - 1;
    Position(Lookup(db, c.head.prev), c.undo[n], c.undo[..n], c.revision - 1, c.reversible - {c.head.id.num})
  }

  ghost function Pushed<S>(c: Position<S>, b: Block, next: S): Position<S> {
    Position(b, next, c.undo + [c.current], c.revision + 1, c.reversible[b.id.num := b])
  }

  lemma PopSync<S>(exec: Exec<S>, db: Db, start: S, c: Position<S>)
    requires Tree(db) && InSync(exec, db, start, c) && c.head.id != db.root.id
    ensures Known(db, c.head.prev) && c.undo != [] && c.revision > 0
    ensures InSync(exec, db, start, Popped(db, c))
  {
    ReversiblePop(db.index, c.head.id, c.reversible);
    hide ReversibleMatches;
  }

  lemma AdvanceSync<S>(exec: Exec<S>, db: Db, start: S, c: Position<S>, b: Block)
    requires Tree(db) && BestHead(db) && InSync(exec, db, start, c)
    requires b.id in db.index && db.index[b.id] == b && b.prev == c.head.id
    ensures StateOf(exec, db.index, db.root.id, start, b.id) == exec(b, c.current)
    ensures b.id.num !in c.reversible && c.revision == c.head.id.num
    ensures exec(b, c.current).Some? ==>
              && MarkValid(db, b.id).Ok?
              && InSync(exec, MarkValid(db, b.id).value, start, Pushed(c, b, exec(b, c.current).value))
  {
    ReversiblePush(db.index, c.head.id, b, c.reversible);
    hide ReversibleMatches;
    assert Numbered(b) && b.id != db.root.id;
    if exec(b, c.current).Some? {
      ReplaysMark(exec, db, start, b.id);
      UndoPush(exec, db, start, c.head.id, c.current, c.undo, b);
      MarkValidKeeps(db, b.id);
    }
  }

  lemma UndoPush<S>(exec: Exec<S>, db: Db, start: S, x: Id, current: S, undo: seq<S>, b: Block)
    requires Tree(db) && b.id in db.index && db.index[b.id] == b && b.prev == x
    requires UndoMatches(exec, db.index, db.root.id, start, x, current, undo) && exec(b, current).Some?
    ensures UndoMatches(exec, db.index, db.root.id, start, b.id, exec(b, current).value, undo + [current])
  {
    var longer := undo + [current];
    assert longer[..|longer|-1] == undo;
  }

  lemma RemoveSync<S>(exec: Exec<S>, db: Db, start: S, c: Position<S>, bad: Id)
    requires Tree(db) && InSync(exec, db, start, c) && bad in db.index
    requires StateOf(exec, db.index, db.root.id, start, bad).None?
    ensures Remove(db, bad).Ok? && InSync(exec, Remove(db, bad).value, start, c)
    ensures Remove(db, bad).value.valid == db.valid
  {
    ReplaysRemove(exec, db, start, bad);
    var gone := Subtree(db.index, bad);
    NotUnderGone(exec, db, start, bad, c.head.id);
    UndoKept(exec, db.index, gone, db.root.id, start, c.head.id, c.current, c.undo);
    ReversibleKept(db.index, gone, c.head.id, c.reversible);
    assert c.head.id !in gone by { assert Under(db.index, c.head.id, c.head.id); }
  }

  lemma AddSync<S>(exec: Exec<S>, db: Db, start: S, c: Position<S>, b: Block)
    requires Tree(db) && InSync(exec, db, start, c) && Numbered(b)
    requires Known(db, b.prev) && b.id !in db.index
    ensures InSync(exec, Insert(db, b, false), start, c)
  {
    UnderRoot(db, b.prev);
    ReplaysAdd(exec, db, start, b);
    UndoKeptAdd(exec, db, b, start, c.head.id, c.current, c.undo);
    ReversibleKeptAdd(db, b, c.head.id, c.reversible);
  }

  /** What commit and the cleanup of the reversible-blocks database leave when the root moves to r. */
  ghost function Committed<S>(db: Db, c: Position<S>, r: Id): Position<S>
    requires 0 <= r.num - db.root.id.num <= |c.undo|
  {
    c.(undo := c.undo[r.num - db.root.id.num..],
       reversible := map n | n in c.reversible && n > r.num :: c.reversible[n])
  }

  lemma RebaseSync<S>(exec: Exec<S>, db: Db, start: S, c: Position<S>, r: Id)
    requires Tree(db) && BestHead(db) && InSync(exec, db, start, c)
    requires r in db.index && Under(db.index, c.head.id, r) && db.head == c.head
    ensures r in db.valid && AdvanceRoot(db, r).Ok?
    ensures StateOf(exec, db.index, db.root.id, start, r).Some?
    ensures 0 <= r.num - db.root.id.num <= |c.undo|
    ensures InSync(exec, AdvanceRoot(db, r).value, StateOf(exec, db.index, db.root.id, start, r).value,
                   Committed(db, c, r))
  {
    hide ReversibleMatches, UndoMatches, Replays, StateOf, Under, AdvanceRoot, Kept, Subtree, Tree, BestHead, InSync, HeadOk;
    SyncParts(exec, db, start, c);
    UnderNum(db.index, c.head.id, r);
    UnderRoot(db, r);
    BelowRoot(db, r);
    ValidAbove(exec, db, start, c.head.id, r);
    UndoRebased(exec, db, start, r, c.head.id, c.current, c.undo);
    ReversibleRebased(db, r, c.head.id, c.reversible);
    AdvanceRootKeeps(db, r);
    ReplaysRebased(exec, db, start, r);
    AdvancedShape(db, r);
    JoinSync(exec, AdvanceRoot(db, r).value, StateOf(exec, db.index, db.root.id, start, r).value, Committed(db, c, r));
  }

  lemma SyncParts<S>(exec: Exec<S>, db: Db, start: S, c: Position<S>)
    requires Tree(db) && InSync(exec, db, start, c)
    ensures Known(db, c.head.id) && c.revision == c.head.id.num && (c.head.id == db.root.id || c.head.id in db.valid)
    ensures Replays(exec, db, start) && ReversibleMatches(db.index, c.head.id, c.reversible)
    ensures UndoMatches(exec, db.index, db.root.id, start, c.head.id, c.current, c.undo)
  {
    hide UndoMatches, ReversibleMatches, Replays;
  }

  lemma JoinSync<S>(exec: Exec<S>, db: Db, start: S, c: Position<S>)
    requires HeadOk(db, c.head) && Replays(exec, db, start) && c.revision == c.head.id.num
    requires UndoMatches(exec, db.index, db.root.id, start, c.head.id, c.current, c.undo)
    requires ReversibleMatches(db.index, c.head.id, c.reversible)
    ensures InSync(exec, db, start, c)
  {
    hide UndoMatches, ReversibleMatches, Replays, HeadOk;
  }

  lemma BelowRoot(db: Db, r: Id)
    requires Tree(db) && r in db.index
    ensures r != db.root.id && db.index[r].id == r
  {
  }

  lemma AdvancedShape(db: Db, r: Id)
    requires Tree(db) && AdvanceRoot(db, r).Ok?
    ensures var db' := AdvanceRoot(db, r).value;
            db'.root.id == r && db'.index == Kept(db, r) && db'.head == db.head
            && (Tree(db') ==> HeadOk(db', db.head))
  {
  }

  /** In sync with the same tree at the same block means the same position. */
  lemma SyncUnique<S>(exec: Exec<S>, db: Db, start: S, c: Position<S>, c': Position<S>)
    requires InSync(exec, db, start, c) && InSync(exec, db, start, c') && c.head == c'.head
    ensures c == c'
  {
    UndoUnique(exec, db.index, db.root.id, start, c.head.id, c.current, c.undo, c'.current, c'.undo);
    ReversibleUnique(db.index, c.head.id, c.reversible, c'.reversible);
  }
}
