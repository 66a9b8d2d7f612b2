/** When the controller's head leads the tree, and why it keeps leading if no block reports a lower
    irreversible number than its parent. */
module ForkLead {
  import opened ForkDb
  import opened ForkTree

  /** Nothing in the tree is preferred to the head. */
  ghost predicate LeadsTree(index: map<Id, Block>, head: Block) {
    forall x | x in index :: !FirstPreferred(index[x], head)
  }

  /** No block reports a lower irreversible number than its parent. */
  ghost predicate LibsRise(blocks: set<Block>) {
    forall b, p | b in blocks && p in blocks && b.prev == p.id :: p.lib <= b.lib
  }

  ghost function Blocks(db: Db): set<Block> {
    {db.root} + set x | x in db.index :: db.index[x]
  }

  lemma BlocksHas(db: Db, x: Id)
    requires Known(db, x)
    ensures Lookup(db, x) in Blocks(db)
  {
  }

  /** A child would be preferred to a head that leads. */
  lemma NoChild(db: Db, head: Block)
    requires Tree(db) && LibsRise(Blocks(db)) && Known(db, head.id) && head == Lookup(db, head.id)
    requires LeadsTree(db.index, head)
    ensures forall x | x in db.index :: db.index[x].prev != head.id
  {
    forall x | x in db.index ensures db.index[x].prev != head.id {
      BlocksHas(db, x);
      BlocksHas(db, head.id);
      UnderRoot(db, x);
      assert Lookup(db, x) == db.index[x] && !FirstPreferred(db.index[x], head);
    }
  }

  /** If only the leaf b hangs on z, then nothing else is under z. */
  lemma {:induction false} OnlyLeafUnder(index: map<Id, Block>, b: Id, x: Id, z: Id)
    requires forall y | y in index :: index[y].prev != b && (y != b ==> index[y].prev != z)
    requires Under(index, x, z)
    ensures x == z || (x == b && x in index && index[x].prev == z)
    decreases x.num
  {
    if x != z { OnlyLeafUnder(index, b, index[x].prev, z); }
  }

  /** Once a block is added, only it itself can be under a head that leads, and then as its child. */
  lemma AddedUnderHead(db: Db, b: Block, head: Block, x: Id)
    requires Tree(db) && Numbered(b) && Known(db, b.prev) && b.id !in db.index
    requires LibsRise(Blocks(db)) && Known(db, head.id) && head == Lookup(db, head.id)
    requires LeadsTree(db.index, head) && Under(db.index[b.id := b], x, head.id)
    ensures x == head.id || (x == b.id && b.prev == head.id)
  {
    hide Under, LeadsTree, LibsRise, Blocks, Tree;
    NoChild(db, head);
    var index := db.index[b.id := b];
    AddedIsLeaf(db, b, index);
    OnlyLeafUnder(index, b.id, x, head.id);
  }

  lemma AddedIsLeaf(db: Db, b: Block, index: map<Id, Block>)
    requires Tree(db) && Numbered(b) && Known(db, b.prev) && b.id !in db.index && index == db.index[b.id := b]
    ensures forall y | y in index :: index[y].prev != b.id
  {
    UnderRoot(db, b.prev);
  }

  /** What is left of the tree after the best block was taken up, or after it and its branch were
      thrown out, is still led by the head. */
  lemma LeadKept(index: map<Id, Block>, b: Block, head: Block, best: Block, after: map<Id, Block>)
    requires LeadsTree(index, head) && LeadsTree(index[b.id := b], best)
    requires forall x | x in after :: x in index[b.id := b] && after[x] == index[b.id := b][x]
    requires best == b ==> b.id !in after
    requires best == b || !FirstPreferred(best, head)
    ensures LeadsTree(after, head)
  {
    if FirstPreferred(b, head) {
      assert b.id in index[b.id := b] && !FirstPreferred(b, best);
    }
  }

  /** A block on top of a head that leads, and with no lower irreversible number, is preferred to the
      head and to everything else. */
  lemma ChildLeads(db: Db, head: Block, b: Block)
    requires Tree(db) && LeadsTree(db.index, head) && Numbered(b) && b.prev == head.id && head.lib <= b.lib
    ensures FirstPreferred(b, head) && forall x | x in db.index :: FirstPreferred(b, db.index[x])
  {
    forall x | x in db.index ensures FirstPreferred(b, db.index[x]) {
      assert !FirstPreferred(db.index[x], head);
    }
  }
}
