/** The tree of reversible blocks as a value, with one function per operation of
    libraries/chain/fork_database.cpp. The class ForkDatabase carries these operations out. */
module ForkDb {

  datatype Result<+T> = Ok(value: T) | Err(error: Error)

  datatype Error =
    | Unlinkable | Duplicate | RemovesHead | NotInDatabase | NotValidated | Orphaned
    | BlockNotFound | HeadNotFound | HeadNotRoot | HeadNotBest

  /** A block id carries its block number in front of the hash. */
  datatype Id = Id(num: nat, hash: nat)

  /** The part of a block state that the fork database looks at; `lib` is the irreversible block
      number it reports. The validated flag is kept beside it, because it changes. */
  datatype Block = Block(id: Id, prev: Id, lib: nat)

  /** block_header::id() stores num_from_id(previous) + 1 in the id. */
  predicate Numbered(b: Block) { b.id.num == b.prev.num + 1 }

  datatype Db = Db(index: map<Id, Block>, valid: set<Id>, root: Block, head: Block)

  // ---------------------------------------------------------------- orders

  predicate FirstPreferred(a: Block, b: Block) {
    a.lib > b.lib || (a.lib == b.lib && a.id.num > b.id.num)
  }

  predicate IdLess(a: Id, b: Id) { a.num < b.num || (a.num == b.num && a.hash < b.hash) }

  /** The order of the by_lib_block_num index: validated first, then preferred, then smaller id. */
  predicate Before(valid: set<Id>, a: Block, b: Block) {
    if (a.id in valid) != (b.id in valid) then a.id in valid
    else FirstPreferred(a, b) || (!FirstPreferred(b, a) && IdLess(a.id, b.id))
  }

  ghost predicate IsFirst(valid: set<Id>, index: map<Id, Block>, b: Block) {
    && b.id in index && index[b.id] == b
    && forall x | x in index && x != b.id :: Before(valid, b, index[x])
  }

  lemma {:induction false} FirstExists(valid: set<Id>, index: map<Id, Block>) returns (b: Block)
    requires index != map[] && forall x | x in index :: index[x].id == x
    ensures IsFirst(valid, index, b)
    decreases |index|
  {
    var k :| k in index;
    var rest := index - {k};
    if rest == map[] {
      b := index[k];
      assert forall x | x in index && x != k :: x in rest;
    } else {
      assert |rest.Keys| < |index.Keys|;
      var c := FirstExists(valid, rest);
      b := if Before(valid, index[k], c) then index[k] else c;
      forall x | x in index && x != b.id ensures Before(valid, b, index[x]) {
        if x != k { assert x in rest; }
      }
    }
  }

  /** The block at the front of the by_lib_block_num index. */
  ghost function First(valid: set<Id>, index: map<Id, Block>): (b: Block)
    requires index != map[] && forall x | x in index :: index[x].id == x
    ensures IsFirst(valid, index, b)
  {
    assert exists b :: IsFirst(valid, index, b) by { var b := FirstExists(valid, index); }
    var b :| IsFirst(valid, index, b);
    b
  }

  // ---------------------------------------------------------------- the tree

  predicate Known(db: Db, x: Id) { x == db.root.id || x in db.index }

  function Lookup(db: Db, x: Id): Block
    requires Known(db, x)
  {
    if x == db.root.id then db.root else db.index[x]
  }

  /** Every block hangs on the root or on another block, one number lower; the head is the root or
      a validated block. */
  ghost predicate Tree(db: Db) {
    && db.root.id !in db.index
    && (forall x | x in db.index ::
          db.index[x].id == x && Numbered(db.index[x]) && Known(db, db.index[x].prev))
    && db.valid <= db.index.Keys
    && (db.head == db.root || (db.head.id in db.valid && db.index[db.head.id] == db.head))
  }

  /** No validated block is strictly preferred to the head. */
  ghost predicate BestHead(db: Db) {
    forall x | x in db.valid && x in db.index :: !FirstPreferred(db.index[x], db.head)
  }

  /** x is z or a descendant of z, following parent links inside the index. */
  ghost predicate Under(index: map<Id, Block>, x: Id, z: Id)
    decreases x.num
  {
    x == z || (x in index && index[x].prev.num < x.num && Under(index, index[x].prev, z))
  }

  lemma {:induction false} UnderRoot(db: Db, x: Id)
    requires Tree(db) && Known(db, x)
    ensures Under(db.index, x, db.root.id) && db.root.id.num <= x.num
    ensures x != db.root.id ==> db.root.id.num < x.num
    decreases x.num
  {
    if x != db.root.id { UnderRoot(db, db.index[x].prev); }
  }

  lemma {:induction false} UnderTransitive(index: map<Id, Block>, x: Id, y: Id, z: Id)
    requires Under(index, x, y) && Under(index, y, z)
    ensures Under(index, x, z)
    decreases x.num
  {
    if x != y { UnderTransitive(index, index[x].prev, y, z); }
  }

  lemma {:induction false} UnderNum(index: map<Id, Block>, x: Id, z: Id)
    requires Under(index, x, z)
    ensures z.num <= x.num && (x != z ==> z.num < x.num && x in index)
    decreases x.num
  {
    if x != z { UnderNum(index, index[x].prev, z); }
  }

  // ---------------------------------------------------------------- operations

  ghost function Reset(root: Block): Db { Db(map[], {}, root, root) }

  ghost function Rollback(db: Db): Db { db.(valid := {}, head := db.root) }

  ghost function Insert(db: Db, b: Block, validated: bool): Db
    requires forall x | x in db.index :: db.index[x].id == x
  {
    var index := db.index[b.id := b];
    assert b.id in index;
    var valid := if validated then db.valid + {b.id} else db.valid;
    var first := First(valid, index);
    Db(index, valid, db.root, if first.id in valid then first else db.head)
  }

  ghost function Add(db: Db, b: Block, validated: bool, ignoreDuplicate: bool): Result<Db>
    requires forall x | x in db.index :: db.index[x].id == x
  {
    if !Known(db, b.prev) then Err(Unlinkable)
    else if b.id in db.index then (if ignoreDuplicate then Ok(db) else Err(Duplicate))
    else Ok(Insert(db, b, validated))
  }

  ghost function MarkValid(db: Db, x: Id): Result<Db>
    requires forall x | x in db.index :: db.index[x].id == x
  {
    if x == db.root.id || x in db.valid then Ok(db)
    else if x !in db.index then Err(NotInDatabase)
    else
      var valid := db.valid + {x};
      var first := First(valid, db.index);
      Ok(db.(valid := valid, head := if FirstPreferred(first, db.head) then first else db.head))
  }

  ghost function Subtree(index: map<Id, Block>, x: Id): set<Id> {
    set y | y in index && Under(index, y, x)
  }

  ghost function Without(db: Db, gone: set<Id>): Db {
    db.(index := db.index - gone, valid := db.valid - gone)
  }

  ghost function Remove(db: Db, x: Id): Result<Db> {
    if Under(db.index, db.head.id, x) then Err(RemovesHead)
    else Ok(Without(db, Subtree(db.index, x)))
  }

  /** Strict descendants of x stay; everything else, x included, leaves the index. */
  ghost function AdvanceRoot(db: Db, x: Id): Result<Db> {
    if x !in db.index then Err(NotInDatabase)
    else if x !in db.valid then Err(NotValidated)
    else if !Under(db.index, db.head.id, x) then Err(RemovesHead)
    else Ok(Without(db, db.index.Keys - (Subtree(db.index, x) - {x})).(root := db.index[x]))
  }

  /** The best block not yet validated if it beats the head, otherwise the head. */
  ghost function PendingHead(db: Db): Block
    requires forall x | x in db.index :: db.index[x].id == x
  {
    var waiting := db.index - db.valid;
    if waiting == map[] then db.head else
      var w := First({}, waiting);
      if FirstPreferred(w, db.head) then w else db.head
  }
}
