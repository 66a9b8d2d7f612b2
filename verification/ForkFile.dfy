/** Saving the fork database when it closes and rebuilding it when it opens: the order in which the
    two-iterator merge writes blocks decides whether reading them back succeeds. */
module ForkFile {
  import opened ForkDb
  import opened ForkTree
  import opened ForkDatabaseClass

  datatype Entry = Entry(block: Block, validated: bool)

  /** The file, after the magic number and version: packing is taken as an injective encoding. */
  datatype File = File(root: Block, entries: seq<Entry>, headId: Id)

  // ---------------------------------------------------------------- reading

  ghost predicate IdsMatch(index: map<Id, Block>) { forall x | x in index :: index[x].id == x }

  /** Adds the first n entries one after the other. */
  ghost function LoadEntries(root: Block, es: seq<Entry>, n: nat): (r: Result<Db>)
    requires n <= |es|
    ensures r.Ok? ==> IdsMatch(r.value.index)
  {
    if n == 0 then Ok(Reset(root)) else
      match LoadEntries(root, es, n - 1)
      case Err(e) => Err(e)
      case Ok(db) => Add(db, es[n-1].block, es[n-1].validated, false)
  }

  /** The checks on the saved head after the blocks have been rebuilt. */
  ghost function WithHead(db: Db, headId: Id): Result<Db>
    requires IdsMatch(db.index)
  {
    if !Known(db, headId) then Err(HeadNotFound) else
    var head := Lookup(db, headId);
    if db.index == map[] || First(db.valid, db.index).id !in db.valid then
      if head.id != db.root.id then Err(HeadNotRoot) else Ok(db.(head := head))
    else if FirstPreferred(First(db.valid, db.index), head) then Err(HeadNotBest)
    else Ok(db.(head := head))
  }

  /** fork_database::open: rebuild, find the saved head, and check that it is the best choice. */
  ghost function Load(f: File): Result<Db> {
    match LoadEntries(f.root, f.entries, |f.entries|)
    case Err(e) => Err(e)
    case Ok(db) => WithHead(db, f.headId)
  }

  // ---------------------------------------------------------------- writing

  ghost predicate EntryOf(index: map<Id, Block>, valid: set<Id>, e: Entry) {
    && e.block.id in index && index[e.block.id] == e.block
    && e.validated == (e.block.id in valid)
  }

  /** One of the first n entries is for block x. */
  ghost predicate HasId(es: seq<Entry>, n: nat, x: Id)
    requires n <= |es|
  {
    exists i :: 0 <= i < n && es[i].block.id == x
  }

  /** Each block of the index once, with its flag. */
  ghost predicate Lists(index: map<Id, Block>, valid: set<Id>, es: seq<Entry>) {
    && (forall i | 0 <= i < |es| :: EntryOf(index, valid, es[i]))
    && (forall i, j | 0 <= i < j < |es| :: es[i].block.id != es[j].block.id)
    && (forall x | x in index :: HasId(es, |es|, x))
  }

  /** Never a more preferred block before a less preferred one. */
  ghost predicate Ascending(es: seq<Entry>) {
    forall i, j | 0 <= i < j < |es| :: !FirstPreferred(es[i].block, es[j].block)
  }

  ghost predicate SavedAs(db: Db, f: File) {
    && f.root == db.root && f.headId == db.head.id
    && Lists(db.index, db.valid, f.entries) && Ascending(f.entries)
  }

  /** No block reports an irreversible number below its parent's. */
  ghost predicate LibNeverDrops(index: map<Id, Block>) {
    forall x | x in index && index[x].prev in index :: index[index[x].prev].lib <= index[x].lib
  }

  // ---------------------------------------------------------------- the round trip

  /** The index and the flags that the first n entries add up to. */
  ghost function IndexOf(es: seq<Entry>, n: nat): map<Id, Block>
    requires n <= |es|
  {
    if n == 0 then map[] else IndexOf(es, n - 1)[es[n-1].block.id := es[n-1].block]
  }

  ghost function ValidOf(es: seq<Entry>, n: nat): set<Id>
    requires n <= |es|
  {
    if n == 0 then {} else
      ValidOf(es, n - 1) + if es[n-1].validated then {es[n-1].block.id} else {}
  }

  /** A successful rebuild holds exactly the entries read so far. */
  lemma {:induction false} LoadedExactly(root: Block, es: seq<Entry>, n: nat)
    requires n <= |es|
    ensures LoadEntries(root, es, n).Ok? ==>
              var db := LoadEntries(root, es, n).value;
              db.root == root && db.index == IndexOf(es, n) && db.valid == ValidOf(es, n)
  {
    if n > 0 { LoadedExactly(root, es, n - 1); }
  }

  lemma {:induction false} IndexOfHas(es: seq<Entry>, n: nat, x: Id)
    requires n <= |es|
    ensures x in IndexOf(es, n) <==> HasId(es, n, x)
  {
    if n > 0 { IndexOfHas(es, n - 1, x); }
  }

  lemma {:induction false} IndexOfListed(index: map<Id, Block>, valid: set<Id>, es: seq<Entry>, n: nat)
    requires n <= |es| && forall i | 0 <= i < |es| :: EntryOf(index, valid, es[i])
    ensures forall x | x in IndexOf(es, n) :: x in index && IndexOf(es, n)[x] == index[x]
    ensures forall x | x in IndexOf(es, n) :: x in ValidOf(es, n) <==> x in valid
    ensures ValidOf(es, n) <= IndexOf(es, n).Keys
  {
    if n > 0 { IndexOfListed(index, valid, es, n - 1); }
  }

  /** In a list that respects preference, the parent of entry n stands before it exactly when it
      does not report a higher irreversible number. */
  lemma ParentPosition(db: Db, es: seq<Entry>, n: nat)
    requires Tree(db) && Lists(db.index, db.valid, es) && Ascending(es) && n < |es|
    requires es[n].block.prev in db.index
    ensures HasId(es, n, es[n].block.prev) <==> db.index[es[n].block.prev].lib <= es[n].block.lib
  {
    var b := es[n].block;
    assert EntryOf(db.index, db.valid, es[n]) && Numbered(b);
    assert HasId(es, |es|, b.prev);
    var i :| 0 <= i < |es| && es[i].block.id == b.prev;
    assert EntryOf(db.index, db.valid, es[i]);
    assert if es[i].block.lib <= b.lib then FirstPreferred(b, es[i].block)
           else FirstPreferred(es[i].block, b);
  }

  lemma FreshId(index: map<Id, Block>, valid: set<Id>, es: seq<Entry>, n: nat)
    requires Lists(index, valid, es) && n < |es|
    ensures !HasId(es, n, es[n].block.id)
  {
  }

  /** Entry n goes in exactly when its parent is the root or has been read before. */
  lemma LoadStep(root: Block, es: seq<Entry>, n: nat)
    requires n < |es| && LoadEntries(root, es, n).Ok? && !HasId(es, n, es[n].block.id)
    ensures LoadEntries(root, es, n + 1).Ok? <==>
              es[n].block.prev == root.id || HasId(es, n, es[n].block.prev)
  {
    LoadedExactly(root, es, n);
    IndexOfHas(es, n, es[n].block.id);
    IndexOfHas(es, n, es[n].block.prev);
  }

  lemma EntryAt(db: Db, es: seq<Entry>, n: nat)
    requires Tree(db) && Lists(db.index, db.valid, es) && n < |es|
    ensures EntryOf(db.index, db.valid, es[n]) && Known(db, es[n].block.prev)
    ensures db.root.id !in db.index
  {
    assert EntryOf(db.index, db.valid, es[n]);
  }

  lemma EntryFor(db: Db, es: seq<Entry>, x: Id) returns (n: nat)
    requires Lists(db.index, db.valid, es) && x in db.index
    ensures n < |es| && es[n].block == db.index[x]
  {
    assert HasId(es, |es|, x);
    n :| 0 <= n < |es| && es[n].block.id == x;
    assert EntryOf(db.index, db.valid, es[n]);
  }

  lemma LoadNone(root: Block, es: seq<Entry>)
    ensures LoadEntries(root, es, 0).Ok?
  {
  }

  /** If numbers never drop, a parent is written before its children and every entry links. */
  lemma {:induction false} LoadsPrefix(db: Db, es: seq<Entry>, n: nat)
    requires Tree(db) && Lists(db.index, db.valid, es) && Ascending(es) && LibNeverDrops(db.index)
    requires n <= |es|
    ensures LoadEntries(db.root, es, n).Ok?
  {
    hide Lists, Ascending, LoadEntries, HasId, Tree;
    if n == 0 {
      LoadNone(db.root, es);
    } else {
      LoadsPrefix(db, es, n - 1);
      var b := es[n-1].block;
      EntryAt(db, es, n - 1);
      FreshId(db.index, db.valid, es, n - 1);
      if b.prev in db.index { ParentPosition(db, es, n - 1); }
      LoadStep(db.root, es, n - 1);
    }
  }

  /** If a number drops, the child is written first and reading stops there. */
  lemma LoadFailsOnDrop(db: Db, es: seq<Entry>, x: Id)
    requires Tree(db) && Lists(db.index, db.valid, es) && Ascending(es)
    requires x in db.index && db.index[x].prev in db.index
    requires db.index[db.index[x].prev].lib > db.index[x].lib
    ensures LoadEntries(db.root, es, |es|).Err?
  {
    hide Lists, Ascending, LoadEntries, HasId, Tree;
    var i := EntryFor(db, es, x);
    EntryAt(db, es, i);
    ParentPosition(db, es, i);
    FreshId(db.index, db.valid, es, i);
    if LoadEntries(db.root, es, i).Ok? {
      LoadStep(db.root, es, i);
      LoadPrefixError(db.root, es, i + 1, |es|);
    } else {
      LoadPrefixError(db.root, es, i, |es|);
    }
  }

  /** Saving and reloading succeeds exactly when no block reports a lower irreversible number than
      its parent, and then gives back the same blocks, flags, root and head. */
  lemma SaveLoadRoundTrip(db: Db, f: File)
    requires Tree(db) && BestHead(db) && SavedAs(db, f)
    ensures Load(f).Ok? <==> LibNeverDrops(db.index)
    ensures Load(f).Ok? ==> Load(f).value == db
  {
    if LibNeverDrops(db.index) {
      LoadsPrefix(db, f.entries, |f.entries|);
      Rebuilt(db, f);
    } else {
      var x :| x in db.index && db.index[x].prev in db.index
               && !(db.index[db.index[x].prev].lib <= db.index[x].lib);
      LoadFailsOnDrop(db, f.entries, x);
    }
  }

  /** A child that reports a lower irreversible number than its parent is written first, and cannot be
      read back. */
  lemma SavedButNotLoaded() returns (db: Db, f: File)
    ensures Tree(db) && BestHead(db) && SavedAs(db, f) && Load(f).Err?
    ensures forall x | x in db.index :: db.index[x].lib <= x.num
  {
    var root := Block(Id(6, 0), Id(5, 0), 5);
    var a := Block(Id(7, 0), root.id, 5);
    var b := Block(Id(8, 0), a.id, 4);
    db := Db(map[a.id := a, b.id := b], {}, root, root);
    f := File(root, [Entry(b, false), Entry(a, false)], root.id);
    assert b.id in db.index && a.id in db.index && db.index[b.id] == b && db.index[a.id] == a;
    assert f.entries[0].block == b && f.entries[1].block == a;
    assert Lists(db.index, db.valid, f.entries) && Ascending(f.entries);
    hide Load, SavedAs, Lists, Ascending;
    SaveLoadRoundTrip(db, f);
  }

  lemma Rebuilt(db: Db, f: File)
    requires Tree(db) && BestHead(db) && SavedAs(db, f)
    requires LoadEntries(f.root, f.entries, |f.entries|).Ok?
    ensures Load(f) == Ok(db)
  {
    var got := LoadEntries(f.root, f.entries, |f.entries|).value;
    SameContents(db, f.entries);
    HeadRestored(got, db);
  }

  lemma HeadRestored(got: Db, db: Db)
    requires Tree(db) && BestHead(db)
    requires got.index == db.index && got.valid == db.valid && got.root == db.root
    ensures WithHead(got, db.head.id) == Ok(db)
  {
    if db.index != map[] {
      FirstIsBest(db.valid, db.index, First(db.valid, db.index));
    }
  }

  lemma SameContents(db: Db, es: seq<Entry>)
    requires Tree(db) && Lists(db.index, db.valid, es) && LoadEntries(db.root, es, |es|).Ok?
    ensures var got := LoadEntries(db.root, es, |es|).value;
            got.index == db.index && got.valid == db.valid && got.root == db.root
  {
    LoadedExactly(db.root, es, |es|);
    ListedContents(db, es);
  }

  lemma ListedContents(db: Db, es: seq<Entry>)
    requires Lists(db.index, db.valid, es) && db.valid <= db.index.Keys
    ensures IndexOf(es, |es|) == db.index && ValidOf(es, |es|) == db.valid
  {
    IndexOfListed(db.index, db.valid, es, |es|);
    forall x | x in db.index ensures x in IndexOf(es, |es|) { IndexOfHas(es, |es|, x); }
    hide Lists, IndexOf, ValidOf;
    assert IndexOf(es, |es|).Keys == db.index.Keys;
  }

  // ---------------------------------------------------------------- the merge that writes the file

  /** p lists the blocks with ids in `part`, each once, never a more preferred one first: one of the
      two reverse walks of the by_lib_block_num index. */
  ghost predicate Walk(index: map<Id, Block>, part: set<Id>, p: seq<Block>) {
    && (forall i | 0 <= i < |p| :: p[i].id in part && p[i].id in index && index[p[i].id] == p[i])
    && (forall i, j | 0 <= i < j < |p| :: p[i].id != p[j].id && !FirstPreferred(p[i], p[j]))
    && (forall x | x in part :: OnWalk(p, x))
  }

  ghost predicate OnWalk(p: seq<Block>, x: Id) { exists i :: 0 <= i < |p| && p[i].id == x }

  /** No block left to walk is preferred to one already taken. */
  ghost predicate NonePreferred(rest: map<Id, Block>, p: seq<Block>) {
    forall x, i | x in rest && 0 <= i < |p| :: !FirstPreferred(rest[x], p[i])
  }

  method WalkBack(index: map<Id, Block>, part: set<Id>) returns (p: seq<Block>)
    requires part <= index.Keys && IdsMatch(index)
    ensures Walk(index, part, p)
  {
    p := [];
    var rest := map x | x in index && x in part :: index[x];
    ghost var taken: set<Id> := {};
    while rest != map[]
      invariant taken + rest.Keys == part && taken !! rest.Keys
      invariant forall x | x in rest :: x in index && rest[x] == index[x]
      invariant Walk(index, taken, p)
      invariant NonePreferred(rest, p)
      decreases rest.Keys
    {
      var b := FrontOf({}, rest);
      WalkMore(index, taken, p, rest, b);
      p := [b] + p;
      taken := taken + {b.id};
      rest := rest - {b.id};
    }
  }

  lemma WalkMore(index: map<Id, Block>, taken: set<Id>, p: seq<Block>, rest: map<Id, Block>, b: Block)
    requires Walk(index, taken, p) && IsFirst({}, rest, b) && taken !! rest.Keys
    requires forall x | x in rest :: x in index && rest[x] == index[x]
    requires NonePreferred(rest, p)
    ensures Walk(index, taken + {b.id}, [b] + p) && NonePreferred(rest - {b.id}, [b] + p)
  {
    assert b.id in rest && rest[b.id] == b;
    hide IsFirst;
    var q := [b] + p;
    assert q[0] == b && forall i | 1 <= i < |q| :: q[i] == p[i-1];
    OnWalkMore(taken, p, b);
    RestBelow(rest, b, p);
    hide OnWalk, NonePreferred;
    forall i, j | 0 <= i < j < |q| ensures q[i].id != q[j].id && !FirstPreferred(q[i], q[j]) {
      assert q[j] == p[j-1] && p[j-1].id in taken;
      if i == 0 { RestAt(rest, p, b.id, j - 1); }
    }
  }

  lemma OnWalkMore(taken: set<Id>, p: seq<Block>, b: Block)
    requires forall x | x in taken :: OnWalk(p, x)
    ensures forall x | x in taken + {b.id} :: OnWalk([b] + p, x)
  {
    var q := [b] + p;
    forall x | x in taken + {b.id} ensures OnWalk(q, x) {
      if x == b.id {
        assert q[0].id == x;
      } else {
        assert OnWalk(p, x);
        var i :| 0 <= i < |p| && p[i].id == x;
        assert q[i+1].id == x;
      }
    }
  }

  lemma RestAt(rest: map<Id, Block>, p: seq<Block>, x: Id, i: nat)
    requires NonePreferred(rest, p) && x in rest && i < |p|
    ensures !FirstPreferred(rest[x], p[i])
  {
  }

  lemma RestBelow(rest: map<Id, Block>, b: Block, p: seq<Block>)
    requires IsFirst({}, rest, b) && NonePreferred(rest, p)
    ensures NonePreferred(rest - {b.id}, [b] + p)
  {
    var q := [b] + p;
    forall x, i | x in rest - {b.id} && 0 <= i < |q| ensures !FirstPreferred(rest[x], q[i]) {
      if i == 0 { assert Before({}, b, rest[x]); } else { assert q[i] == p[i-1]; }
    }
  }

  /** The entries written so far. */
  ghost predicate Written(db: Db, es: seq<Entry>) {
    && Ascending(es)
    && (forall i | 0 <= i < |es| :: EntryOf(db.index, db.valid, es[i]))
    && (forall i, j | 0 <= i < j < |es| :: es[i].block.id != es[j].block.id)
  }

  /** Nothing written so far is in walk p from position k on, or preferred to a block there. */
  ghost predicate Ahead(es: seq<Entry>, p: seq<Block>, k: nat) {
    forall i, j | 0 <= i < |es| && k <= j < |p| ::
      es[i].block.id != p[j].id && !FirstPreferred(es[i].block, p[j])
  }

  /** The first k blocks of walk p have been written. */
  ghost predicate Behind(es: seq<Entry>, p: seq<Block>, k: nat) {
    k <= |p| && forall j | 0 <= j < k :: HasId(es, |es|, p[j].id)
  }

  ghost predicate Merging(db: Db, us: seq<Block>, vs: seq<Block>, u: nat, v: nat, es: seq<Entry>) {
    Written(db, es) && Ahead(es, us, u) && Ahead(es, vs, v) && Behind(es, us, u) && Behind(es, vs, v)
  }

  lemma WrittenMore(db: Db, es: seq<Entry>, e: Entry, p: seq<Block>, k: nat)
    requires Written(db, es) && EntryOf(db.index, db.valid, e)
    requires Ahead(es, p, k) && k < |p| && p[k] == e.block
    ensures Written(db, es + [e])
  {
    var es' := es + [e];
    assert forall i | 0 <= i < |es| :: es'[i] == es[i];
  }

  lemma AheadMore(es: seq<Entry>, p: seq<Block>, k: nat, e: Entry)
    requires Ahead(es, p, k)
    requires forall j | k <= j < |p| :: e.block.id != p[j].id && !FirstPreferred(e.block, p[j])
    ensures Ahead(es + [e], p, k)
  {
    var es' := es + [e];
    assert forall i | 0 <= i < |es| :: es'[i] == es[i];
  }

  lemma BehindMore(es: seq<Entry>, p: seq<Block>, k: nat, e: Entry)
    requires Behind(es, p, k)
    ensures Behind(es + [e], p, k)
    ensures k < |p| && p[k] == e.block ==> Behind(es + [e], p, k + 1)
  {
    var es' := es + [e];
    assert es'[|es|] == e;
    forall j | 0 <= j < k ensures HasId(es', |es'|, p[j].id) {
      assert HasId(es, |es|, p[j].id);
      var i :| 0 <= i < |es| && es[i].block.id == p[j].id;
      assert es'[i].block.id == p[j].id;
    }
  }

  /** Writing the front of walk p when it is not preferred to the front of walk q. */
  lemma MergeStep(db: Db, partP: set<Id>, p: seq<Block>, k: nat, partQ: set<Id>, q: seq<Block>, l: nat,
                  es: seq<Entry>, e: Entry)
    requires Walk(db.index, partP, p) && Walk(db.index, partQ, q) && partP !! partQ
    requires Written(db, es) && Ahead(es, p, k) && Ahead(es, q, l) && Behind(es, p, k) && Behind(es, q, l)
    requires k < |p| && e.block == p[k] && EntryOf(db.index, db.valid, e)
    requires l < |q| ==> !FirstPreferred(p[k], q[l])
    ensures Written(db, es + [e]) && Ahead(es + [e], p, k + 1) && Ahead(es + [e], q, l)
    ensures Behind(es + [e], p, k + 1) && Behind(es + [e], q, l)
  {
    WrittenMore(db, es, e, p, k);
    AheadMore(es, p, k + 1, e);
    BehindMore(es, p, k, e);
    BehindMore(es, q, l, e);
    forall j | l <= j < |q| ensures e.block.id != q[j].id && !FirstPreferred(e.block, q[j]) {
      assert p[k].id in partP && q[j].id in partQ;
      if j > l { assert !FirstPreferred(q[l], q[j]); }
    }
    AheadMore(es, q, l, e);
  }

  /** fork_database::close. */
  method Close(fork: ForkDatabase) returns (f: File)
    requires fork.Valid()
    modifies fork
    ensures SavedAs(old(fork.View()), f)
    ensures fork.index == map[]
  {
    ghost var db := fork.View();
    var us := WalkBack(fork.index, fork.index.Keys - fork.valid);
    var vs := WalkBack(fork.index, fork.valid);
    var u, v, es := 0, 0, [];
    while u < |us| || v < |vs|
      invariant fork.View() == db && Merging(db, us, vs, u, v, es)
      decreases |us| - u + |vs| - v
    {
      if u < |us| && (v < |vs| ==> FirstPreferred(vs[v], us[u])) {
        MergeStep(db, db.index.Keys - db.valid, us, u, db.valid, vs, v, es, Entry(us[u], false));
        es := es + [Entry(us[u], false)];
        u := u + 1;
      } else {
        MergeStep(db, db.valid, vs, v, db.index.Keys - db.valid, us, u, es, Entry(vs[v], true));
        es := es + [Entry(vs[v], true)];
        v := v + 1;
      }
    }
    MergeDone(db, us, vs, es);
    f := File(fork.root, es, fork.head.id);
    fork.index := map[];
  }

  lemma MergeDone(db: Db, us: seq<Block>, vs: seq<Block>, es: seq<Entry>)
    requires Walk(db.index, db.index.Keys - db.valid, us) && Walk(db.index, db.valid, vs)
    requires Merging(db, us, vs, |us|, |vs|, es)
    ensures Lists(db.index, db.valid, es) && Ascending(es)
  {
    forall x | x in db.index ensures HasId(es, |es|, x) {
      if x in db.valid {
        assert OnWalk(vs, x);
        var j :| 0 <= j < |vs| && vs[j].id == x;
        assert HasId(es, |es|, vs[j].id);
      } else {
        assert x in db.index.Keys - db.valid;
        assert OnWalk(us, x);
        var j :| 0 <= j < |us| && us[j].id == x;
        assert HasId(es, |es|, us[j].id);
      }
    }
  }

  /** fork_database::open. */
  method Open(f: File) returns (r: Result<ForkDatabase>)
    requires forall i | 0 <= i < |f.entries| :: Numbered(f.entries[i].block)
    ensures match Load(f)
            case Ok(db) => r.Ok? && fresh(r.value) && r.value.View() == db
            case Err(e) => r == Err(e)
  {
    var fork := new ForkDatabase(f.root);
    hide Tree, BestHead, WithHead, First, Insert;
    for i := 0 to |f.entries|
      invariant fork.Valid() && LoadEntries(f.root, f.entries, i).Ok?
      invariant fork.View() == LoadEntries(f.root, f.entries, i).value
      invariant fresh(fork)
    {
      var e := f.entries[i];
      var added := fork.Add(e.block, e.validated, false);
      if added.Failed? {
        LoadPrefixError(f.root, f.entries, i + 1, |f.entries|);
        return Err(added.error);
      }
    }
    var refused := RestoreHead(fork, f.headId);
    return match refused case Done => Ok(fork) case Failed(e) => Err(e);
  }

  method RestoreHead(fork: ForkDatabase, headId: Id) returns (r: Outcome)
    requires IdsMatch(fork.index)
    modifies fork
    ensures match WithHead(old(fork.View()), headId)
            case Ok(db) => r == Done && fork.View() == db
            case Err(e) => r == Failed(e)
  {
    if headId == fork.root.id {
      fork.head := fork.root;
    } else if headId in fork.index {
      fork.head := fork.index[headId];
    } else {
      return Failed(HeadNotFound);
    }
    if fork.index == map[] {
      return if fork.head.id == fork.root.id then Done else Failed(HeadNotRoot);
    }
    var candidate := FrontOf(fork.valid, fork.index);
    FirstUnique(fork.valid, fork.index, candidate, First(fork.valid, fork.index));
    if candidate.id !in fork.valid {
      return if fork.head.id == fork.root.id then Done else Failed(HeadNotRoot);
    }
    return if FirstPreferred(candidate, fork.head) then Failed(HeadNotBest) else Done;
  }

  lemma {:induction false} LoadPrefixError(root: Block, es: seq<Entry>, i: nat, n: nat)
    requires i <= n <= |es| && LoadEntries(root, es, i).Err?
    ensures LoadEntries(root, es, n) == LoadEntries(root, es, i)
  {
    if i < n { LoadPrefixError(root, es, i, n - 1); }
  }
}
