/** Inputs on which the controller leaves its own rules. In each of them a block reports a lower
    irreversible number than its parent. */
module ControllerCases {
  import opened Basics
  import opened ForkDb
  import opened ForkTree
  import opened ForkBranches
  import opened ForkLead
  import opened ForkDatabaseClass
  import opened ChainState
  import opened ControllerClass

  const ROOT := Block(Id(5, 0), Id(4, 0), 3)
  const DROPPED := Block(Id(6, 0), ROOT.id, 2)
  const ABOVE := Block(Id(7, 0), DROPPED.id, 3)
  const RIVAL := Block(Id(6, 1), ROOT.id, 1)

  function FailsAtSix(b: Block, s: int): Option<int> { if b.id.num == 6 then None else Some(s) }

  function Applies(b: Block, s: int): Option<int> { Some(s) }

  lemma FirstOf(valid: set<Id>, index: map<Id, Block>, b: Block)
    requires IsFirst(valid, index, b) && forall x | x in index :: index[x].id == x
    ensures First(valid, index) == b
  {
    FirstUnique(valid, index, b, First(valid, index));
  }

  /** The first push leaves the head at the root, with the new block waiting. */
  lemma DroppedWaits()
    ensures !FirstPreferred(DROPPED, ROOT) && PendingHead(Insert(Reset(ROOT), DROPPED, false)) == ROOT
    ensures Insert(Reset(ROOT), DROPPED, false) == Db(map[DROPPED.id := DROPPED], {}, ROOT, ROOT)
  {
    var index := map[DROPPED.id := DROPPED];
    assert Reset(ROOT).index[DROPPED.id := DROPPED] == index && index - {} == index;
    FirstOf({}, index, DROPPED);
  }

  const WAITING := Db(map[DROPPED.id := DROPPED], {}, ROOT, ROOT)

  lemma FirstPush(start: int, was: Position<int>, log: seq<Block>, r: SwitchResult, now: Db, c: Position<int>, log': seq<Block>)
    requires PushOutcome(FailsAtSix, start, WAITING, was, log, r, now, c, log')
    ensures r.Switched? && c.head == now.head == now.root == ROOT && now.index == WAITING.index
  {
    hide BestHead, First, PendingHead, Kept;
    DroppedWaits();
    assert Tree(WAITING);
    KeptAtRoot(WAITING);
  }

  lemma StillWaiting(start: int, now: Db, c: Position<int>)
    requires Tree(now) && InSync(FailsAtSix, now, start, c)
    requires now.head == now.root == ROOT && now.index == WAITING.index
    ensures now == WAITING
  {
    hide UndoMatches, ReversibleMatches;
    assert StateOf(FailsAtSix, now.index, ROOT.id, start, DROPPED.id).None?;
    assert now.valid == {};
  }

  lemma SecondPush(start: int, was: Position<int>, log: seq<Block>, r: SwitchResult, now: Db, c: Position<int>, log': seq<Block>)
    requires was.head == ROOT
    requires PushOutcome(FailsAtSix, start, Insert(WAITING, ABOVE, false), was, log, r, now, c, log')
    ensures r.Undefined?
  {
    hide Subtree, Kept, StateOf, Under, Insert;
    var db := Insert(WAITING, ABOVE, false);
    BestAbove(db);
    NoStateAbove(db.index, start);
  }

  lemma BestAbove(db: Db)
    requires db == Insert(WAITING, ABOVE, false)
    ensures db.index == map[DROPPED.id := DROPPED, ABOVE.id := ABOVE] && db.root == ROOT && PendingHead(db) == ABOVE
  {
    assert db.index == map[DROPPED.id := DROPPED, ABOVE.id := ABOVE] && db.root == ROOT;
    hide Under, First, PendingHead;
    AddKeeps(WAITING, ABOVE, false, false);
    PendingOnTree(db);
    assert ABOVE.id in db.index && db.index[ABOVE.id] == ABOVE && !FirstPreferred(ABOVE, PendingHead(db));
  }

  lemma NoStateAbove(index: map<Id, Block>, start: int)
    requires index == map[DROPPED.id := DROPPED, ABOVE.id := ABOVE]
    ensures StateOf(FailsAtSix, index, ROOT.id, start, ABOVE.id).None? && Under(index, ABOVE.id, ROOT.id)
  {
    assert DROPPED.id in index && ABOVE.id in index;
    assert Under(index, ROOT.id, ROOT.id) && Under(index, DROPPED.id, ROOT.id);
    assert StateOf(FailsAtSix, index, ROOT.id, start, DROPPED.id).None?;
  }

  /** push_block with an undefined outcome: the block at number 6 does not apply, and the block above
      it makes the controller try. */
  method UndefinedSwitch() returns (first: PushResult, second: PushResult)
    ensures first == Handled(Switched) && second == Handled(Undefined)
  {
    hide Tree, BestHead, InSync, LogMatches, PushOutcome, LeadsTree, LibsRise, Blocks, Reset, Insert;
    var c := new Controller<int>(FailsAtSix, ROOT, 0, true);
    ghost var was, start, log := c.At(), c.start, c.log;
    AddsDropped();
    first := c.PushBlock(DROPPED);
    FirstPush(start, was, log, first.outcome, c.fork.View(), c.At(), c.log);
    StillWaiting(c.start, c.fork.View(), c.At());
    was, start, log := c.At(), c.start, c.log;
    AddsAbove();
    second := c.PushBlock(ABOVE);
    SecondPush(start, was, log, second.outcome, c.fork.View(), c.At(), c.log);
  }

  lemma AddsDropped()
    ensures Add(Reset(ROOT), DROPPED, false, false) == Ok(WAITING)
  {
    DroppedWaits();
  }

  lemma AddsAbove()
    ensures Add(WAITING, ABOVE, false, false) == Ok(Insert(WAITING, ABOVE, false))
  {
    hide Insert;
  }

  // ---------------------------------------------------------------- a produced block

  const MARKED := WAITING.(valid := {DROPPED.id})

  lemma NeitherBeats()
    ensures !Beats(Reset(ROOT), DROPPED) && !Beats(MARKED, RIVAL)
  {
    assert DROPPED.id in MARKED.valid && MARKED.index[DROPPED.id] == DROPPED;
  }

  lemma FirstCommit(now: Db)
    requires MarkValid(Insert(Reset(ROOT), DROPPED, false), DROPPED.id) == Ok(now)
    ensures now == MARKED
  {
    DroppedWaits();
    FirstOf({DROPPED.id}, WAITING.index, DROPPED);
  }

  lemma SecondCommit(now: Db)
    requires MarkValid(Insert(MARKED, RIVAL, false), RIVAL.id) == Ok(now)
    ensures now.head == DROPPED
  {
    var index := MARKED.index[RIVAL.id := RIVAL];
    assert index == map[DROPPED.id := DROPPED, RIVAL.id := RIVAL];
    FirstOf({DROPPED.id}, index, DROPPED);
    FirstOf({DROPPED.id} + {RIVAL.id}, index, DROPPED);
  }

  /** commit_block with a head that the state database does not stand on. */
  method HeadWithoutState() returns (c: Controller<int>, first: CommitResult, second: CommitResult)
    ensures first == NotHead && second == NotHead
    ensures c.head == DROPPED && c.revision == ROOT.id.num && !c.Valid()
  {
    hide Tree, BestHead, InSync, LogMatches, LeadsTree, LibsRise, Blocks, Insert, ForkDb.MarkValid, Beats;
    c := new Controller<int>(Applies, ROOT, 0, true);
    NeitherBeats();
    first := c.CommitBlock(DROPPED);
    FirstCommit(c.fork.View());
    SyncParts(c.exec, c.fork.View(), c.start, c.At());
    second := c.CommitBlock(RIVAL);
    SecondCommit(c.fork.View());
  }
}
