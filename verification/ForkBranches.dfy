/** Branches of the fork tree: chains of parent links and nearest common ancestors. */
module ForkBranches {
  import opened ForkDb

  /** p lists the blocks from x down, each the parent of the one before, ending just above z. */
  ghost predicate IsChain(index: map<Id, Block>, x: Id, p: seq<Block>, z: Id) {
    && (forall k | 0 <= k < |p| :: p[k].id in index && index[p[k].id] == p[k] && Numbered(p[k]))
    && (p != [] ==> p[0].id == x)
    && (forall k | 0 < k < |p| :: p[k].id == p[k-1].prev)
    && z == (if p == [] then x else p[|p|-1].prev)
  }

  ghost predicate Disjoint(p: seq<Block>, q: seq<Block>) {
    forall k, l | 0 <= k < |p| && 0 <= l < |q| :: p[k].id != q[l].id
  }

  /** z is an ancestor of both (or one of them), and every other such block lies above z. */
  ghost predicate NearestCommonAncestor(index: map<Id, Block>, x: Id, y: Id, z: Id) {
    && Under(index, x, z) && Under(index, y, z)
    && forall w | Under(index, x, w) && Under(index, y, w) :: Under(index, z, w)
  }

  /** What fetch_branch_from returns for x and y. */
  ghost predicate Branches(index: map<Id, Block>, x: Id, y: Id, p: seq<Block>, q: seq<Block>) {
    exists z :: IsChain(index, x, p, z) && IsChain(index, y, q, z) && Disjoint(p, q)
                && NearestCommonAncestor(index, x, y, z)
  }

  lemma {:induction false} ChainTail(index: map<Id, Block>, x: Id, p: seq<Block>, z: Id)
    requires IsChain(index, x, p, z) && p != []
    ensures IsChain(index, p[0].prev, p[1..], z)
  {
  }

  lemma ChainExtend(index: map<Id, Block>, x: Id, p: seq<Block>, b: Block)
    requires IsChain(index, x, p, b.id) && b.id in index && index[b.id] == b && Numbered(b)
    ensures IsChain(index, x, p + [b], b.prev)
  {
  }

  lemma {:induction false} ChainUnder(index: map<Id, Block>, x: Id, p: seq<Block>, z: Id)
    requires IsChain(index, x, p, z)
    ensures Under(index, x, z) && x.num == z.num + |p|
    decreases |p|
  {
    if p != [] {
      ChainTail(index, x, p, z);
      ChainUnder(index, p[0].prev, p[1..], z);
    }
  }

  lemma {:induction false} ChainNumbers(index: map<Id, Block>, x: Id, p: seq<Block>, z: Id, k: nat)
    requires IsChain(index, x, p, z) && k < |p|
    ensures p[k].id.num == x.num - k
  {
    if k > 0 { ChainNumbers(index, x, p, z, k - 1); }
  }

  /** An ancestor of x is on the chain or above its end. */
  lemma {:induction false} OnChainOrAbove(index: map<Id, Block>, x: Id, p: seq<Block>, z: Id, w: Id)
    requires IsChain(index, x, p, z) && Under(index, x, w)
    ensures (exists k :: 0 <= k < |p| && p[k].id == w) || Under(index, z, w)
    decreases |p|
  {
    if p != [] {
      if x == w {
        assert p[0].id == w;
      } else {
        ChainTail(index, x, p, z);
        OnChainOrAbove(index, p[0].prev, p[1..], z, w);
        if !Under(index, z, w) {
          var k :| 0 <= k < |p[1..]| && p[1..][k].id == w;
          assert p[k+1].id == w;
        }
      }
    }
  }

  /** Two chains to the same block that share a block share everything below it. */
  lemma {:induction false} ChainsMerge(
      index: map<Id, Block>, x: Id, p: seq<Block>, y: Id, q: seq<Block>, z: Id, k: nat, l: nat)
    requires IsChain(index, x, p, z) && IsChain(index, y, q, z)
    requires k < |p| && l < |q| && p[k].id == q[l].id
    ensures p[|p|-1] == q[|q|-1]
    decreases |p| - k
  {
    ChainUnder(index, x, p, z);
    ChainUnder(index, y, q, z);
    ChainNumbers(index, x, p, z, k);
    ChainNumbers(index, y, q, z, l);
    if k + 1 < |p| {
      assert p[k+1].id == p[k].prev == q[l].prev == q[l+1].id;
      ChainsMerge(index, x, p, y, q, z, k + 1, l + 1);
    }
  }

  /** Two chains that end at the same block from different children make up the branches. */
  lemma BranchesFork(index: map<Id, Block>, x: Id, y: Id, p: seq<Block>, q: seq<Block>, z: Id)
    requires IsChain(index, x, p, z) && IsChain(index, y, q, z)
    requires p == [] || q == [] || p[|p|-1] != q[|q|-1]
    ensures Branches(index, x, y, p, q)
  {
    ChainUnder(index, x, p, z);
    ChainUnder(index, y, q, z);
    forall k, l | 0 <= k < |p| && 0 <= l < |q| ensures p[k].id != q[l].id {
      if p[k].id == q[l].id { ChainsMerge(index, x, p, y, q, z, k, l); }
    }
    forall w | Under(index, x, w) && Under(index, y, w) ensures Under(index, z, w) {
      OnChainOrAbove(index, x, p, z, w);
      OnChainOrAbove(index, y, q, z, w);
    }
  }

  // ---------------------------------------------------------------- paths to the root

  /** The blocks from x towards the root, as far as the index reaches. */
  ghost function Path(index: map<Id, Block>, x: Id): (p: seq<Block>)
    decreases x.num
  {
    if x in index && index[x].prev.num < x.num then [index[x]] + Path(index, index[x].prev) else []
  }

  /** The blocks of p numbered at most top, in order. */
  ghost function UpTo(p: seq<Block>, top: nat): (r: seq<Block>) {
    if p == [] then []
    else (if p[0].id.num <= top then [p[0]] else []) + UpTo(p[1..], top)
  }

  lemma {:induction false} PathIsChain(db: Db, x: Id)
    requires Tree(db) && Known(db, x)
    ensures IsChain(db.index, x, Path(db.index, x), db.root.id)
    decreases x.num
  {
    if x != db.root.id {
      var b := db.index[x];
      PathIsChain(db, b.prev);
      var rest := Path(db.index, b.prev);
      assert Path(db.index, x) == [b] + rest;
    }
  }

  /** Trimming a path leaves its older end. */
  lemma {:induction false} UpToIsSuffix(index: map<Id, Block>, x: Id, p: seq<Block>, z: Id, top: nat)
    requires IsChain(index, x, p, z)
    ensures x.num == z.num + |p|
    ensures UpTo(p, top) == if x.num <= top then p else if top <= z.num then [] else p[x.num - top..]
    decreases |p|
  {
    ChainUnder(index, x, p, z);
    if p != [] {
      ChainTail(index, x, p, z);
      UpToIsSuffix(index, p[0].prev, p[1..], z, top);
      assert p == [p[0]] + p[1..];
    }
  }
}
