/** The algorithms on chains and trees of blocks (lib/src/fs/block_util.cc). Ghost trees say what the
  * blocks at hand denote; they also bound the recursion. */
module BlockUtil {
  import opened Blocks
  import opened BlockTree
  import opened FileLayout
  import opened BlockManager

  // ----- reading

  function Concat(pieces: seq<seq<Byte>>): seq<Byte> {
    if pieces == [] then [] else pieces[0] + Concat(pieces[1..])
  }

  lemma {:induction false} ConcatSnoc(pieces: seq<seq<Byte>>, piece: seq<Byte>)
    ensures Concat(pieces + [piece]) == Concat(pieces) + piece
  {
    if pieces == [] {
      assert pieces + [piece] == [piece] && [piece][1..] == [];
    } else {
      assert (pieces + [piece])[1..] == pieces[1..] + [piece];
      ConcatSnoc(pieces[1..], piece);
    }
  }

  lemma FlattenSnoc(ts: seq<Node>, k: nat)
    requires k < |ts|
    ensures Flatten(ts[..k + 1]) == Flatten(ts[..k]) + Bytes(ts[k])
  {
    hide Flatten, Bytes;
    assert ts[..k + 1] == ts[..k] + [ts[k]];
    FlattenConcat(ts[..k], [ts[k]]);
    FlattenOne(ts[k]);
  }

  /** Appends the contents blocks below `blocksToCheck`, depth first and left to right. */
  method GetFileContents(mgr: MemoryBlockManager, blocksToCheck: seq<BlockId>, fileBlocks: seq<seq<Byte>>,
                         ghost ts: seq<Node>)
    returns (result: seq<seq<Byte>>)
    requires blocksToCheck == RootIds(ts) && AllStored(mgr.blocks, ts)
    ensures Concat(result) == Concat(fileBlocks) + Flatten(ts)
    decreases ts
  {
    hide Stored, Flatten;
    StoredRoots(mgr.blocks, ts);
    var response := mgr.GetBlocks(blocksToCheck);
    result := fileBlocks;
    FlattenNothing();
    for k := 0 to |response|
      invariant Concat(result) == Concat(fileBlocks) + Flatten(ts[..k])
    {
      var data := response[k].data;
      FlattenSnoc(ts, k);
      assert response[k] == ts[k].ToBlock();
      if data.FileContents? {
        ConcatSnoc(result, data.data);
        result := result + [data.data];
      } else if data.Link? {
        KidsStored(mgr.blocks, ts[k]);
        assert ts[k] in ts;
        result := GetFileContents(mgr, data.children, result, ts[k].kids);
      }
    }
    assert ts[..|response|] == ts;
  }

  lemma StoredRoots(m: Store, ts: seq<Node>)
    requires AllStored(m, ts)
    ensures forall k :: 0 <= k < |ts| ==> ts[k].id in m && m[ts[k].id] == ts[k].ToBlock() && Stored(m, ts[k])
  {
    assert forall k :: 0 <= k < |ts| ==> ts[k] in ts;
  }

  lemma KidsStored(m: Store, t: Node)
    requires Stored(m, t)
    ensures AllStored(m, t.Kids())
  {
  }

  method ReadFileContents(mgr: MemoryBlockManager, fileInode: BlockData, ghost t: Node) returns (contents: seq<Byte>)
    requires t.Inode? && AllStored(mgr.blocks, t.kids) && fileInode == t.ToBlock().data
    requires !fileInode.stat.IsDir()
    ensures contents == Flatten(t.kids)
  {
    var fileBlocks := GetFileContents(mgr, fileInode.children, [], t.kids);
    contents := [];
    for k := 0 to |fileBlocks|
      invariant contents == Concat(fileBlocks[..k])
    {
      ConcatSnoc(fileBlocks[..k], fileBlocks[k]);
      assert fileBlocks[..k + 1] == fileBlocks[..k] + [fileBlocks[k]];
      contents := contents + fileBlocks[k];
    }
    assert fileBlocks[..|fileBlocks|] == fileBlocks;
  }

  // ----- freeing

  /** The ids strictly below the roots of some trees. */
  ghost function IdsBelow(ts: seq<Node>): multiset<BlockId> {
    if ts == [] then multiset{} else IdsAll(ts[0].Kids()) + IdsBelow(ts[1..])
  }

  lemma {:induction false} RootsAndBelow(ts: seq<Node>)
    ensures IdsAll(ts) == multiset(RootIds(ts)) + IdsBelow(ts)
  {
    if ts == [] {
      assert RootIds(ts) == [];
    } else {
      RootsAndBelow(ts[1..]);
      RootIdsCons(ts);
      IdsSplit(ts[0]);
      RegroupIds(multiset{ts[0].id}, IdsAll(ts[0].Kids()), multiset(RootIds(ts[1..])), IdsBelow(ts[1..]));
    }
  }

  lemma RootIdsCons(ts: seq<Node>)
    requires ts != []
    ensures multiset(RootIds(ts)) == multiset{ts[0].id} + multiset(RootIds(ts[1..]))
  {
    assert RootIds(ts) == [ts[0].id] + RootIds(ts[1..]);
  }

  lemma IdsSplit(t: Node)
    ensures Ids(t) == multiset{t.id} + IdsAll(t.Kids())
  {
    if t.Leaf? {
      assert t.Kids() == [];
    }
  }

  lemma RegroupIds(a: multiset<BlockId>, b: multiset<BlockId>, c: multiset<BlockId>, d: multiset<BlockId>)
    ensures (a + b) + (c + d) == (a + c) + (b + d)
  {
  }

  lemma {:induction false} BelowConcat(a: seq<Node>, b: seq<Node>)
    ensures IdsBelow(a + b) == IdsBelow(a) + IdsBelow(b)
  {
    hide IdsAll;
    if a == [] {
      assert a + b == b;
    } else {
      assert (a + b)[1..] == a[1..] + b;
      BelowConcat(a[1..], b);
    }
  }

  lemma BelowOne(t: Node)
    ensures IdsBelow([t]) == IdsAll(t.Kids())
  {
    hide IdsAll;
    assert [t][1..] == [];
  }

  lemma BelowSplit(ts: seq<Node>, k: nat)
    requires k < |ts|
    ensures IdsBelow(ts) == IdsBelow(ts[..k]) + IdsAll(ts[k].Kids()) + IdsBelow(ts[k + 1..])
    ensures IdsBelow(ts[..k + 1]) == IdsBelow(ts[..k]) + IdsAll(ts[k].Kids())
  {
    hide IdsAll, IdsBelow;
    assert ts == ts[..k + 1] + ts[k + 1..] && ts[..k + 1] == ts[..k] + [ts[k]];
    BelowConcat(ts[..k + 1], ts[k + 1..]);
    BelowConcat(ts[..k], [ts[k]]);
    BelowOne(ts[k]);
  }

  /** In a tree without sharing, what lies below one child survives the freeing of all children and of
    * everything below the earlier ones. */
  lemma KidsStillThere(m: Store, ts: seq<Node>, k: nat)
    requires k < |ts| && AllStored(m, ts) && Distinct(IdsAll(ts))
    ensures AllStored(Without(m, multiset(RootIds(ts)) + IdsBelow(ts[..k])), ts[k].Kids())
    ensures Distinct(IdsAll(ts[k].Kids()))
  {
    hide Stored, IdsAll, IdsBelow;
    var gone, below := multiset(RootIds(ts)) + IdsBelow(ts[..k]), IdsAll(ts[k].Kids());
    RootsAndBelow(ts);
    BelowSplit(ts, k);
    forall i | i in below
      ensures i !in gone && below[i] == 1
    {
      assert IdsAll(ts)[i] == multiset(RootIds(ts))[i] + IdsBelow(ts)[i];
    }
    assert ts[k] in ts;
    KidsStored(m, ts[k]);
    AllStoredFrame(m, Without(m, gone), ts[k].Kids());
  }

  method FreeIds(mgr: MemoryBlockManager, ids: seq<BlockId>)
    requires mgr.Valid()
    modifies mgr
    ensures mgr.Valid() && mgr.nextId == old(mgr.nextId)
    ensures mgr.blocks == Without(old(mgr.blocks), multiset(ids))
    ensures mgr.freed == old(mgr.freed) + multiset(ids)
  {
    hide Without, MemoryBlockManager.Valid;
    ghost var m := mgr.blocks;
    assert ids[..0] == [];
    WithoutNothing(m);
    for k := 0 to |ids|
      invariant mgr.Valid() && mgr.nextId == old(mgr.nextId)
      invariant mgr.blocks == Without(m, multiset(ids[..k]))
      invariant mgr.freed == old(mgr.freed) + multiset(ids[..k])
    {
      mgr.FreeBlock(ids[k]);
      WithoutTwice(m, multiset(ids[..k]), multiset{ids[k]});
      assert ids[..k + 1] == ids[..k] + [ids[k]];
    }
    assert ids[..|ids|] == ids;
  }

  /** Frees everything below a block, each id once. */
  method RecursiveFreeChildrenBlocks(mgr: MemoryBlockManager, block: Block, ghost t: Node)
    requires mgr.Valid() && block == t.ToBlock()
    requires AllStored(mgr.blocks, t.Kids()) && Distinct(IdsAll(t.Kids()))
    modifies mgr
    ensures mgr.Valid() && mgr.nextId == old(mgr.nextId)
    ensures mgr.blocks == Without(old(mgr.blocks), IdsAll(t.Kids()))
    ensures mgr.freed == old(mgr.freed) + IdsAll(t.Kids())
    decreases t
  {
    hide Stored, IdsAll, IdsBelow, Distinct, Without, MemoryBlockManager.Valid;
    ghost var kids := t.Kids();
    ghost var m := mgr.blocks;
    if block.data.FileContents? {
      NoIds();
      WithoutNothing(m);
      return;
    }
    var children := block.data.Children();
    assert children == RootIds(kids);
    StoredRoots(m, kids);
    var childBlocks := mgr.GetBlocks(children);
    FreeIds(mgr, children);
    ghost var roots := multiset(RootIds(kids));
    ghost var gone := roots;
    assert kids[..0] == [];
    NoIds();
    for k := 0 to |childBlocks|
      invariant mgr.Valid() && mgr.nextId == old(mgr.nextId)
      invariant gone == roots + IdsBelow(kids[..k])
      invariant mgr.blocks == Without(m, gone) && mgr.freed == old(mgr.freed) + gone
    {
      KidsStillThere(m, kids, k);
      assert kids[k] in kids;
      ghost var more := IdsAll(kids[k].Kids());
      RecursiveFreeChildrenBlocks(mgr, childBlocks[k], kids[k]);
      WithoutTwice(m, gone, more);
      BelowSplit(kids, k);
      SumAssoc(roots, IdsBelow(kids[..k]), more);
      SumAssoc(old(mgr.freed), gone, more);
      gone := gone + more;
    }
    assert kids[..|kids|] == kids;
    RootsAndBelow(kids);
  }

  lemma SumAssoc(a: multiset<BlockId>, b: multiset<BlockId>, c: multiset<BlockId>)
    ensures a + b + c == a + (b + c)
  {
  }

  lemma WithoutNothing(m: Store)
    ensures Without(m, multiset{}) == m
  {
  }

  lemma NoIds()
    ensures IdsAll([]) == multiset{} && IdsBelow([]) == multiset{}
  {
  }

  // ----- replacing a chain

  function IndexOf(s: seq<BlockId>, x: BlockId): (i: nat)
    ensures i <= |s|
    ensures i < |s| ==> s[i] == x
    ensures forall k :: 0 <= k < i ==> s[k] != x
  {
    if s == [] || s[0] == x then 0 else 1 + IndexOf(s[1..], x)
  }

  /** Whether each id of `ids`, in turn, is still among the rest of `s`. */
  predicate CanRemove(s: seq<BlockId>, ids: seq<BlockId>) {
    ids == [] || (IndexOf(s, ids[0]) < |s| && CanRemove(RemoveAt(s, IndexOf(s, ids[0])), ids[1..]))
  }

  function Removed(s: seq<BlockId>, ids: seq<BlockId>): seq<BlockId>
    requires CanRemove(s, ids)
    decreases |ids|
  {
    if ids == [] then s else Removed(RemoveAt(s, IndexOf(s, ids[0])), ids[1..])
  }

  /** The assertion that each id is found holds because of `CanRemove`. */
  method RemoveIds(toRemoveFrom: seq<BlockId>, toRemove: seq<BlockId>) returns (rest: seq<BlockId>)
    requires CanRemove(toRemoveFrom, toRemove)
    ensures rest == Removed(toRemoveFrom, toRemove)
  {
    rest := toRemoveFrom;
    for k := 0 to |toRemove|
      invariant CanRemove(rest, toRemove[k..])
      invariant Removed(rest, toRemove[k..]) == Removed(toRemoveFrom, toRemove)
    {
      var i := IndexOf(rest, toRemove[k]);
      assert toRemove[k..][0] == toRemove[k] && toRemove[k..][1..] == toRemove[k + 1..];
      assert i < |rest|;
      rest := RemoveAt(rest, i);
    }
  }

  lemma RemoveNothing(s: seq<BlockId>)
    ensures CanRemove(s, []) && Removed(s, []) == s
  {
  }

  lemma {:induction false} RemoveEverything(s: seq<BlockId>)
    ensures CanRemove(s, s) && Removed(s, s) == []
  {
    if s != [] {
      RemoveEverything(s[1..]);
      assert RemoveAt(s, 0) == s[1..];
    }
  }

  lemma RemoveChild(ts: seq<Node>, i: nat)
    requires i < |ts| && Distinct(IdsAll(ts))
    ensures CanRemove(RootIds(ts), [ts[i].id])
    ensures Removed(RootIds(ts), [ts[i].id]) == RootIds(RemoveAt(ts, i))
  {
    hide IdsAll, IdsBelow, CanRemove, Removed, IndexOf;
    var ids := RootIds(ts);
    var j := IndexOf(ids, ts[i].id);
    assert ids[i] == ts[i].id && j <= i;
    if j < i {
      TwoRoots(ts, j, i);
      assert false;
    }
    RemoveOneAt(ids, i);
    assert RemoveAt(ids, i) == RootIds(RemoveAt(ts, i));
  }

  lemma TwoRoots(ts: seq<Node>, j: nat, i: nat)
    requires j < i < |ts| && Distinct(IdsAll(ts))
    ensures ts[j].id != ts[i].id
  {
    hide IdsAll;
    IdsOfTwo(ts, j, i);
    var both := Ids(ts[j]) + Ids(ts[i]);
    assert ts[j].id in Ids(ts[j]) && ts[i].id in Ids(ts[i]);
    assert both[ts[j].id] == Ids(ts[j])[ts[j].id] + Ids(ts[i])[ts[j].id];
    assert both[ts[j].id] <= IdsAll(ts)[ts[j].id];
  }

  lemma RemoveOneAt(s: seq<BlockId>, i: nat)
    requires i < |s| && IndexOf(s, s[i]) == i
    ensures CanRemove(s, [s[i]]) && Removed(s, [s[i]]) == RemoveAt(s, i)
  {
    RemoveNothing(RemoveAt(s, i));
    assert [s[i]][1..] == [];
  }

  lemma StoredGrew(m: Store, m': Store, lo: BlockId, hi: BlockId, t: Node)
    requires Stored(m, t) && Grew(m, m', lo, hi)
    ensures Stored(m', t)
  {
    StoredFrame(m, m', t);
  }

  /** The children of a chain's blocks that are not on the chain are stored. */
  ghost predicate SideStored(m: Store, t: Node, path: seq<nat>)
    requires IsPath(t, path)
  {
    forall k, j | 0 <= k < |path| && 0 <= j < |Chain(t, path)[k].Kids()| && j != path[k] ::
      Stored(m, Chain(t, path)[k].Kids()[j])
  }

  /** No block of a chain lists a child twice. */
  ghost predicate ChainDistinct(t: Node, path: seq<nat>)
    requires IsPath(t, path)
  {
    forall k | 0 <= k < |path| :: Distinct(IdsAll(Chain(t, path)[k].Kids()))
  }

  /** A new block over already stored subtrees is a stored tree. */
  lemma NewBlockStored(m: Store, m': Store, g: Node, lo: BlockId, hi: BlockId)
    requires AllStored(m, g.Kids()) && Grew(m, m', lo, hi)
    requires g.id in m' && m'[g.id] == g.ToBlock()
    ensures Stored(m', g)
  {
    forall k | k in g.Kids()
      ensures Stored(m', k)
    {
      StoredGrew(m, m', lo, hi, k);
    }
  }

  lemma SideKidsStored(m0: Store, m: Store, lo: BlockId, mid: BlockId, t: Node, path: seq<nat>, k: nat, g: Node)
    requires IsPath(t, path) && k < |path| && SideStored(m0, t, path) && Grew(m0, m, lo, mid) && Stored(m, g)
    ensures AllStored(m, RemoveAt(Chain(t, path)[k].Kids(), path[k]) + [g])
  {
    hide Stored, Grew, Chain, IsPath;
    var kids := Chain(t, path)[k].Kids();
    var kids' := RemoveAt(kids, path[k]) + [g];
    forall x | x in kids'
      ensures Stored(m, x)
    {
      var j :| 0 <= j < |kids'| && kids'[j] == x;
      if j < |kids| - 1 {
        StoredGrew(m0, m, lo, mid, kids[if j < path[k] then j else j + 1]);
      }
    }
  }

  /** Replaces a chain of blocks, end first. The last block of `chain` has the children of the old end,
    * of which `childrenToRemove` go and to which `childrenToAdd` come, as `n` says. */
  method ReplaceChain(mgr: MemoryBlockManager, chain: seq<Block>, childrenToRemove: seq<BlockId>,
                      childrenToAdd: seq<BlockId>, ghost t: Node, ghost path: seq<nat>, ghost n: Node)
    returns (newRoot: Block)
    requires mgr.Valid() && IsPath(t, path)
    requires SideStored(mgr.blocks, t, path) && ChainDistinct(t, path)
    requires |chain| == |path| + 1 && chain[|path|].id == At(t, path).id
    requires forall k :: 0 <= k < |path| ==> chain[k] == Chain(t, path)[k].ToBlock()
    requires !chain[|path|].data.FileContents? && CanRemove(chain[|path|].data.Children(), childrenToRemove)
    requires n.ToBlock() == Block(mgr.nextId, chain[|path|].data.WithChildren(
               Removed(chain[|path|].data.Children(), childrenToRemove) + childrenToAdd))
    requires AllStored(mgr.blocks, n.Kids())
    modifies mgr
    ensures mgr.Valid() && mgr.nextId == old(mgr.nextId) + |chain| && mgr.freed == old(mgr.freed)
    ensures Grew(old(mgr.blocks), mgr.blocks, old(mgr.nextId), mgr.nextId)
    ensures newRoot == Graft(t, path, n).ToBlock() && Stored(mgr.blocks, Graft(t, path, n))
  {
    hide Stored, Grew, Chain, IsPath, At, SideStored, ChainDistinct, GraftFrom, Graft, CanRemove, Removed,
      MemoryBlockManager.Valid;
    ghost var m, lo := mgr.blocks, mgr.nextId;
    var last := childrenToRemove;
    var lastReplaced: Option<Block> := None;
    GrewNothing(m, lo);
    GraftFromEnds(t, path, n);
    var k := |chain|;
    while k > 0
      invariant 0 <= k <= |chain| && mgr.Valid() && mgr.freed == old(mgr.freed)
      invariant mgr.nextId == lo + (|chain| - k) && Grew(m, mgr.blocks, lo, mgr.nextId)
      invariant k == |chain| ==> lastReplaced == None && last == childrenToRemove && mgr.blocks == m
      invariant k < |chain| ==> last == [Chain(t, path)[k].id]
      invariant k < |chain| ==> lastReplaced == Some(GraftFrom(t, path, n, k).ToBlock())
      invariant k < |chain| ==> GraftFrom(t, path, n, k).id + 1 == mgr.nextId
      invariant k < |chain| ==> Stored(mgr.blocks, GraftFrom(t, path, n, k))
    {
      k := k - 1;
      var block := chain[k];
      var children := block.data.Children();
      ghost var g := GraftFrom(t, path, n, k);
      if k < |path| {
        ChainStep(mgr.blocks, m, lo, mgr.nextId, t, path, n, k);
      }
      children := RemoveIds(children, last);
      last := [block.id];
      if lastReplaced.Some? {
        children := children + [lastReplaced.value.id];
      } else {
        children := children + childrenToAdd;
      }
      ghost var before, mid := mgr.blocks, mgr.nextId;
      var newBlock := mgr.CreateBlock(block.data.WithChildren(children));
      assert newBlock == g.ToBlock();
      NewBlockStored(before, mgr.blocks, g, mid, mgr.nextId);
      GrewMore(m, before, mgr.blocks, lo, mid, mgr.nextId);
      lastReplaced := Some(newBlock);
    }
    newRoot := lastReplaced.value;
  }

  lemma GrewNothing(m: Store, lo: BlockId)
    ensures Grew(m, m, lo, lo)
  {
  }

  /** One step of `ReplaceChain` above the end of the chain. */
  lemma ChainStep(m: Store, m0: Store, lo: BlockId, mid: BlockId, t: Node, path: seq<nat>, n: Node, k: nat)
    requires IsPath(t, path) && k < |path| && SideStored(m0, t, path) && ChainDistinct(t, path)
    requires Grew(m0, m, lo, mid) && Stored(m, GraftFrom(t, path, n, k + 1))
    ensures var c, child := Chain(t, path)[k], Chain(t, path)[k + 1];
      var ids, g, up := c.ToBlock().data.Children(), GraftFrom(t, path, n, k + 1), GraftFrom(t, path, n, k);
      && !c.Leaf? && !c.ToBlock().data.FileContents?
      && CanRemove(ids, [child.id])
      && up.ToBlock() == Block(g.id + 1, c.ToBlock().data.WithChildren(Removed(ids, [child.id]) + [g.id]))
      && AllStored(m, up.Kids())
  {
    hide Stored, Grew, Chain, IsPath, GraftFrom, CanRemove, Removed, IdsAll;
    var c, child := Chain(t, path)[k], Chain(t, path)[k + 1];
    var g := GraftFrom(t, path, n, k + 1);
    GraftFromStep(t, path, n, k);
    assert Distinct(IdsAll(c.Kids()));
    RemoveChild(c.kids, path[k]);
    SideKidsStored(m0, m, lo, mid, t, path, k, g);
    assert RootIds(RemoveAt(c.kids, path[k]) + [g]) == RootIds(RemoveAt(c.kids, path[k])) + [g.id];
  }
}
