/** The search for an inode by name below a block: breadth first through links, then a walk back
  * (lib/src/fs/block_fuse.cc, `get_path_part`; lib/src/fs/block_util.cc, `find_path`). */
module PathSearch {
  import opened Blocks
  import opened BlockTree
  import opened BlockManager
  import opened BlockUtil

  type Retrieved = map<BlockId, Block>

  // ----- what the breadth-first search finds

  function NextLayer(ts: seq<Node>): seq<Node> {
    if ts == [] then [] else (if ts[0].LinkNode? then ts[0].kids else []) + NextLayer(ts[1..])
  }

  function Size(t: Node): nat
    decreases t, 1
  {
    1 + if t.Leaf? then 0 else SizeAll(t.kids)
  }

  function SizeAll(ts: seq<Node>): nat
    decreases ts, 0
  {
    if ts == [] then 0 else Size(ts[0]) + SizeAll(ts[1..])
  }

  lemma {:induction false} SizeConcat(a: seq<Node>, b: seq<Node>)
    ensures SizeAll(a + b) == SizeAll(a) + SizeAll(b)
  {
    if a == [] {
      assert a + b == b;
    } else {
      assert (a + b)[1..] == a[1..] + b;
      SizeConcat(a[1..], b);
    }
  }

  lemma {:induction false} NextLayerIsSmaller(ts: seq<Node>)
    ensures SizeAll(NextLayer(ts)) + |ts| <= SizeAll(ts)
  {
    if ts != [] {
      NextLayerIsSmaller(ts[1..]);
      SizeConcat(if ts[0].LinkNode? then ts[0].kids else [], NextLayer(ts[1..]));
    }
  }

  /** The first inode with a name, layer by layer. */
  function Search(ts: seq<Node>, name: string): (r: Option<Node>)
    decreases SizeAll(ts)
  {
    NextLayerIsSmaller(ts);
    if ts == [] then None
    else if ChildIndex(ts, name) < |ts| then Some(ts[ChildIndex(ts, name)])
    else Search(NextLayer(ts), name)
  }

  /** Whether an inode with a name can be reached from some blocks through links only. */
  ghost predicate LinkReach(ts: seq<Node>, name: string) {
    exists t | t in ts :: t.IsNamed(name) || (t.LinkNode? && LinkReach(t.kids, name))
  }

  lemma {:induction false} NextLayerHas(ts: seq<Node>, k: Node)
    ensures k in NextLayer(ts) <==> exists t | t in ts :: t.LinkNode? && k in t.kids
  {
    if ts != [] {
      NextLayerHas(ts[1..], k);
      assert forall t :: t in ts <==> t == ts[0] || t in ts[1..];
    }
  }

  lemma NextLayerReach(ts: seq<Node>, name: string)
    ensures LinkReach(ts, name) <==> (exists t | t in ts :: t.IsNamed(name)) || LinkReach(NextLayer(ts), name)
  {
    if t, k :| t in ts && t.LinkNode? && k in t.kids && (k.IsNamed(name) || (k.LinkNode? && LinkReach(k.kids, name))) {
      NextLayerHas(ts, k);
    }
    if k :| k in NextLayer(ts) && (k.IsNamed(name) || (k.LinkNode? && LinkReach(k.kids, name))) {
      NextLayerHas(ts, k);
      var t :| t in ts && t.LinkNode? && k in t.kids;
      assert LinkReach(t.kids, name);
    }
  }

  /** The search finds a name exactly when an inode of that name can be reached through links only. */
  lemma {:induction false} SearchIsComplete(ts: seq<Node>, name: string)
    ensures Search(ts, name).Some? <==> LinkReach(ts, name)
    ensures Search(ts, name).Some? ==> Search(ts, name).value.IsNamed(name)
    decreases SizeAll(ts)
  {
    NextLayerIsSmaller(ts);
    if ts != [] {
      var i := ChildIndex(ts, name);
      if i < |ts| {
        assert ts[i] in ts;
      } else {
        assert forall t | t in ts :: !t.IsNamed(name);
        NextLayerReach(ts, name);
        SearchIsComplete(NextLayer(ts), name);
      }
    }
  }

  /** Where no inode lies below a link, the search looks at the children themselves only. */
  lemma {:induction false} SearchInContents(ts: seq<Node>, name: string)
    requires forall t | t in ts :: !t.Inode? && Shape(t)
    ensures Search(ts, name) == None
    decreases SizeAll(ts)
  {
    NextLayerIsSmaller(ts);
    if ts != [] {
      forall j | 0 <= j < |ts|
        ensures !ts[j].IsNamed(name)
      {
        assert ts[j] in ts;
      }
      ContentsBelowLinks(ts);
      SearchInContents(NextLayer(ts), name);
    }
  }

  lemma ContentsBelowLinks(ts: seq<Node>)
    requires forall t | t in ts :: Shape(t)
    ensures forall k | k in NextLayer(ts) :: !k.Inode? && Shape(k)
  {
    forall k | k in NextLayer(ts)
      ensures !k.Inode? && Shape(k)
    {
      NextLayerHas(ts, k);
    }
  }

  lemma SearchInInode(t: Node, name: string)
    requires t.Inode? && Shape(t)
    ensures var i := ChildIndex(t.kids, name);
      Search(t.kids, name) == if i < |t.kids| then Some(t.kids[i]) else None
  {
    hide Shape, ChildIndex;
    assert forall k | k in t.kids :: Shape(k) by {
      ShapeOfKids(t);
    }
    ContentsBelowLinks(t.kids);
    SearchInContents(NextLayer(t.kids), name);
  }

  lemma ShapeOfKids(t: Node)
    requires Shape(t)
    ensures forall k | k in t.Kids() :: Shape(k)
  {
  }

  // ----- the walk back to a block that was retrieved

  /** Whether a block with id `target` is reached from `t` through retrieved blocks. */
  ghost predicate Via(t: Node, ids: set<BlockId>, target: BlockId) {
    t.id == target || exists k | k in t.Kids() :: k.id in ids && Via(k, ids, target)
  }

  /** A list of blocks, deepest first, that leads from a child of `t` down to the block `target`. */
  ghost predicate Trail(t: Node, path: seq<Block>, target: BlockId)
    decreases |path|
  {
    if path == [] then t.id == target
    else exists k | k in t.Kids() :: path[|path| - 1] == k.ToBlock() && Trail(k, path[..|path| - 1], target)
  }

  /** The retrieved blocks are those of the tree. */
  ghost predicate Agrees(retrieved: Retrieved, t: Node) {
    forall k | k in t.Kids() :: (k.id in retrieved ==> retrieved[k.id] == k.ToBlock()) && Agrees(retrieved, k)
  }

  /** Finds the chain from a block to a target. Each call appends its child after the deeper ones. */
  method FindPath(retrieved: Retrieved, from: Block, target: BlockId, ghost t: Node)
    returns (found: bool, path: seq<Block>)
    requires from == t.ToBlock() && Agrees(retrieved, t)
    ensures found <==> Via(t, retrieved.Keys, target)
    ensures found ==> Trail(t, path, target)
    decreases t
  {
    if from.id == target {
      return true, [];
    }
    if from.data.FileContents? {
      return false, [];
    }
    var children := from.data.Children();
    for j := 0 to |children|
      invariant forall i :: 0 <= i < j ==>
        !(t.kids[i].id in retrieved && Via(t.kids[i], retrieved.Keys, target))
    {
      ghost var k := t.kids[j];
      assert k in t.Kids();
      if children[j] in retrieved {
        var child := retrieved[children[j]];
        var below, trail := FindPath(retrieved, child, target, k);
        if below {
          path := trail + [child];
          assert path[..|path| - 1] == trail;
          return true, path;
        }
      }
    }
    return false, [];
  }

  // ----- that the walk succeeds for what the search has found

  /** Like `Via`, for a block of the tree rather than an id. */
  ghost predicate Reaches(t: Node, ids: set<BlockId>, x: Node) {
    t == x || exists k | k in t.Kids() :: k.id in ids && Reaches(k, ids, x)
  }

  lemma {:induction false} ReachesMore(t: Node, ids: set<BlockId>, more: set<BlockId>, x: Node)
    requires Reaches(t, ids, x) && ids <= more
    ensures Reaches(t, more, x)
    decreases t
  {
    if t != x {
      var k :| k in t.Kids() && k.id in ids && Reaches(k, ids, x);
      ReachesMore(k, ids, more, x);
    }
  }

  lemma {:induction false} ReachesKid(t: Node, ids: set<BlockId>, x: Node, k: Node)
    requires Reaches(t, ids, x) && k in x.Kids() && k.id in ids
    ensures Reaches(t, ids, k)
    decreases t
  {
    if t == x {
      assert Reaches(k, ids, k);
    } else {
      var c :| c in t.Kids() && c.id in ids && Reaches(c, ids, x);
      ReachesKid(c, ids, x, k);
    }
  }

  lemma {:induction false} ReachesIsVia(t: Node, ids: set<BlockId>, x: Node)
    requires Reaches(t, ids, x)
    ensures Via(t, ids, x.id)
    decreases t
  {
    if t != x {
      var k :| k in t.Kids() && k.id in ids && Reaches(k, ids, x);
      ReachesIsVia(k, ids, x);
    }
  }

  /** Every block of a frontier would be reached once it is retrieved itself. */
  ghost predicate Frontier(t: Node, ids: set<BlockId>, ts: seq<Node>) {
    forall x | x in ts :: Reaches(t, ids + {x.id}, x)
  }

  lemma FirstFrontier(t: Node)
    ensures Frontier(t, {}, t.Kids())
  {
    forall x | x in t.Kids()
      ensures Reaches(t, {} + {x.id}, x)
    {
      assert Reaches(x, {} + {x.id}, x);
    }
  }

  lemma NextFrontier(t: Node, ids: set<BlockId>, ts: seq<Node>)
    requires Frontier(t, ids, ts)
    ensures Frontier(t, ids + (set x | x in ts :: x.id), NextLayer(ts))
  {
    hide Reaches;
    var more := ids + (set x | x in ts :: x.id);
    forall k | k in NextLayer(ts)
      ensures Reaches(t, more + {k.id}, k)
    {
      NextLayerHas(ts, k);
      var x :| x in ts && x.LinkNode? && k in x.kids;
      ReachesMore(t, ids + {x.id}, more + {k.id}, x);
      ReachesKid(t, more + {k.id}, x, k);
    }
  }

  lemma FoundIsVia(t: Node, ids: set<BlockId>, ts: seq<Node>, x: Node, more: set<BlockId>)
    requires Frontier(t, ids, ts) && x in ts && ids + {x.id} <= more
    ensures Via(t, more, x.id)
  {
    hide Reaches;
    ReachesMore(t, ids + {x.id}, more, x);
    ReachesIsVia(t, more, x);
  }

  lemma {:induction false} StoredAgrees(m: Store, retrieved: Retrieved, t: Node)
    requires AllStored(m, t.Kids()) && forall i | i in retrieved :: i in m && retrieved[i] == m[i]
    ensures Agrees(retrieved, t)
    decreases t
  {
    forall k | k in t.Kids()
      ensures (k.id in retrieved ==> retrieved[k.id] == k.ToBlock()) && Agrees(retrieved, k)
    {
      assert Stored(m, k);
      StoredAgrees(m, retrieved, k);
    }
  }

  lemma FrontierMore(t: Node, ids: set<BlockId>, more: set<BlockId>, ts: seq<Node>)
    requires Frontier(t, ids, ts) && ids <= more
    ensures Frontier(t, more, ts)
  {
    hide Reaches;
    forall x | x in ts
      ensures Reaches(t, more + {x.id}, x)
    {
      ReachesMore(t, ids + {x.id}, more + {x.id}, x);
    }
  }

  // ----- the search itself

  ghost predicate FromStore(m: Store, retrieved: Retrieved) {
    forall i | i in retrieved :: i in m && retrieved[i] == m[i]
  }

  lemma {:induction false} NextLayerSnoc(ts: seq<Node>, t: Node)
    ensures NextLayer(ts + [t]) == NextLayer(ts) + if t.LinkNode? then t.kids else []
  {
    if ts == [] {
      assert ts + [t] == [t] && [t][1..] == [];
    } else {
      assert (ts + [t])[1..] == ts[1..] + [t];
      NextLayerSnoc(ts[1..], t);
      AppendAssoc(if ts[0].LinkNode? then ts[0].kids else [], NextLayer(ts[1..]), if t.LinkNode? then t.kids else []);
    }
  }

  lemma AppendAssoc(a: seq<Node>, b: seq<Node>, c: seq<Node>)
    ensures a + (b + c) == a + b + c
  {
  }

  lemma RootIdsConcat(a: seq<Node>, b: seq<Node>)
    ensures RootIds(a + b) == RootIds(a) + RootIds(b)
  {
  }

  /** Goes over one layer of blocks: notes each, stops at the target, and collects the children of links. */
  method GetPathPartHelper(respBlocks: seq<Block>, before: Retrieved, targetName: string, ghost ts: seq<Node>,
                           ghost m: Store)
    returns (target: Option<Block>, blocksToCheck: seq<BlockId>, retrieved: Retrieved)
    requires respBlocks == ToBlocks(ts) && FromStore(m, before)
    requires forall b | b in respBlocks :: b.id in m && m[b.id] == b
    ensures FromStore(m, retrieved) && before.Keys <= retrieved.Keys
    ensures var i := ChildIndex(ts, targetName);
      && target == (if i < |ts| then Some(ts[i].ToBlock()) else None)
      && (i < |ts| ==> ts[i].id in retrieved)
    ensures target.None? ==> blocksToCheck == RootIds(NextLayer(ts))
    ensures target.None? ==> forall x | x in ts :: x.id in retrieved
  {
    hide ChildIndex, NextLayer;
    target, blocksToCheck, retrieved := None, [], before;
    EmptyLayer();
    for i := 0 to |respBlocks|
      invariant FromStore(m, retrieved) && before.Keys <= retrieved.Keys
      invariant forall j :: 0 <= j < i ==> !ts[j].IsNamed(targetName) && ts[j].id in retrieved
      invariant blocksToCheck == RootIds(NextLayer(ts[..i]))
    {
      var block := respBlocks[i];
      assert block in respBlocks && block == ts[i].ToBlock();
      retrieved := retrieved[block.id := block];
      if block.data.DirFile? && block.data.name == targetName {
        assert ChildIndex(ts, targetName) == i by {
          FirstNamed(ts, i, targetName);
        }
        target := Some(block);
        return;
      }
      assert ts[..i + 1] == ts[..i] + [ts[i]];
      NextLayerSnoc(ts[..i], ts[i]);
      if block.data.Link? {
        RootIdsConcat(NextLayer(ts[..i]), ts[i].kids);
        blocksToCheck := blocksToCheck + block.data.children;
      }
    }
    assert ts[..|ts|] == ts;
  }

  lemma EmptyLayer()
    ensures NextLayer([]) == []
  {
  }

  lemma FirstNamed(ts: seq<Node>, i: nat, name: string)
    requires i < |ts| && ts[i].IsNamed(name) && forall j :: 0 <= j < i ==> !ts[j].IsNamed(name)
    ensures ChildIndex(ts, name) == i
  {
    hide ChildIndex;
    var j := ChildIndex(ts, name);
    assert j <= i;
  }

  lemma LayerStored(m: Store, ts: seq<Node>)
    requires AllStored(m, ts)
    ensures AllStored(m, NextLayer(ts))
  {
    forall k | k in NextLayer(ts)
      ensures Stored(m, k)
    {
      NextLayerHas(ts, k);
      var x :| x in ts && x.LinkNode? && k in x.kids;
      assert Stored(m, x);
    }
  }

  /** The blocks from below `from` to the first inode of a name, deepest first; none if there is none. */
  method GetPathPart(mgr: MemoryBlockManager, relName: string, from: Block, ghost t: Node)
    returns (blockPath: seq<Block>)
    requires mgr.Valid() && t.Inode? && from == t.ToBlock() && AllStored(mgr.blocks, t.kids)
    ensures Search(t.kids, relName).None? ==> blockPath == []
    ensures Search(t.kids, relName).Some? ==> Trail(t, blockPath, Search(t.kids, relName).value.id)
  {
    hide Stored, Search, NextLayer, ChildIndex, Trail, Via, Frontier, Reaches, Agrees, SizeAll, AllStored;
    var blocksToCheck := from.data.children;
    var retrieved: Retrieved := map[];
    var target: Option<Block> := None;
    ghost var frontier, m := t.kids, mgr.blocks;
    FirstFrontier(t);
    assert retrieved.Keys == {};
    while blocksToCheck != [] && target.None?
      invariant FromStore(m, retrieved)
      invariant target.None? ==> blocksToCheck == RootIds(frontier) && AllStored(m, frontier)
      invariant target.None? ==> Search(t.kids, relName) == Search(frontier, relName)
      invariant target.None? ==> Frontier(t, retrieved.Keys, frontier)
      invariant target.Some? ==> Search(t.kids, relName).Some?
      invariant target.Some? ==> target.value == Search(t.kids, relName).value.ToBlock()
      invariant target.Some? ==> Via(t, retrieved.Keys, target.value.id)
      decreases target.None?, SizeAll(frontier)
    {
      InStore(m, frontier);
      var response := mgr.GetBlocks(blocksToCheck);
      assert response == ToBlocks(frontier);
      ghost var known := retrieved.Keys;
      target, blocksToCheck, retrieved := GetPathPartHelper(response, retrieved, relName, frontier, m);
      SearchStep(frontier, relName);
      NextLayerIsSmaller(frontier);
      if target.Some? {
        var x := frontier[ChildIndex(frontier, relName)];
        FoundIsVia(t, known, frontier, x, retrieved.Keys);
      } else {
        NextFrontier(t, known, frontier);
        FrontierMore(t, known + (set x | x in frontier :: x.id), retrieved.Keys, NextLayer(frontier));
        LayerStored(m, frontier);
        frontier := NextLayer(frontier);
      }
    }
    if target.Some? {
      StoredAgrees(m, retrieved, t);
      var _, path := FindPath(retrieved, from, target.value.id, t);
      return path;
    } else {
      SearchNothing(frontier, relName);
      return [];
    }
  }

  lemma InStore(m: Store, ts: seq<Node>)
    requires AllStored(m, ts)
    ensures forall i | i in RootIds(ts) :: i in m
    ensures forall k :: 0 <= k < |ts| ==> ts[k].id in m && m[ts[k].id] == ts[k].ToBlock()
  {
    StoredRoots(m, ts);
  }

  lemma SearchStep(ts: seq<Node>, name: string)
    requires ts != []
    ensures Search(ts, name) ==
      if ChildIndex(ts, name) < |ts| then Some(ts[ChildIndex(ts, name)]) else Search(NextLayer(ts), name)
  {
    hide ChildIndex;
  }

  lemma SearchNothing(ts: seq<Node>, name: string)
    requires RootIds(ts) == []
    ensures Search(ts, name) == None
  {
    assert |ts| == 0;
  }

  // ----- the chain to a child inode has one block

  lemma {:induction false} TrailIsBelow(t: Node, path: seq<Block>, target: BlockId)
    requires Trail(t, path, target)
    ensures target in Ids(t)
    ensures path != [] ==> target in IdsAll(t.Kids())
    decreases |path|
  {
    hide IdsAll;
    IdsSplit(t);
    if path != [] {
      var k :| k in t.Kids() && path[|path| - 1] == k.ToBlock() && Trail(k, path[..|path| - 1], target);
      TrailIsBelow(k, path[..|path| - 1], target);
      IdsOfKid(t, k);
    }
  }

  lemma TrailToKid(t: Node, path: seq<Block>, i: nat)
    requires Distinct(Ids(t)) && i < |t.Kids()| && Trail(t, path, t.Kids()[i].id)
    ensures path == [t.Kids()[i].ToBlock()]
  {
    hide Ids, IdsAll, Trail;
    var target := t.Kids()[i];
    NotBelowItself(t, target);
    var k, j := TrailLast(t, path, target.id);
    TrailIsBelow(k, path[..|path| - 1], target.id);
    SameKid(t, i, j);
    assert path == path[..|path| - 1] + [path[|path| - 1]];
  }

  lemma NotBelowItself(t: Node, k: Node)
    requires Distinct(Ids(t)) && k in t.Kids()
    ensures k.id != t.id && k.id !in IdsAll(k.Kids())
  {
    hide Ids, IdsAll;
    IdsSplit(t);
    IdsOfKid(t, k);
    IdsSplit(k);
    assert Ids(k)[k.id] <= IdsAll(t.Kids())[k.id];
    assert Ids(t)[k.id] == multiset{t.id}[k.id] + IdsAll(t.Kids())[k.id];
  }

  /** Read from its end to its start, such a list is a chain: each block is a child of the one behind it in the
    * list, the last of `t` itself, and the first is the target. */
  lemma {:induction false} TrailIsChain(t: Node, path: seq<Block>, target: BlockId, k: nat)
    requires Trail(t, path, target) && k < |path|
    ensures path[0].id == target
    ensures IsChildOf(path[k], if k == |path| - 1 then t.ToBlock() else path[k + 1])
    decreases |path|
  {
    hide *;
    var n := |path| - 1;
    var kid, j := TrailLast(t, path, target);
    var rest := path[..n];
    assert path[n] == kid.ToBlock();
    KidIsChild(t, j);
    if n == 0 {
      TrailEnds(kid, rest, target);
    } else {
      TrailIsChain(kid, rest, target, if k < n then k else 0);
      assert rest[0] == path[0];
      if k < n {
        assert rest[k] == path[k];
        assert k < n - 1 ==> rest[k + 1] == path[k + 1];
      }
    }
  }

  lemma TrailEnds(t: Node, path: seq<Block>, target: BlockId)
    requires Trail(t, path, target)
    ensures path == [] ==> t.id == target
  {
  }

  predicate IsChildOf(block: Block, parent: Block) {
    block.id in parent.data.Children()
  }

  lemma KidIsChild(t: Node, j: nat)
    requires j < |t.Kids()|
    ensures IsChildOf(t.Kids()[j].ToBlock(), t.ToBlock()) && t.Kids()[j].ToBlock().id == t.Kids()[j].id
  {
    assert RootIds(t.Kids())[j] == t.Kids()[j].id;
  }

  lemma TrailLast(t: Node, path: seq<Block>, target: BlockId) returns (k: Node, j: nat)
    requires Trail(t, path, target) && (t.id != target || path != [])
    ensures path != [] && j < |t.Kids()| && k == t.Kids()[j] && path[|path| - 1] == k.ToBlock()
    ensures Trail(k, path[..|path| - 1], target)
  {
    k :| k in t.Kids() && path[|path| - 1] == k.ToBlock() && Trail(k, path[..|path| - 1], target);
    j :| 0 <= j < |t.Kids()| && t.Kids()[j] == k;
  }

  /** A block of a tree without sharing lies below one child of its root only. */
  lemma SameKid(t: Node, i: nat, j: nat)
    requires Distinct(Ids(t)) && i < |t.Kids()| && j < |t.Kids()|
    requires t.Kids()[i].id in Ids(t.Kids()[j])
    ensures i == j
  {
    hide Ids, IdsAll;
    var id := t.Kids()[i].id;
    IdsSplit(t);
    RootInIds(t.Kids()[i]);
    assert Ids(t)[id] == multiset{t.id}[id] + IdsAll(t.Kids())[id];
    if i < j {
      CountInTwo(t.Kids(), i, j, id);
    } else if j < i {
      CountInTwo(t.Kids(), j, i, id);
    }
  }

  lemma CountInTwo(ts: seq<Node>, i: nat, j: nat, id: BlockId)
    requires i < j < |ts|
    ensures Ids(ts[i])[id] + Ids(ts[j])[id] <= IdsAll(ts)[id]
  {
    hide Ids, IdsAll;
    IdsOfTwo(ts, i, j);
    var both := Ids(ts[i]) + Ids(ts[j]);
    assert both[id] <= IdsAll(ts)[id];
  }

  lemma RootInIds(t: Node)
    ensures t.id in Ids(t)
  {
  }
}
