/** Building the blocks of a file (lib/src/fs/block_util.cc, `add_link_layer` and
  * `replace_blocks_for_contents`). */
module FileWriter {
  import opened Blocks
  import opened BlockTree
  import opened FileLayout
  import opened BlockManager
  import opened BlockUtil

  lemma AllStoredGrew(m: Store, m': Store, lo: BlockId, hi: BlockId, ts: seq<Node>)
    requires AllStored(m, ts) && Grew(m, m', lo, hi)
    ensures AllStored(m', ts)
  {
    forall k | k in ts
      ensures Stored(m', k)
    {
      StoredGrew(m, m', lo, hi, k);
    }
  }

  lemma AllStoredSnoc(m: Store, ts: seq<Node>, t: Node)
    requires AllStored(m, ts) && Stored(m, t)
    ensures AllStored(m, ts + [t])
  {
    hide Stored;
  }

  lemma LinkKidsStored(m: Store, ts: seq<Node>, base: BlockId, i: nat)
    requires AllStored(m, ts) && i < CeilDiv(|ts|, BRANCHING_FACTOR)
    ensures AllStored(m, LinkOver(ts, base, i).Kids())
  {
    hide Stored;
    forall k | k in LinkOver(ts, base, i).kids
      ensures k in ts
    {
    }
  }

  /** One layer of links over some blocks, in order. */
  method AddLinkLayer(mgr: MemoryBlockManager, blocksToLinkTo: seq<Block>, ghost ts: seq<Node>)
    returns (newLayer: seq<Block>)
    requires mgr.Valid() && blocksToLinkTo == ToBlocks(ts) && AllStored(mgr.blocks, ts)
    modifies mgr
    ensures mgr.Valid() && mgr.freed == old(mgr.freed)
    ensures var layer := LinkLayer(ts, old(mgr.nextId));
      && newLayer == ToBlocks(layer) && AllStored(mgr.blocks, layer)
      && mgr.nextId == old(mgr.nextId) + |layer|
    ensures Grew(old(mgr.blocks), mgr.blocks, old(mgr.nextId), mgr.nextId)
  {
    hide Stored, Grew, LinksUpTo, MemoryBlockManager.Valid, AllStored;
    ghost var m, base := mgr.blocks, mgr.nextId;
    GrewNothing(m, base);
    newLayer := [];
    NoLinksYet(mgr.blocks, ts, base);
    var layers := CeilDiv(|blocksToLinkTo|, BRANCHING_FACTOR);
    for i := 0 to layers
      invariant mgr.Valid() && mgr.freed == old(mgr.freed) && mgr.nextId == base + i
      invariant newLayer == ToBlocks(LinksUpTo(ts, base, i)) && AllStored(mgr.blocks, LinksUpTo(ts, base, i))
      invariant Grew(m, mgr.blocks, base, mgr.nextId)
    {
      var childLinks := ChildLinks(blocksToLinkTo, i, ts, base);
      ghost var link, before, mid := LinkOver(ts, base, i), mgr.blocks, mgr.nextId;
      var block := mgr.CreateBlock(Link(childLinks));
      newLayer := newLayer + [block];
      assert block == link.ToBlock();
      AllStoredGrew(m, before, base, mid, ts);
      LinkKidsStored(before, ts, base, i);
      NewBlockStored(before, mgr.blocks, link, mid, mgr.nextId);
      AllStoredGrew(before, mgr.blocks, mid, mgr.nextId, LinksUpTo(ts, base, i));
      LinksSnoc(ts, base, i);
      AllStoredSnoc(mgr.blocks, LinksUpTo(ts, base, i), link);
      ToBlocksSnoc(LinksUpTo(ts, base, i), link);
      GrewMore(m, before, mgr.blocks, base, mid, mgr.nextId);
    }
  }

  lemma NoLinksYet(m: Store, ts: seq<Node>, base: BlockId)
    ensures LinksUpTo(ts, base, 0) == [] && AllStored(m, []) && ToBlocks([]) == []
  {
  }

  lemma ToBlocksSnoc(ts: seq<Node>, t: Node)
    ensures ToBlocks(ts + [t]) == ToBlocks(ts) + [t.ToBlock()]
  {
  }

  /** The ids of the children of link `i` of a layer. */
  method ChildLinks(blocksToLinkTo: seq<Block>, i: nat, ghost ts: seq<Node>, ghost base: BlockId)
    returns (childLinks: seq<BlockId>)
    requires blocksToLinkTo == ToBlocks(ts) && i < CeilDiv(|ts|, BRANCHING_FACTOR)
    ensures childLinks == RootIds(LinkOver(ts, base, i).kids)
  {
    childLinks := [];
    ghost var kids := LinkOver(ts, base, i).kids;
    for j := 0 to BRANCHING_FACTOR
      invariant j <= |kids| && childLinks == RootIds(kids[..j])
    {
      var blockIndex := i * BRANCHING_FACTOR + j;
      if blockIndex >= |blocksToLinkTo| {
        assert kids[..j] == kids;
        break;
      }
      assert blocksToLinkTo[blockIndex] == kids[j].ToBlock();
      assert RootIds(kids[..j + 1]) == RootIds(kids[..j]) + [kids[j].id];
      childLinks := childLinks + [blocksToLinkTo[blockIndex].id];
    }
  }

  method CreateLeaves(mgr: MemoryBlockManager, contents: seq<Byte>) returns (blocks: seq<Block>)
    requires mgr.Valid()
    modifies mgr
    ensures mgr.Valid() && mgr.freed == old(mgr.freed)
    ensures var leaves := Leaves(contents, old(mgr.nextId));
      && blocks == ToBlocks(leaves) && AllStored(mgr.blocks, leaves)
      && mgr.nextId == old(mgr.nextId) + |leaves|
    ensures Grew(old(mgr.blocks), mgr.blocks, old(mgr.nextId), mgr.nextId)
  {
    hide Stored, Grew, LeavesUpTo, MemoryBlockManager.Valid, NumLeaves, LeafData, AllStored;
    ghost var m, base := mgr.blocks, mgr.nextId;
    GrewNothing(m, base);
    NoLeavesYet(m, contents, base);
    var numLeaves := NumLeaves(|contents|);
    blocks := [];
    for i := 0 to numLeaves
      invariant mgr.Valid() && mgr.freed == old(mgr.freed) && mgr.nextId == base + i
      invariant blocks == ToBlocks(LeavesUpTo(contents, base, i))
      invariant AllStored(mgr.blocks, LeavesUpTo(contents, base, i))
      invariant Grew(m, mgr.blocks, base, mgr.nextId)
    {
      ghost var leaf, before, mid := Leaf(base + i, LeafData(contents, i)), mgr.blocks, mgr.nextId;
      var block := mgr.CreateBlock(FileContents(LeafData(contents, i)));
      blocks := blocks + [block];
      assert block == leaf.ToBlock();
      LeafStored(mgr.blocks, leaf);
      AllStoredGrew(before, mgr.blocks, mid, mgr.nextId, LeavesUpTo(contents, base, i));
      LeavesSnoc(contents, base, i);
      AllStoredSnoc(mgr.blocks, LeavesUpTo(contents, base, i), leaf);
      ToBlocksSnoc(LeavesUpTo(contents, base, i), leaf);
      GrewMore(m, before, mgr.blocks, base, mid, mgr.nextId);
    }
  }

  lemma NoLeavesYet(m: Store, contents: seq<Byte>, base: BlockId)
    ensures LeavesUpTo(contents, base, 0) == [] && AllStored(m, []) && ToBlocks([]) == []
  {
  }

  lemma LeafStored(m: Store, leaf: Node)
    requires leaf.Leaf? && leaf.id in m && m[leaf.id] == leaf.ToBlock()
    ensures Stored(m, leaf)
  {
  }

  lemma LayersNext(ts: seq<Node>, depth: nat, base: BlockId)
    requires depth > 0
    ensures var c := CeilDiv(|ts|, BRANCHING_FACTOR);
      && Layers(ts, depth, base) == Layers(LinkLayer(ts, base), depth - 1, base + c)
      && LinkCount(|ts|, depth) == c + LinkCount(c, depth - 1)
  {
  }

  /** Splits contents into leaves and builds the layers of links; the result names the topmost blocks. */
  method ReplaceBlocksForContents(mgr: MemoryBlockManager, contents: seq<Byte>) returns (idsToAdd: seq<BlockId>)
    requires mgr.Valid() && contents != []
    modifies mgr
    ensures mgr.Valid() && mgr.freed == old(mgr.freed)
    ensures idsToAdd == RootIds(FileKids(contents, old(mgr.nextId)))
    ensures AllStored(mgr.blocks, FileKids(contents, old(mgr.nextId)))
    ensures mgr.nextId == old(mgr.nextId) + FileKidsCount(|contents|)
    ensures Grew(old(mgr.blocks), mgr.blocks, old(mgr.nextId), mgr.nextId)
  {
    hide Stored, Grew, LeavesUpTo, MemoryBlockManager.Valid, LeafData, AllStored, Layers, LinkCount, LinkDepth,
      LinksUpTo;
    ghost var m, base := mgr.blocks, mgr.nextId;
    var blocksToLinkTo := CreateLeaves(mgr, contents);
    var depth := LinkDepth(NumLeaves(|contents|));
    ghost var ts := Leaves(contents, base);
    NoLayers(ts, mgr.nextId);
    var i := 0;
    while i < depth
      invariant 0 <= i <= depth && mgr.Valid() && mgr.freed == old(mgr.freed)
      invariant blocksToLinkTo == ToBlocks(ts) && AllStored(mgr.blocks, ts)
      invariant FileKids(contents, base) == Layers(ts, depth - i, mgr.nextId)
      invariant base + FileKidsCount(|contents|) == mgr.nextId + LinkCount(|ts|, depth - i)
      invariant Grew(m, mgr.blocks, base, mgr.nextId)
    {
      ghost var before, mid := mgr.blocks, mgr.nextId;
      LayersNext(ts, depth - i, mid);
      var links := AddLinkLayer(mgr, blocksToLinkTo, ts);
      GrewMore(m, before, mgr.blocks, base, mid, mgr.nextId);
      ts := LinkLayer(ts, mid);
      blocksToLinkTo := links;
      i := i + 1;
    }
    NoLayers(ts, mgr.nextId);
    idsToAdd := [];
    for j := 0 to |blocksToLinkTo|
      invariant idsToAdd == RootIds(ts[..j])
    {
      assert RootIds(ts[..j + 1]) == RootIds(ts[..j]) + [ts[j].id];
      idsToAdd := idsToAdd + [blocksToLinkTo[j].id];
    }
    assert ts[..|ts|] == ts;
  }

  lemma NoLayers(ts: seq<Node>, base: BlockId)
    ensures Layers(ts, 0, base) == ts && LinkCount(|ts|, 0) == 0
  {
  }
}
