/** The file system over a block manager (lib/src/fs/block_fuse.cc), with the checkpoints of
  * lib/src/fs/revertible_block_fuse.cc in the same class: a checkpoint overrides `free_block`, which
  * every operation calls. */
module FileSystem {
  import opened Blocks
  import opened BlockTree
  import opened FileLayout
  import opened BlockManager
  import opened BlockUtil
  import opened FileWriter
  import opened PathSearch
  import opened FsUtil
  import opened FsTree
  import opened FsRefinement
  import opened FuseLemmas
  import opened Checkpoints
  import opened RevertibleRuns
  import opened FuseSteps

  /** What reading at an entry gives. */
  function ReadOutcome(entry: Option<Entry>, size: nat, offset: int): (int, seq<Byte>) {
    if entry.None? then (-ENOENT, [])
    else if entry.value.stat.IsDir() then (-1, [])
    else if !(0 <= offset <= |entry.value.bytes|) then (0, [])
    else
      var n := Min(size, |entry.value.bytes| - offset);
      (n, entry.value.bytes[offset..offset + n])
  }

  class BlockFuse {
    const mgr: MemoryBlockManager
    var root: Block
    var checkpointRequested: bool
    var checkpoints: map<string, Block>
    /** The tree that `root` denotes, and those that the checkpoints denoted when they were taken. */
    ghost var tree: Node
    ghost var saved: map<string, Node>

    ghost function State(): Fs
      reads this, mgr
    {
      Fs(tree, mgr.nextId)
    }

    ghost predicate Valid()
      reads this, mgr
    {
      && mgr.Valid() && root == tree.ToBlock()
      && Before(mgr.blocks, mgr.freed, State(), checkpointRequested)
      && SavedOk(checkpoints, saved, checkpointRequested, mgr.nextId)
    }

    /** One call was carried out: the tree changed as `Step` says, and exactly the ids of `FreedBy` were
      * freed, each once; every other stored block stayed. */
    twostate predicate Did(op: Op)
      requires old(Valid())
      reads this, mgr
    {
      var gone := FreedBy(old(State()), op, old(checkpointRequested));
      && Valid()
      && State() == Step(old(State()), op).0
      && mgr.freed == old(mgr.freed) + gone
      && Changed(old(mgr.blocks), mgr.blocks, old(mgr.nextId), mgr.nextId, gone)
      && checkpointRequested == old(checkpointRequested)
      && checkpoints == old(checkpoints) && saved == old(saved)
    }

    ghost function RevState(): RevFs
      reads this, mgr
    {
      RevFs(State(), saved, checkpointRequested)
    }

    /** One call was dispatched to this object, checkpoint calls included: state and outcome are those of
      * `RevStep`, exactly the ids of `RevFreedBy` were freed, and all is in order unless the call went back to
      * a tree that is no longer stored. */
    twostate predicate Dispatched(op: Op, new outcome: Option<Outcome>)
      requires old(Valid())
      reads this, mgr
    {
      var s := old(RevState());
      var gone := RevFreedBy(s, op);
      && (RevState(), outcome) == RevStep(s, op)
      && root == tree.ToBlock()
      && mgr.freed == old(mgr.freed) + gone
      && Changed(old(mgr.blocks), mgr.blocks, old(mgr.nextId), mgr.nextId, gone)
      && (Reverts(s, op) ==> mgr.blocks == old(mgr.blocks))
      && (Valid() <==> (Reverts(s, op) ==> Stored(mgr.blocks, tree)))
    }

    constructor (perms: nat, now: nat)
      ensures fresh(mgr) && Valid() && UniqueNames(tree) && !checkpointRequested
      ensures tree == RootNode(perms, now) && mgr.nextId == 2
      ensures checkpoints == map[] && saved == map[]
    {
      mgr := new MemoryBlockManager();
      checkpointRequested, checkpoints, saved := false, map[], map[];
      tree := RootNode(perms, now);
      root := RootNode(perms, now).ToBlock();
      new;
      root := mgr.CreateBlock(DirFile(SEPARATOR, Stat(DIR, perms, 0, now), []));
      RootAlone(perms, now, mgr.blocks);
    }

    // ----- looking things up

    /** The blocks from the root to the inode of a path, or none. */
    method GetPath(path: Path) returns (blocks: seq<Block>)
      requires Valid()
      ensures var pos := Resolve(tree, Names(path));
        blocks == if pos.Some? then ToBlocks(Chain(tree, pos.value)) else []
    {
      hide Stored, Resolve, Chain, IsPath, At, ChildIndex, Shape, Ordered, Ids, IdsAll, MemoryBlockManager.Valid,
        Conserves, NoLeak, SplitFrom, FindSeparator;
      var parts := SeparatePath(path);
      ghost var names := Names(path);
      NamesAreSeparatorFree(path);
      blocks := [];
      var fromBlock := root;
      ghost var pos: seq<nat> := [];
      RootResolves(tree);
      for k := 0 to |parts|
        invariant k == 0 ==> blocks == [] && pos == []
        invariant k > 0 ==> Resolve(tree, names[..k - 1]) == Some(pos)
        invariant IsPath(tree, pos) && At(tree, pos).Inode? && fromBlock == At(tree, pos).ToBlock()
        invariant k > 0 ==> blocks == ToBlocks(Chain(tree, pos))
      {
        var blockPath := GetPathPart(parts[k], fromBlock, pos);
        if k == 0 {
          assert names[..0] == [] && IsRoot(parts[0]);
        } else {
          assert names[k - 1] == parts[k] && !IsRoot(parts[k]);
          assert names[..k] == names[..k - 1] + [parts[k]];
          ResolveMore(tree, names[..k - 1], parts[k]);
        }
        if blockPath == [] {
          UnresolvedPrefix(tree, names[..k], names);
          return [];
        }
        if k > 0 {
          ghost var i := ChildIndex(At(tree, pos).Kids(), parts[k]);
          ChainMore(tree, pos, i);
          ToBlocksSnoc(Chain(tree, pos), At(tree, pos).Kids()[i]);
          pos := pos + [i];
          FindsInodes(tree, names[..k]);
        }
        blocks := blocks + blockPath;
        fromBlock := blockPath[|blockPath| - 1];
      }
      assert names[..|parts| - 1] == names;
    }

    /** The blocks that lead from an inode to its child of a name, itself left out. The separator names
      * the root block. */
    method GetPathPart(relName: string, fromBlock: Block, ghost pos: seq<nat>) returns (blockPath: seq<Block>)
      requires Valid() && IsPath(tree, pos) && At(tree, pos).Inode? && fromBlock == At(tree, pos).ToBlock()
      ensures IsRoot(relName) ==> blockPath == [root]
      ensures !IsRoot(relName) ==>
        var kids := At(tree, pos).Kids();
        var i := ChildIndex(kids, relName);
        blockPath == if i < |kids| then [kids[i].ToBlock()] else []
    {
      hide IsPath, At, ChildIndex, Ordered, Ids, IdsAll, Trail, Search, Shape;
      if IsRoot(relName) {
        return [root];
      }
      ghost var x := At(tree, pos);
      SoundBelow(mgr.blocks, tree, pos);
      blockPath := PathSearch.GetPathPart(mgr, relName, fromBlock, x);
      SearchInInode(x, relName);
      if ChildIndex(x.kids, relName) < |x.kids| {
        TrailToKid(x, blockPath, ChildIndex(x.kids, relName));
      }
    }

    /** The attributes at a path, or none if nothing is there. */
    method GetAttr(path: Path) returns (stat: Option<Stat>)
      requires Valid()
      ensures var entry := EntryAt(tree, Names(path));
        stat == if entry.Some? then Some(entry.value.stat) else None
    {
      hide Stored, Shape, Ordered, Ids, MemoryBlockManager.Valid, Conserves, NoLeak, FsUtil.Names, Resolve, At, Flatten;
      var blocks := GetPath(path);
      if blocks == [] {
        return None;
      }
      FindsInodes(tree, Names(path));
      return Some(blocks[|blocks| - 1].data.stat);
    }

    /** The bytes of a file from an offset on, at most `size` of them; a code if there are none to give. */
    method Read(path: Path, size: nat, offset: int) returns (code: int, data: seq<Byte>)
      requires Valid()
      ensures (code, data) == ReadOutcome(EntryAt(tree, Names(path)), size, offset)
    {
      hide Shape, Ordered, Ids, MemoryBlockManager.Valid, Conserves, NoLeak, FsUtil.Names, Resolve, At, Flatten;
      var blocks := GetPath(path);
      if blocks == [] {
        return -ENOENT, [];
      }
      FindsInodes(tree, Names(path));
      ghost var pos := Resolve(tree, Names(path)).value;
      SoundBelow(mgr.blocks, tree, pos);
      var dirFile := blocks[|blocks| - 1].data;
      if dirFile.stat.IsDir() {
        return -1, [];
      }
      var contents := ReadFileContents(mgr, dirFile, At(tree, pos));
      if !(0 <= offset <= |contents|) {
        return 0, [];
      }
      var actualSize := if offset + size <= |contents| then size else |contents| - offset;
      return actualSize, contents[offset..offset + actualSize];
    }

    // ----- changing things

    /** Frees a block, unless a checkpoint holds frees back. */
    method FreeBlock(id: BlockId)
      requires mgr.Valid()
      modifies mgr
      ensures mgr.Valid() && mgr.nextId == old(mgr.nextId)
      ensures var gone := if checkpointRequested then multiset{} else multiset{id};
        mgr.blocks == Without(old(mgr.blocks), gone) && mgr.freed == old(mgr.freed) + gone
    {
      if checkpointRequested {
        WithoutNothing(mgr.blocks);
        return;
      }
      mgr.FreeBlock(id);
    }

    method FreeChain(blocks: seq<Block>, ghost chain: seq<Node>)
      requires mgr.Valid() && |blocks| == |chain|
      requires forall k :: 0 <= k < |blocks| ==> blocks[k].id == chain[k].id
      modifies mgr
      ensures mgr.Valid() && mgr.nextId == old(mgr.nextId)
      ensures var gone := if checkpointRequested then multiset{} else multiset(RootIds(chain));
        mgr.blocks == Without(old(mgr.blocks), gone) && mgr.freed == old(mgr.freed) + gone
    {
      hide Without, MemoryBlockManager.Valid;
      ghost var m, freed, ids := mgr.blocks, mgr.freed, RootIds(chain);
      ghost var gone: multiset<BlockId> := multiset{};
      WithoutNothing(m);
      for k := 0 to |blocks|
        invariant mgr.Valid() && mgr.nextId == old(mgr.nextId)
        invariant gone == if checkpointRequested then multiset{} else multiset(ids[..k])
        invariant mgr.blocks == Without(m, gone) && mgr.freed == freed + gone
      {
        ghost var one := if checkpointRequested then multiset{} else multiset{ids[k]};
        FreeBlock(blocks[k].id);
        WithoutTwice(m, gone, one);
        SumAssoc(freed, gone, one);
        assert ids[..k + 1] == ids[..k] + [ids[k]];
        gone := gone + one;
      }
      assert ids[..|ids|] == ids;
    }

    /** Adds a new inode under the end of a chain: the part that `mkdir` and `create` share. */
    method InsertInode(blocks: seq<Block>, name: string, stat: Stat, ghost op: Op)
      requires Valid() && (op.Mkdir? || op.Create?) && Names(op.path) != []
      requires Plan(State(), op).0.Some? && Plan(State(), op).0 == AddInode(State(), op.path, stat)
      requires name == LastName(op.path)
      requires blocks == ToBlocks(Chain(tree, Plan(State(), op).0.value.pos))
      modifies this, mgr
      ensures Did(op)
    {
      hide Plan, AddInode, Before, SavedOk, Gone, FreedBy, FsInv, Stored, AllStored, Grew, Ids, IdsAll, Conserves,
        NoLeak, Chain, ChainIds, Without, SideStored, ChainDistinct, CanRemove, Removed, MemoryBlockManager.Valid,
        FsUtil.Names, LastName, IsPath, At, Graft, Step, Changed, Sound;
      ghost var m, freed, fs, held := mgr.blocks, mgr.freed, State(), checkpointRequested;
      BeforeIsSound(m, freed, fs, held);
      ghost var e := Plan(fs, op).0.value;
      var newBlock := mgr.CreateBlock(DirFile(name, stat, []));
      AddReady(m, freed, fs, held, op, stat, mgr.blocks);
      ghost var m0, mid := mgr.blocks, mgr.nextId;
      var newRoot := ReplaceChain(mgr, blocks, [], [newBlock.id], tree, e.pos, e.n);
      GrewMore(m, m0, mgr.blocks, fs.next, mid, mgr.nextId);
      root := newRoot;
      ghost var m1 := mgr.blocks;
      FreeChain(blocks, Chain(tree, e.pos));
      ghost var gone := if held then multiset{} else multiset(RootIds(Chain(fs.root, e.pos)));
      AddDone(m, freed, fs, held, op, stat, m1, gone);
      SavedLater(checkpoints, saved, held, fs.next, mgr.nextId);
      tree := Apply(fs, e).root;
    }

    /** Whether a directory can be made at a path; then also the chain to its parent, and its name. The
      * chain always ends in an inode, so the program's check of the parent's type never fails. */
    method MkdirValid(path: Path) returns (valid: bool, blocks: seq<Block>, dirToMake: string)
      requires Valid()
      ensures valid <==> Names(path) != [] && EntryAt(tree, Names(path)).None?
                         && Resolve(tree, ParentNames(path)).Some?
      ensures valid ==> dirToMake == LastName(path)
      ensures valid ==> blocks == ToBlocks(Chain(tree, Resolve(tree, ParentNames(path)).value))
    {
      hide Before, SavedOk, Resolve, Chain, IsPath, At, Ids, SplitFrom, FindSeparator, EntryOf;
      blocks, dirToMake := [], "";
      var parts := SeparatePath(path);
      NamesAreSeparatorFree(path);
      if |parts| <= 1 {
        return false, blocks, dirToMake;
      }
      var stat := GetAttr(path);
      if stat.Some? {
        return false, blocks, dirToMake;
      }
      dirToMake := parts[|parts| - 1];
      var upTo := ParentPath(path, parts);
      blocks := GetPath(upTo);
      return blocks != [], blocks, dirToMake;
    }

    /** The path that the parts of a path without the last are joined to. */
    method ParentPath(path: Path, parts: seq<string>) returns (up: Path)
      requires parts == Parts(path) && |parts| > 1
      ensures Names(up) == ParentNames(path)
    {
      hide Parts, SplitFrom, FindSeparator, Joined;
      NamesAreSeparatorFree(path);
      NamesOfParts(path);
      ghost var names := Names(path);
      PartsStartAtRoot(path);
      SeparateUndoesJoin(names[..|names| - 1]);
      assert parts[..|parts| - 1] == [SEPARATOR] + names[..|names| - 1];
      up := Join(parts[..|parts| - 1]);
    }

    method Mkdir(path: Path, perms: nat, now: nat) returns (code: int)
      requires Valid()
      modifies this, mgr
      ensures Did(Op.Mkdir(path, perms, now))
      ensures Ret(code) == Step(old(State()), Op.Mkdir(path, perms, now)).1
    {
      hide Before, SavedOk, Resolve, Chain, IsPath, At, Ids, FsUtil.Names, ParentNames, LastName, Apply, Shape,
        Ordered, EntryAt, Stored, Conserves, NoLeak, Gone;
      var valid, blocks, dirToMake := MkdirValid(path);
      ghost var op := Op.Mkdir(path, perms, now);
      BeforeIsSound(mgr.blocks, mgr.freed, State(), checkpointRequested);
      FoundIffEntry(tree, Names(path));
      if !valid {
        NothingDone(mgr.blocks, mgr.freed, State(), checkpointRequested, op);
        return 1;
      }
      InsertInode(blocks, dirToMake, Stat(DIR, perms, 1, now), op);
      return 0;
    }

    method Create(path: Path, mode: Mode, now: nat) returns (outcome: Outcome)
      requires Valid()
      modifies this, mgr
      ensures Did(Op.Create(path, mode, now))
      ensures outcome == Step(old(State()), Op.Create(path, mode, now)).1
    {
      hide Before, SavedOk, Resolve, Chain, IsPath, At, Ids, FsUtil.Names, FsUtil.Parts, Stored, Conserves, NoLeak,
        Plan, Step, FreedBy, Changed, MemoryBlockManager.Valid, Shape, Ordered, Distinct;
      ghost var op := Op.Create(path, mode, now);
      BeforeIsSound(mgr.blocks, mgr.freed, State(), checkpointRequested);
      CreatePlanned(State(), op);
      var blocks := GetPath(path);
      if blocks != [] {
        NothingDone(mgr.blocks, mgr.freed, State(), checkpointRequested, op);
        return Ret(-EEXIST);
      }
      outcome := CreateFileBlock(path, mode, now);
    }

    /** Creates a file that does not exist yet. (The program looks the path up once more before it goes
      * on, with the same result.) */
    method CreateFileBlock(path: Path, mode: Mode, now: nat) returns (outcome: Outcome)
      requires Valid() && Resolve(tree, Names(path)).None?
      modifies this, mgr
      ensures Did(Op.Create(path, mode, now))
      ensures outcome == Step(old(State()), Op.Create(path, mode, now)).1
    {
      hide Before, SavedOk, Resolve, Chain, IsPath, At, Ids, FsUtil.Names, FsUtil.Parts, ParentNames, LastName, Apply,
        Stored, Conserves, NoLeak, Gone, Plan, Step, FreedBy, Changed, MemoryBlockManager.Valid, Shape, Ordered,
        Distinct, Find, Joined;
      ghost var op := Op.Create(path, mode, now);
      BeforeIsSound(mgr.blocks, mgr.freed, State(), checkpointRequested);
      CreatePlanned(State(), op);
      var parts := SeparatePath(path);
      LastPart(path);
      var upTo := ParentPath(path, parts);
      var blocks := GetPath(upTo);
      if blocks == [] {
        NothingDone(mgr.blocks, mgr.freed, State(), checkpointRequested, op);
        return Ret(-ENOENT);
      }
      InsertInode(blocks, parts[|parts| - 1], Stat(mode.fileType, mode.perms, 0, now), op);
      blocks := GetPath(path);
      outcome := if blocks != [] then Ret(0) else AssertFailed;
    }

    method Write(path: Path, buffer: seq<Byte>, offset: int, now: nat) returns (code: int)
      requires Valid()
      modifies this, mgr
      ensures Did(Op.Write(path, buffer, offset, now))
      ensures Ret(code) == Step(old(State()), Op.Write(path, buffer, offset, now)).1
    {
      hide Before, SavedOk, Resolve, Chain, IsPath, At, Ids, IdsAll, FsUtil.Names, Apply, Stored, Conserves, Distinct,
        Shape, NoLeak, Gone, Plan, Step, FreedBy, Changed, FsInv, MemoryBlockManager.Valid, Flatten, Overwrite,
        Without;
      ghost var op := Op.Write(path, buffer, offset, now);
      ghost var m, freed, fs, held := mgr.blocks, mgr.freed, State(), checkpointRequested;
      BeforeIsSound(m, freed, fs, held);
      WritePlan(fs, op);
      var blocks := GetPath(path);
      if blocks == [] {
        NothingDone(m, freed, fs, held, op);
        return -ENOENT;
      }
      ghost var pos := Resolve(tree, Names(path)).value;
      ghost var x := At(tree, pos);
      SoundBelow(m, tree, pos);
      var fileInode := blocks[|blocks| - 1];
      if fileInode.data.stat.IsDir() {
        NothingDone(m, freed, fs, held, op);
        return -EISDIR;
      }
      var contents := ReadFileContents(mgr, fileInode.data, x);
      if !(0 <= offset <= |contents|) {
        NothingDone(m, freed, fs, held, op);
        return -1;
      }
      contents := Overwrite(contents, offset, buffer);
      RecursiveFreeChildrenBlocks(mgr, fileInode, x);
      WriteFileStartingAtNode(blocks, contents, now, op, m, freed, fs);
      return |buffer|;
    }

    /** Puts new contents in the place of what was freed below the file at the end of a chain. */
    method WriteFileStartingAtNode(blocks: seq<Block>, contents: seq<Byte>, now: nat,
                                   ghost op: Op, ghost m: Store, ghost freed: multiset<BlockId>, ghost fs: Fs)
      requires mgr.Valid() && fs == State() && Before(m, freed, fs, checkpointRequested)
      requires SavedOk(checkpoints, saved, checkpointRequested, mgr.nextId)
      requires IsWrite(fs, op, contents, now)
      requires var pos := Plan(fs, op).0.value.pos;
        && blocks == ToBlocks(Chain(tree, pos))
        && mgr.blocks == Without(m, IdsAll(At(tree, pos).Kids())) && mgr.freed == freed + IdsAll(At(tree, pos).Kids())
      modifies this, mgr
      ensures Valid() && State() == Step(fs, op).0 && mgr.freed == freed + FreedBy(fs, op, old(checkpointRequested))
      ensures Changed(m, mgr.blocks, fs.next, mgr.nextId, FreedBy(fs, op, old(checkpointRequested)))
      ensures checkpointRequested == old(checkpointRequested)
      ensures checkpoints == old(checkpoints) && saved == old(saved)
    {
      hide SavedOk, Chain, IsPath, At, Ids, IdsAll, FsUtil.Names, Stored, Conserves, Distinct, Shape, Ordered, Grew,
        NoLeak, Gone, Plan, Step, FreedBy, Changed, MemoryBlockManager.Valid, Without, FileKids, FileKidsCount,
        Graft, SideStored, ChainDistinct, CanRemove, Removed, ChainIds;
      ghost var held, e := checkpointRequested, Plan(fs, op).0.value;
      var idsToAdd := [];
      ghost var mA := mgr.blocks;
      if contents != [] {
        idsToAdd := ReplaceBlocksForContents(mgr, contents);
      } else {
        NoFileKids(mA, fs.next);
      }
      ghost var mB, mid := mgr.blocks, mgr.nextId;
      WriteReady(m, freed, fs, held, op, contents, now, mB, mid);
      var newBlocks := blocks;
      var inode := blocks[|blocks| - 1];
      var updated := DirFile(inode.data.name, inode.data.stat.(size := |contents|, time := now), inode.data.children);
      newBlocks := newBlocks[|blocks| - 1 := Block(inode.id, updated)];
      var newRoot := ReplaceChain(mgr, newBlocks, inode.data.children, idsToAdd, tree, e.pos, e.n);
      GrewMore(mA, mB, mgr.blocks, fs.next, mid, mgr.nextId);
      root := newRoot;
      ghost var m1 := mgr.blocks;
      FreeChain(newBlocks, Chain(tree, e.pos));
      ghost var gone := if held then multiset{} else multiset(RootIds(Chain(fs.root, e.pos)));
      WriteDone(m, freed, fs, held, op, m1, gone);
      SavedLater(checkpoints, saved, held, fs.next, mgr.nextId);
      tree := Apply(fs, e).root;
    }

    method Rmdir(path: Path) returns (code: int)
      requires Valid()
      modifies this, mgr
      ensures Did(Op.Rmdir(path))
      ensures Ret(code) == Step(old(State()), Op.Rmdir(path)).1
    {
      hide Before, SavedOk, Resolve, Chain, IsPath, At, Ids, IdsAll, FsUtil.Names, Stored, Conserves, Distinct, Shape,
        Ordered, NoLeak, Gone, Plan, Step, FreedBy, Changed, MemoryBlockManager.Valid;
      ghost var op := Op.Rmdir(path);
      BeforeIsSound(mgr.blocks, mgr.freed, State(), checkpointRequested);
      RmdirPlan(mgr.blocks, mgr.freed, State(), checkpointRequested, op);
      var blocks := GetPath(path);
      if |blocks| <= 1 {
        NothingDone(mgr.blocks, mgr.freed, State(), checkpointRequested, op);
        return 1;
      }
      var last := |blocks| - 2;
      while last >= 0 && blocks[last].data.Link?
        invariant -1 <= last <= |blocks| - 2
        invariant forall j :: last < j <= |blocks| - 2 ==> blocks[j].data.Link?
      {
        last := last - 1;
      }
      ParentIsNoLink(State(), path, blocks);
      assert last == |blocks| - 2;
      RemoveEnd(blocks, last, op);
      return 0;
    }

    /** Cuts the end of a chain off the block before it, and frees the chain and all below its end. */
    method RemoveEnd(blocks: seq<Block>, lastDirFileIndex: nat, ghost op: Op)
      requires Valid() && op.Rmdir? && Plan(State(), op).0.Some? && |Plan(State(), op).0.value.dropped| == 1
      requires lastDirFileIndex == |blocks| - 2
      requires var e := Plan(State(), op).0.value;
        blocks == ToBlocks(Chain(tree, e.pos) + [e.dropped[0]])
      modifies this, mgr
      ensures Did(op)
    {
      hide Before, SavedOk, Chain, IsPath, At, Ids, IdsAll, FsUtil.Names, Stored, AllStored, Conserves, Distinct, Shape,
        Ordered, NoLeak, Gone, Plan, Step, FreedBy, Changed, MemoryBlockManager.Valid, Without, ChainIds, Grew,
        Graft, Sound, FsInv;
      ghost var m, freed, fs, held := mgr.blocks, mgr.freed, State(), checkpointRequested;
      BeforeIsSound(m, freed, fs, held);
      ghost var e := Plan(fs, op).0.value;
      ghost var m1 := DetachEnd(blocks, lastDirFileIndex, op);
      ghost var first := if held then multiset{} else multiset(RootIds(Chain(fs.root, e.pos) + [e.dropped[0]]));
      RmdirFreed(m, freed, fs, held, op, m1, first);
      RecursiveFreeChildrenBlocks(mgr, blocks[|blocks| - 1], e.dropped[0]);
      RmdirDone(m, freed, fs, held, op, m1, first);
      SavedLater(checkpoints, saved, held, fs.next, mgr.nextId);
      tree := Apply(fs, e).root;
    }

    /** Switches to a root from which the end of a chain is gone, and frees the chain. */
    method DetachEnd(blocks: seq<Block>, lastDirFileIndex: nat, ghost op: Op) returns (ghost m1: Store)
      requires Valid() && op.Rmdir? && Plan(State(), op).0.Some? && |Plan(State(), op).0.value.dropped| == 1
      requires lastDirFileIndex == |blocks| - 2
      requires var e := Plan(State(), op).0.value;
        blocks == ToBlocks(Chain(tree, e.pos) + [e.dropped[0]])
      modifies this`root, mgr
      ensures var e := Plan(old(State()), op).0.value;
        var fs' := Apply(old(State()), e);
        var first := if checkpointRequested then multiset{} else multiset(RootIds(Chain(tree, e.pos) + [e.dropped[0]]));
        && mgr.Valid() && root == fs'.root.ToBlock() && old(mgr.nextId) < mgr.nextId == fs'.next
        && Stored(m1, fs'.root) && Grew(old(mgr.blocks), m1, old(mgr.nextId), fs'.next)
        && mgr.blocks == Without(m1, first) && mgr.freed == old(mgr.freed) + first
    {
      hide Before, SavedOk, Chain, IsPath, At, Ids, IdsAll, FsUtil.Names, Stored, AllStored, Conserves, Distinct, Shape,
        Ordered, NoLeak, Plan, MemoryBlockManager.Valid, Without, ChainIds, Grew,
        SideStored, ChainDistinct, CanRemove, Removed, Graft, Sound, FsInv;
      ghost var fs := State();
      BeforeIsSound(mgr.blocks, mgr.freed, fs, checkpointRequested);
      ghost var e := Plan(fs, op).0.value;
      var childIdToRemove := blocks[lastDirFileIndex + 1].id;
      RmdirReady(mgr.blocks, mgr.freed, fs, checkpointRequested, op);
      var upTo := blocks[..lastDirFileIndex + 1];
      assert childIdToRemove == e.dropped[0].id && upTo == ToBlocks(Chain(tree, e.pos));
      root := ReplaceChain(mgr, upTo, [childIdToRemove], [], tree, e.pos, e.n);
      m1 := mgr.blocks;
      FreeChain(blocks, Chain(tree, e.pos) + [e.dropped[0]]);
    }

    /** A call on a file system without checkpoint calls. */
    method Perform(op: Op) returns (outcome: Outcome)
      requires Valid()
      modifies this, mgr
      ensures Did(op) && outcome == Step(old(State()), op).1
    {
      hide Before, SavedOk, Step, FreedBy, Changed, MemoryBlockManager.Valid;
      match op
      case Mkdir(path, perms, now) =>
        var code := Mkdir(path, perms, now);
        outcome := Ret(code);
      case Create(path, mode, now) =>
        outcome := Create(path, mode, now);
      case Write(path, buffer, offset, now) =>
        var code := Write(path, buffer, offset, now);
        outcome := Ret(code);
      case Rmdir(path) =>
        var code := Rmdir(path);
        outcome := Ret(code);
    }

    /** Any sequence of calls on a file system without checkpoint calls. Whatever the paths, the tree and the
      * outcomes are those of `Run`, the store holds exactly the blocks of the tree (while no checkpoint was
      * taken), and each id was freed at most once; and if no path has the form "//name", the user sees a plain
      * file system. */
    method PerformAll(ops: seq<Op>) returns (outcomes: seq<Outcome>)
      requires Valid()
      modifies this, mgr
      ensures Valid() && (State(), outcomes) == Run(old(State()), ops)
      ensures Changed(old(mgr.blocks), mgr.blocks, old(mgr.nextId), mgr.nextId,
                RunFrees(old(State()), ops, old(checkpointRequested)))
      ensures checkpointRequested == old(checkpointRequested)
      ensures checkpoints == old(checkpoints) && saved == old(saved)
      ensures UniqueNames(old(tree)) && (forall op | op in ops :: !LosesParent(op)) ==>
        && UniqueNames(tree)
        && (ViewOf(tree), outcomes) == PlainRun(ViewOf(old(tree)), ops)
      decreases |ops|
    {
      hide SavedOk, Step, FreedBy, Changed, MemoryBlockManager.Valid, Stored, Conserves, NoLeak, Shape, Ordered,
        Distinct, Ids, LosesParent, PlainRun, ViewOf;
      ghost var fs, m, held := State(), mgr.blocks, checkpointRequested;
      if UniqueNames(tree) && forall op | op in ops :: !LosesParent(op) {
        RunRefines(fs, ops);
      }
      if ops == [] {
        NothingChanged(m, fs.next);
        return [];
      }
      var outcome := Perform(ops[0]);
      FreedAreOlder(fs, ops[0], held);
      ghost var m1, mid := mgr.blocks, mgr.nextId;
      if outcome.AssertFailed? {
        NoMoreFrees(FreedBy(fs, ops[0], held));
        return [outcome];
      }
      var rest := PerformAll(ops[1..]);
      RunGrows(Step(fs, ops[0]).0, ops[1..]);
      ChangedTwice(m, m1, mgr.blocks, fs.next, mid, mgr.nextId, FreedBy(fs, ops[0], held),
        RunFrees(Step(fs, ops[0]).0, ops[1..], held));
      outcomes := [outcome] + rest;
    }

    // ----- checkpoints

    method Checkpoint() returns (block: Block)
      requires Valid()
      modifies this`checkpointRequested
      ensures Valid() && checkpointRequested && block == root
    {
      checkpointRequested := true;
      return root;
    }

    /** Makes a saved root the root again. What that root denotes is for the store to say. */
    method Revert(revertedRoot: Block, ghost t: Node)
      modifies this`root, this`tree
      ensures root == revertedRoot && tree == t
    {
      root := revertedRoot;
      tree := t;
    }

    /** Making a directory under the sentinel name first takes a checkpoint, kept under the path. */
    method RevertibleMkdir(path: Path, perms: nat, now: nat) returns (code: int)
      requires Valid()
      modifies this, mgr
      ensures Dispatched(Op.Mkdir(path, perms, now), Some(Ret(code)))
    {
      hide Step, FreedBy, Changed, MemoryBlockManager.Valid, Stored, Conserves, NoLeak, Shape, Ordered, Distinct, Ids;
      if CHECKPOINT_SENTINEL <= path {
        var block := Checkpoint();
        hide SavedOk;
        SavedMore(checkpoints, saved, mgr.nextId, path, tree);
        checkpoints := checkpoints[path := block];
        saved := saved[path := tree];
      }
      code := Mkdir(path, perms, now);
    }

    /** Removing a path with a checkpoint reverts to it (the program then returns no value). If the saved
      * tree is still in the store, it is the tree again, with everything in order. */
    method RevertibleRmdir(path: Path) returns (code: Option<int>)
      requires Valid()
      modifies this, mgr
      ensures Dispatched(Op.Rmdir(path), if code.Some? then Some(Ret(code.value)) else None)
    {
      hide Step, FreedBy, Changed, MemoryBlockManager.Valid, Stored, Conserves, NoLeak, Shape, Ordered, Distinct, Ids;
      if path !in checkpoints {
        var c := Rmdir(path);
        return Some(c);
      }
      NothingChanged(mgr.blocks, mgr.nextId);
      NoMoreFrees(mgr.freed);
      Revert(checkpoints[path], saved[path]);
      checkpoints := checkpoints - {path};
      saved := saved - {path};
      code := None;
    }

    /** Files are removed as directories, by the same dispatch: a path with a checkpoint reverts. */
    method Unlink(path: Path) returns (code: Option<int>)
      requires Valid()
      modifies this, mgr
      ensures Dispatched(Op.Rmdir(path), if code.Some? then Some(Ret(code.value)) else None)
    {
      code := RevertibleRmdir(path);
    }

    method Dispatch(op: Op) returns (outcome: Option<Outcome>)
      requires Valid()
      modifies this, mgr
      ensures Dispatched(op, outcome)
    {
      hide Before, SavedOk, Step, FreedBy, Changed, MemoryBlockManager.Valid, Stored;
      match op
      case Mkdir(path, perms, now) =>
        var code := RevertibleMkdir(path, perms, now);
        outcome := Some(Ret(code));
      case Create(path, mode, now) =>
        var o := Create(path, mode, now);
        outcome := Some(o);
      case Write(path, buffer, offset, now) =>
        var code := Write(path, buffer, offset, now);
        outcome := Some(Ret(code));
      case Rmdir(path) =>
        var code := RevertibleRmdir(path);
        outcome := if code.Some? then Some(Ret(code.value)) else None;
    }

    /** Any sequence of calls on a file system with checkpoints, where each revert goes back to a tree of
      * which nothing was lost. State, outcomes and freed ids are those of the run; and if no path has the
      * form "//name", the user sees the plain file system with checkpoints. */
    method DispatchAll(ops: seq<Op>, ghost lost: multiset<BlockId>) returns (outcomes: seq<Option<Outcome>>)
      requires Valid() && KeptUnlessLost(mgr.blocks, saved, lost)
      requires Recovers(RevState(), ops, lost)
      modifies this, mgr
      ensures Valid() && (RevState(), outcomes) == RevRun(old(RevState()), ops)
      ensures Changed(old(mgr.blocks), mgr.blocks, old(mgr.nextId), mgr.nextId, RevFrees(old(RevState()), ops))
      ensures AllUnique(old(RevState())) && (forall op | op in ops :: !LosesParent(op)) ==>
        (RevShows(RevState()), outcomes) == PlainRevRun(RevShows(old(RevState())), ops)
      decreases |ops|
    {
      hide SavedOk, RevStep, RevFreedBy, Changed, MemoryBlockManager.Valid, Stored, Conserves, NoLeak, Shape,
        Ordered, Distinct, Ids, LosesParent, PlainRevRun, RevShows, AllUnique, KeptUnlessLost, Reverts, Apart;
      ghost var s, m := RevState(), mgr.blocks;
      SavedInv(checkpoints, saved, State(), checkpointRequested);
      if AllUnique(s) && forall op | op in ops :: !LosesParent(op) {
        RevRunRefines(s, ops);
      }
      if ops == [] {
        NothingChanged(m, s.fs.next);
        return [];
      }
      var outcome := Dispatch(ops[0]);
      ghost var gone, m1, mid := RevFreedBy(s, ops[0]), mgr.blocks, mgr.nextId;
      RevStepKeepsInv(s, ops[0]);
      RevFreedAreOlder(s, ops[0]);
      RevStepKeeps(m, m1, s, ops[0], mid, lost);
      RevertedIsKept(m, m1, s, ops[0], mid, lost);
      if outcome == Some(AssertFailed) {
        NoMoreFrees(gone);
        return [outcome];
      }
      var rest := DispatchAll(ops[1..], lost + gone);
      RevRunGrows(RevStep(s, ops[0]).0, ops[1..]);
      ChangedTwice(m, m1, mgr.blocks, s.fs.next, mid, mgr.nextId, gone, RevFrees(RevStep(s, ops[0]).0, ops[1..]));
      outcomes := [outcome] + rest;
    }
  }

  // ----- what a user can rely on

  /** Saving a checkpoint, any calls, saving and reverting included as long as this path is not saved again
    * or removed, and going back to it. The saved root is the root again, and all is in order exactly if no call
    * that was no revert found a block of its tree below the target. */
  method SaveRunAndRevert(fuse: BlockFuse, path: Path, perms: nat, now: nat, ops: seq<Op>,
                          ghost lost: multiset<BlockId>)
    returns (outcomes: seq<Option<Outcome>>)
    requires fuse.Valid() && CHECKPOINT_SENTINEL <= path
    requires KeptUnlessLost(fuse.mgr.blocks, fuse.saved, lost)
    requires Rooted(fuse.RevState()) && Recovers(fuse.RevState(), [Op.Mkdir(path, perms, now)] + ops, lost)
    requires forall op | op in ops && op.path == path :: !op.Mkdir? && !op.Rmdir?
    modifies fuse, fuse.mgr
    ensures fuse.root == old(fuse.root) && fuse.tree == old(fuse.tree)
    ensures Rooted(old(fuse.RevState()))
    ensures fuse.Valid()
       <==> Spares(old(fuse.RevState()), [Op.Mkdir(path, perms, now)] + ops, old(fuse.tree))
  {
    hide Step, FreedBy, Changed, MemoryBlockManager.Valid, Stored, Conserves, NoLeak, Shape, Ordered, Distinct, Ids,
      Spares, RevRun, RevFrees, Recovers, KeptUnlessLost;
    ghost var s, m := fuse.RevState(), fuse.mgr.blocks;
    var all := [Op.Mkdir(path, perms, now)] + ops;
    outcomes := fuse.DispatchAll(all, lost);
    SavedSurvivesIff(m, fuse.mgr.blocks, s, all, fuse.mgr.nextId, s.fs.root);
    SavedAtStart(s, path, perms, now, ops);
    var _ := fuse.RevertibleRmdir(path);
  }

  /** What reading gives: of a file, as many of the bytes from the offset on as were asked for, or else all of
    * them; and of anything else nothing, with a code. */
  lemma ReadGives(entry: Option<Entry>, size: nat, offset: int)
    ensures var (code, data) := ReadOutcome(entry, size, offset);
      && (entry.None? ==> code == -2 && data == [])
      && (entry.Some? && entry.value.stat.fileType == DIR ==> code == -1 && data == [])
      && (entry.Some? && entry.value.stat.fileType == REGULAR && !(0 <= offset <= |entry.value.bytes|) ==>
            code == 0 && data == [])
      && (entry.Some? && entry.value.stat.fileType == REGULAR && 0 <= offset <= |entry.value.bytes| ==>
            && code == |data| <= size
            && data <= entry.value.bytes[offset..]
            && (|data| == size || offset + |data| == |entry.value.bytes|))
  {
  }

  /** After a write, bytes of the old file that it did not cover read as before. */
  lemma ReadBesideWrite(v: View, op: Op, size: nat, offset: nat)
    requires op.Write? && Names(op.path) in v
    requires CanWrite(Some(v[Names(op.path)]), op.offset)
    requires offset + size <= |v[Names(op.path)].bytes|
    requires offset + size <= op.offset || op.offset + |op.buffer| <= offset
    ensures var names, was := Names(op.path), v[Names(op.path)];
      var v' := PlainStep(v, op).0;
      && names in v'
      && ReadOutcome(Some(v'[names]), size, offset) == (size, was.bytes[offset..offset + size])
      && ReadOutcome(Some(v'[names]), size, offset) == ReadOutcome(Some(was), size, offset)
  {
    hide FsUtil.Names, StoredBytes, Overwrite;
    var was := v[Names(op.path)];
    var intended := Overwrite(was.bytes, op.offset, op.buffer);
    StoredBytesExact(intended);
    OverwriteBytes(was.bytes, op.offset, op.buffer);
    var stored := StoredBytes(intended);
    assert stored[offset..offset + size] == intended[offset..offset + size] == was.bytes[offset..offset + size];
  }

  /** In a new file system there is the root, an empty directory. */
  lemma NewFileSystemShows(perms: nat, now: nat)
    ensures ViewOf(RootNode(perms, now)) == imap[[] := Entry(Stat(DIR, perms, 0, now), [])]
  {
    var t := RootNode(perms, now);
    EntryHere(t);
    forall p: seq<string>
      ensures EntryAt(t, p).Some? <==> p == []
    {
      if p != [] {
        EntryStep(t, p);
      }
    }
  }

  /** After a write, reading as much at the same place gives what was written, whatever the size of the
    * file. The file as a whole reads back as intended exactly when it fits in one block. */
  lemma ReadAfterWrite(v: View, op: Op)
    requires op.Write? && Names(op.path) in v
    requires CanWrite(Some(v[Names(op.path)]), op.offset)
    ensures var names, was := Names(op.path), v[Names(op.path)];
      var v' := PlainStep(v, op).0;
      var intended := Overwrite(was.bytes, op.offset, op.buffer);
      && names in v' && v'[names].stat == was.stat.(size := |intended|, time := op.now)
      && |intended| == Max(|was.bytes|, op.offset + |op.buffer|)
      && ReadOutcome(Some(v'[names]), |op.buffer|, op.offset) == (|op.buffer|, op.buffer)
      && (v'[names].bytes == intended <==> |intended| <= BYTES_PER_BLOCK)
  {
    hide FsUtil.Names, StoredBytes;
    var was := v[Names(op.path)];
    var intended := Overwrite(was.bytes, op.offset, op.buffer);
    StoredBytesExact(intended);
    var stored := StoredBytes(intended);
    assert stored[op.offset..op.offset + |op.buffer|] == intended[op.offset..op.offset + |op.buffer|];
    assert intended[op.offset..op.offset + |op.buffer|] == op.buffer;
  }

  /** A concrete path that loses its parent. */
  lemma DoubleSlashName()
    ensures Names("//x") == ["", "x"]
  {
    var p := "//x";
    assert p[0] == '/' && p[1] == '/' && p[2] == 'x' && |p| == 3;
    assert FindSeparator(p, 1) == 1 && FindSeparator(p, 2) == 3;
    SplitAt(p, 1);
    SplitAt(p, 2);
    assert p[1..1] == "" && p[2..] == "x";
  }

  /** In a new file system, making the directory "//x" returns success and makes "/x" instead. */
  lemma DoubleSlashExample(perms: nat, now: nat, later: nat)
    ensures var fs := Fs(RootNode(perms, now), 2);
      var op := Op.Mkdir("//x", perms, later);
      && (ViewOf(Step(fs, op).0.root), Step(fs, op).1) != PlainStep(ViewOf(fs.root), op)
  {
    var fs := Fs(RootNode(perms, now), 2);
    DoubleSlashName();
    RootAlone(perms, now, map[1 := RootNode(perms, now).ToBlock()]);
    EntryStep(fs.root, ["", "x"]);
    hide FsUtil.Names, EntryAt, Step, PlainStep, ViewOf, UniqueNames, Shape, Ordered, Distinct, Ids;
    StepRefines(fs, Op.Mkdir("//x", perms, later));
  }
}
