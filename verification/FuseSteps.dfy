/** The steps of the operations of `BlockFuse`: what holds of store and tree before the chain of blocks is
  * replaced, and that the store is in order again once the old blocks are freed. */
module FuseSteps {
  import opened Blocks
  import opened BlockTree
  import opened FileLayout
  import opened BlockManager
  import opened BlockUtil
  import opened FileWriter
  import opened PathSearch
  import opened FsUtil
  import opened FsTree
  import opened FsRefinement
  import opened FuseLemmas
  import opened Checkpoints

  function RootNode(perms: nat, now: nat): Node {
    Inode(1, SEPARATOR, Stat(DIR, perms, 0, now), [])
  }

  lemma RmdirPlan(m: Store, freed: multiset<BlockId>, fs: Fs, held: bool, op: Op)
    requires Before(m, freed, fs, held) && fs.root.Inode? && op.Rmdir?
    ensures var here := Resolve(fs.root, Names(op.path));
      var e := Plan(fs, op).0;
      && (here.None? || here.value == [] ==> Plan(fs, op) == (None, Ret(1)))
      && (here.Some? && here.value != [] ==>
           && Plan(fs, op).1 == Ret(0) && e.Some? && |e.value.dropped| == 1 && e.value.dropped[0].Inode?
           && IsPath(fs.root, e.value.pos)
           && Chain(fs.root, here.value) == Chain(fs.root, e.value.pos) + [e.value.dropped[0]])
      && Step(fs, op).1 == Plan(fs, op).1
  {
    hide At, FsUtil.Names, Apply, Resolve, Chain, Stored, Ids, Shape, Ordered, Conserves, NoLeak;
    var here := Resolve(fs.root, Names(op.path));
    if here.Some? && here.value != [] {
      var x, i := RemovedChild(fs, op.path);
      ChainMore(fs.root, Plan(fs, op).0.value.pos, i);
    }
  }

  lemma ParentIsNoLink(fs: Fs, path: Path, blocks: seq<Block>)
    requires fs.root.Inode? && Resolve(fs.root, Names(path)).Some?
    requires blocks == ToBlocks(Chain(fs.root, Resolve(fs.root, Names(path)).value)) && |blocks| > 1
    ensures !blocks[|blocks| - 2].data.Link?
  {
    hide FsUtil.Names, Resolve, Chain;
    ChainInodes(fs.root, Names(path));
    var c := Chain(fs.root, Resolve(fs.root, Names(path)).value);
    assert c[|c| - 2] in c;
  }

  lemma RmdirReady(m: Store, freed: multiset<BlockId>, fs: Fs, held: bool, op: Op)
    requires Before(m, freed, fs, held) && fs.root.Inode? && op.Rmdir? && Plan(fs, op).0.Some?
    ensures var e := Plan(fs, op).0.value;
      var end := At(fs.root, e.pos).ToBlock().data;
      && |e.dropped| == 1
      && SideStored(m, fs.root, e.pos) && ChainDistinct(fs.root, e.pos)
      && !end.FileContents? && CanRemove(end.Children(), [e.dropped[0].id])
      && e.n.ToBlock() == Block(fs.next, end.WithChildren(Removed(end.Children(), [e.dropped[0].id]) + []))
      && AllStored(m, e.n.Kids())
  {
    hide Stored, Ids, IdsAll, Conserves, NoLeak, Chain, SideStored, ChainDistinct, CanRemove, Removed, IsPath, At,
      FsUtil.Names, Resolve, ChildIndex, Sound, Shape, Ordered, Distinct;
    BeforeIsSound(m, freed, fs, held);
    var e := Plan(fs, op).0.value;
    var x, i := RemovedChild(fs, op.path);
    ChainReady(m, fs.root, e.pos);
    SoundBelow(m, fs.root, e.pos);
    RemoveChild(x.kids, i);
    assert Removed(RootIds(x.kids), [x.kids[i].id]) + [] == RootIds(RemoveAt(x.kids, i));
    assert forall k | k in RemoveAt(x.kids, i) :: k in x.kids;
  }

  /** After the chain is freed, everything below the removed inode is still there for the descent. */
  lemma RmdirFreed(m: Store, freed: multiset<BlockId>, fs: Fs, held: bool, op: Op, m1: Store, first: multiset<BlockId>)
    requires Before(m, freed, fs, held) && fs.root.Inode? && op.Rmdir? && Plan(fs, op).0.Some?
    requires var e := Plan(fs, op).0.value;
      && |e.dropped| == 1 && Grew(m, m1, fs.next, Apply(fs, e).next)
      && first == if held then multiset{} else multiset(RootIds(Chain(fs.root, e.pos) + [e.dropped[0]]))
    ensures var target := Plan(fs, op).0.value.dropped[0];
      && AllStored(Without(m1, first), target.Kids()) && Distinct(IdsAll(target.Kids()))
      && first + IdsAll(target.Kids()) == FreedBy(fs, op, held)
      && first + IdsAll(target.Kids()) <= Gone(fs, Plan(fs, op).0.value)
  {
    hide Stored, Ids, IdsAll, Conserves, NoLeak, Chain, ChainIds, IsPath, At, Plan, Apply, Grew, Shape, Ordered,
      Resolve, FsUtil.Names;
    var e := Plan(fs, op).0.value;
    var target := e.dropped[0];
    BeforeIsSound(m, freed, fs, held);
    RemovedTarget(m, fs, op);
    RmdirFrees(fs, op, held, first);
    PlansAreGood(fs, op);
    FreedByGone(fs, op, held);
    OnceGone(fs, e);
    forall i | i in IdsAll(target.Kids())
      ensures i !in first
    {
      assert FreedBy(fs, op, held)[i] == first[i] + IdsAll(target.Kids())[i];
      assert FreedBy(fs, op, held)[i] <= Gone(fs, e)[i];
    }
    AllStoredGrew(m, m1, fs.next, Apply(fs, e).next, target.Kids());
    AllStoredFrame(m1, Without(m1, first), target.Kids());
  }

  /** No id is dropped twice by one change. */
  lemma OnceGone(fs: Fs, e: Edit)
    requires FsInv(fs) && GoodEdit(fs, e)
    ensures forall i :: Gone(fs, e)[i] <= 1
  {
    hide Ids, IdsAll, Gone, Apply, IsPath, At, Shape, Ordered;
    EditIds(fs, e);
    forall i: BlockId
      ensures Gone(fs, e)[i] <= 1
    {
      assert Ids(Apply(fs, e).root)[i] + Gone(fs, e)[i] == Ids(fs.root)[i] + Range(fs.next, Apply(fs, e).next)[i];
    }
  }

  lemma RemovedTarget(m: Store, fs: Fs, op: Op)
    requires Sound(m, fs.root) && fs.root.Inode? && op.Rmdir? && Plan(fs, op).0.Some?
    ensures var e := Plan(fs, op).0.value;
      && |e.dropped| == 1 && AllStored(m, e.dropped[0].Kids()) && Distinct(IdsAll(e.dropped[0].Kids()))
  {
    hide Ids, IdsAll, IsPath, At, Resolve, FsUtil.Names, Stored, Shape, Distinct, Sound;
    var x, i := RemovedChild(fs, op.path);
    SoundBelow(m, fs.root, Plan(fs, op).0.value.pos);
    SoundKid(m, x, i);
    SoundKids(m, x.kids[i]);
  }

  lemma RmdirFrees(fs: Fs, op: Op, held: bool, first: multiset<BlockId>)
    requires fs.root.Inode? && op.Rmdir? && Plan(fs, op).0.Some?
    requires var e := Plan(fs, op).0.value;
      && |e.dropped| == 1
      && first == if held then multiset{} else multiset(RootIds(Chain(fs.root, e.pos) + [e.dropped[0]]))
    ensures first + IdsAll(Plan(fs, op).0.value.dropped[0].Kids()) == FreedBy(fs, op, held)
  {
    hide Plan, Ids, IdsAll, ChainIds, IsPath, At, Chain;
    var e := Plan(fs, op).0.value;
    var target := e.dropped[0];
    assert e.dropped == [target];
    IdsAllOne(target);
    IdsSplit(target);
    ChainBlockIds(fs.root, e.pos);
    assert RootIds(Chain(fs.root, e.pos) + [target]) == RootIds(Chain(fs.root, e.pos)) + [target.id];
  }

  lemma RmdirDone(m: Store, freed: multiset<BlockId>, fs: Fs, held: bool, op: Op, m1: Store, first: multiset<BlockId>)
    requires Before(m, freed, fs, held) && fs.root.Inode? && op.Rmdir? && Plan(fs, op).0.Some?
    requires var e := Plan(fs, op).0.value;
      && |e.dropped| == 1 && Stored(m1, Apply(fs, e).root) && Grew(m, m1, fs.next, Apply(fs, e).next)
      && first + IdsAll(e.dropped[0].Kids()) == FreedBy(fs, op, held)
      && first + IdsAll(e.dropped[0].Kids()) <= Gone(fs, e)
    ensures var below := IdsAll(Plan(fs, op).0.value.dropped[0].Kids());
      var m' := Without(Without(m1, first), below);
      && Step(fs, op).0 == Apply(fs, Plan(fs, op).0.value)
      && freed + first + below == freed + FreedBy(fs, op, held)
      && Before(m', freed + FreedBy(fs, op, held), Step(fs, op).0, held)
      && Changed(m, m', fs.next, Step(fs, op).0.next, FreedBy(fs, op, held))
  {
    hide FsInv, Plan, Stored, Grew, Ids, IdsAll, Conserves, NoLeak, ChainIds, Without, IsPath, At, Graft, Changed,
      Apply, FreedBy, Gone;
    var e := Plan(fs, op).0.value;
    var below := IdsAll(e.dropped[0].Kids());
    WithoutTwice(m1, first, below);
    SumAssoc(freed, first, below);
    GrewThenFreed(m, m1, fs.next, Apply(fs, e).next, first + below);
    CallDone(m, freed, fs, op, held, m1, first + below);
  }

  /** The call is a write that goes ahead with the given contents. */
  ghost predicate IsWrite(fs: Fs, op: Op, contents: seq<Byte>, now: nat) {
    && op.Write? && op.now == now && fs.root.Inode? && Plan(fs, op).0.Some?
    && var e := Plan(fs, op).0.value;
       && At(fs.root, e.pos).Inode? && e.n == Rewritten(At(fs.root, e.pos), fs.next, contents, now)
       && e.dropped == At(fs.root, e.pos).kids
  }

  lemma WritePlan(fs: Fs, op: Op)
    requires fs.root.Inode? && op.Write?
    ensures var here := Resolve(fs.root, Names(op.path));
      && (here.None? ==> Plan(fs, op) == (None, Ret(-ENOENT)))
      && (here.Some? ==>
           var x := At(fs.root, here.value);
           && x.Inode?
           && (x.stat.IsDir() ==> Plan(fs, op) == (None, Ret(-EISDIR)))
           && (!x.stat.IsDir() && !(0 <= op.offset <= |Flatten(x.kids)|) ==> Plan(fs, op) == (None, Ret(-1)))
           && (!x.stat.IsDir() && 0 <= op.offset <= |Flatten(x.kids)| ==>
                && Plan(fs, op).0.Some? && Plan(fs, op).0.value.pos == here.value
                && IsWrite(fs, op, Overwrite(Flatten(x.kids), op.offset, op.buffer), op.now)
                && Plan(fs, op).1 == Ret(|op.buffer|)))
      && Step(fs, op).1 == Plan(fs, op).1
  {
    hide At, FsUtil.Names, Apply, Resolve, Flatten, Overwrite, Rewritten;
    if Resolve(fs.root, Names(op.path)).Some? {
      FindsInodes(fs.root, Names(op.path));
    }
  }

  lemma NoFileKids(m: Store, next: BlockId)
    ensures FileKids([], next) == [] && FileKidsCount(0) == 0 && Grew(m, m, next, next) && AllStored(m, [])
    ensures RootIds([]) == []
  {
  }

  lemma WriteReady(m: Store, freed: multiset<BlockId>, fs: Fs, held: bool, op: Op, contents: seq<Byte>, now: nat,
                   mB: Store, mid: BlockId)
    requires Before(m, freed, fs, held) && IsWrite(fs, op, contents, now)
    requires var x := At(fs.root, Plan(fs, op).0.value.pos);
      && Grew(Without(m, IdsAll(x.kids)), mB, fs.next, mid)
      && mid == fs.next + FileKidsCount(|contents|) && AllStored(mB, FileKids(contents, fs.next))
    ensures var e := Plan(fs, op).0.value;
      var end := At(fs.root, e.pos).ToBlock().data;
      && SideStored(mB, fs.root, e.pos) && ChainDistinct(fs.root, e.pos)
      && end.DirFile? && CanRemove(end.children, end.children)
      && e.n.ToBlock() == Block(mid, DirFile(end.name, end.stat.(size := |contents|, time := now),
           Removed(end.children, end.children) + RootIds(FileKids(contents, fs.next))))
      && AllStored(mB, e.n.Kids())
  {
    hide FsInv, Plan, Stored, Ids, IdsAll, Conserves, NoLeak, Chain, SideStored, ChainDistinct, CanRemove, Removed,
      IsPath, At, FileKids, FileKidsCount, Grew, Without, Sound;
    BeforeIsSound(m, freed, fs, held);
    var e := Plan(fs, op).0.value;
    var x := At(fs.root, e.pos);
    ChainReady(m, fs.root, e.pos);
    IdsSplit(x);
    SideWithout(m, fs.root, e.pos, IdsAll(x.kids));
    SideGrew(Without(m, IdsAll(x.kids)), mB, fs.next, mid, fs.root, e.pos);
    RemoveEverything(x.ToBlock().data.children);
    assert [] + RootIds(e.n.kids) == RootIds(e.n.kids);
  }

  lemma WriteDone(m: Store, freed: multiset<BlockId>, fs: Fs, held: bool, op: Op, m1: Store, gone: multiset<BlockId>)
    requires Before(m, freed, fs, held) && fs.root.Inode? && op.Write? && Plan(fs, op).0.Some?
    requires var e := Plan(fs, op).0.value;
      && Stored(m1, Apply(fs, e).root)
      && Grew(Without(m, IdsAll(e.dropped)), m1, fs.next, Apply(fs, e).next)
      && IdsAll(e.dropped) == IdsAll(At(fs.root, e.pos).Kids())
      && gone == if held then multiset{} else multiset(RootIds(Chain(fs.root, e.pos)))
    ensures var below := IdsAll(Plan(fs, op).0.value.dropped);
      && Step(fs, op).0 == Apply(fs, Plan(fs, op).0.value)
      && freed + below + gone == freed + FreedBy(fs, op, held)
      && Before(Without(m1, gone), freed + FreedBy(fs, op, held), Step(fs, op).0, held)
      && Changed(m, Without(m1, gone), fs.next, Step(fs, op).0.next, FreedBy(fs, op, held))
  {
    hide FsInv, Plan, Stored, Grew, Ids, IdsAll, Conserves, NoLeak, Chain, ChainIds, Without, IsPath, At,
      Graft, Changed, Apply, Sound;
    var e := Plan(fs, op).0.value;
    var below := IdsAll(e.dropped);
    ChainBlockIds(fs.root, e.pos);
    WriteFrees(fs, op, held, gone);
    BelowNext(m, freed, fs, held, e.pos);
    FreedGrewFreed(m, below, m1, fs.next, Apply(fs, e).next, gone);
    SumAssoc(freed, below, gone);
    CallDone(m, freed, fs, op, held, m1, gone);
  }

  lemma BelowNext(m: Store, freed: multiset<BlockId>, fs: Fs, held: bool, pos: seq<nat>)
    requires Before(m, freed, fs, held) && IsPath(fs.root, pos)
    ensures forall i | i in IdsAll(At(fs.root, pos).Kids()) :: i in m && i < fs.next
  {
    hide Conserves, NoLeak, IsPath, At, Ids, IdsAll, Stored;
    BeforeIsSound(m, freed, fs, held);
    SoundBelow(m, fs.root, pos);
    AllStoredIds(m, At(fs.root, pos).Kids());
  }

  lemma WriteFrees(fs: Fs, op: Op, held: bool, gone: multiset<BlockId>)
    requires fs.root.Inode? && op.Write? && Plan(fs, op).0.Some?
    requires var e := Plan(fs, op).0.value;
      gone == if held then multiset{} else ChainIds(fs.root, e.pos) + multiset{At(fs.root, e.pos).id}
    ensures FreedBy(fs, op, held) == IdsAll(Plan(fs, op).0.value.dropped) + gone
    ensures gone <= Gone(fs, Plan(fs, op).0.value)
  {
    hide Plan, Ids, IdsAll, ChainIds, IsPath, At;
  }

  lemma LastPart(path: Path)
    requires Names(path) != []
    ensures |Parts(path)| > 1 && Parts(path)[|Parts(path)| - 1] == LastName(path)
  {
    hide Parts;
    PartsStartAtRoot(path);
  }

  lemma CreatePlanned(fs: Fs, op: Op)
    requires fs.root.Inode? && op.Create?
    ensures var stat := Stat(op.mode.fileType, op.mode.perms, 0, op.now);
      var here, names := Resolve(fs.root, Names(op.path)), Names(op.path);
      && (here.None? ==> names != [])
      && (here.Some? ==> Plan(fs, op) == (None, Ret(-EEXIST)))
      && (here.None? && Resolve(fs.root, ParentNames(op.path)).None? ==> Plan(fs, op) == (None, Ret(-ENOENT)))
      && (here.None? && Resolve(fs.root, ParentNames(op.path)).Some? ==>
           && Plan(fs, op).0.Some? && Plan(fs, op).0 == AddInode(fs, op.path, stat)
           && Plan(fs, op).0.value.pos == Resolve(fs.root, ParentNames(op.path)).value)
      && Step(fs, op).1 == Plan(fs, op).1
      && (here.None? && Plan(fs, op).0.Some? ==>
           Plan(fs, op).1 == if Resolve(Step(fs, op).0.root, names).Some? then Ret(0) else AssertFailed)
  {
    hide At, ParentNames, LastName, FsUtil.Names, Apply, WithChild;
    RootResolves(fs.root);
  }

  lemma NothingChanged(m: Store, next: BlockId)
    ensures Changed(m, m, next, next, multiset{})
  {
  }

  lemma NoMoreFrees(gone: multiset<BlockId>)
    ensures gone + multiset{} == gone
  {
  }

  lemma {:induction false} RunGrows(fs: Fs, ops: seq<Op>)
    requires FsInv(fs)
    ensures fs.next <= Run(fs, ops).0.next
    decreases |ops|
  {
    hide Step, FreedBy, Shape, Ordered, Distinct, Ids;
    if ops != [] {
      FreedAreOlder(fs, ops[0], true);
      StepInv(fs, ops[0]);
      RunGrows(Step(fs, ops[0]).0, ops[1..]);
    }
  }

  lemma StepInv(fs: Fs, op: Op)
    requires FsInv(fs)
    ensures FsInv(Step(fs, op).0)
  {
    hide Step, Plan, Gone;
    StepKeepsInv(fs, op);
  }

  lemma PartsStartAtRoot(path: Path)
    ensures Parts(path) == [SEPARATOR] + Names(path)
  {
  }

  /** A call that changes nothing. */
  lemma NothingDone(m: Store, freed: multiset<BlockId>, fs: Fs, held: bool, op: Op)
    requires Before(m, freed, fs, held) && fs.root.Inode? && Plan(fs, op).0.None?
    ensures Step(fs, op).0 == fs && FreedBy(fs, op, held) == multiset{}
    ensures freed + multiset{} == freed && Changed(m, m, fs.next, fs.next, multiset{})
  {
    hide Plan, Before;
  }

  lemma AddReady(m: Store, freed: multiset<BlockId>, fs: Fs, held: bool, op: Op, stat: Stat, m': Store)
    requires Before(m, freed, fs, held) && Names(op.path) != []
    requires AddInode(fs, op.path, stat).Some?
    requires m' == m[fs.next := Block(fs.next, DirFile(LastName(op.path), stat, []))]
    ensures var e := AddInode(fs, op.path, stat).value;
      var end := At(fs.root, e.pos).ToBlock();
      && SideStored(m', fs.root, e.pos) && ChainDistinct(fs.root, e.pos)
      && !end.data.FileContents? && CanRemove(end.data.Children(), [])
      && e.n.ToBlock() == Block(fs.next + 1,
           end.data.WithChildren(Removed(end.data.Children(), []) + [fs.next]))
      && AllStored(m', e.n.Kids())
  {
    hide FsInv, Stored, Ids, IdsAll, Conserves, NoLeak, Chain, SideStored, ChainDistinct, CanRemove, Removed,
      FsUtil.Names, ParentNames, LastName, IsPath, At, Resolve;
    BeforeIsSound(m, freed, fs, held);
    var e := AddInode(fs, op.path, stat).value;
    FindsInodes(fs.root, ParentNames(op.path));
    var x := At(fs.root, e.pos);
    var child := Inode(fs.next, LastName(op.path), stat, []);
    GrewByOne(m, m', fs.next);
    ChainReady(m, fs.root, e.pos);
    SideGrew(m, m', fs.next, fs.next + 1, fs.root, e.pos);
    RemoveNothing(x.ToBlock().data.Children());
    SoundBelow(m, fs.root, e.pos);
    AllStoredGrew(m, m', fs.next, fs.next + 1, x.kids);
    NewInodeStored(m', child);
    AllStoredSnoc(m', x.kids, child);
    assert RootIds(x.kids + [child]) == RootIds(x.kids) + [fs.next];
  }

  lemma NewInodeStored(m: Store, child: Node)
    requires child.Inode? && child.kids == [] && child.id in m && m[child.id] == child.ToBlock()
    ensures Stored(m, child)
  {
  }

  lemma GrewByOne(m: Store, m': Store, lo: BlockId)
    requires (forall i | i in m :: i < lo) && lo in m' && m' == m[lo := m'[lo]]
    ensures Grew(m, m', lo, lo + 1)
  {
  }

  lemma AddDone(m: Store, freed: multiset<BlockId>, fs: Fs, held: bool, op: Op, stat: Stat, m1: Store,
                gone: multiset<BlockId>)
    requires Before(m, freed, fs, held) && (op.Mkdir? || op.Create?) && Names(op.path) != []
    requires Plan(fs, op).0.Some? && Plan(fs, op).0 == AddInode(fs, op.path, stat)
    requires var e := Plan(fs, op).0.value;
      && Stored(m1, Apply(fs, e).root) && Grew(m, m1, fs.next, Apply(fs, e).next)
      && gone == if held then multiset{} else multiset(RootIds(Chain(fs.root, e.pos)))
    ensures gone == FreedBy(fs, op, held) && Step(fs, op).0 == Apply(fs, Plan(fs, op).0.value)
    ensures Before(Without(m1, gone), freed + gone, Step(fs, op).0, held)
    ensures Changed(m, Without(m1, gone), fs.next, Step(fs, op).0.next, gone)
  {
    hide Stored, Grew, Ids, Conserves, NoLeak, Chain, ChainIds, Without, FsUtil.Names, LastName, IsPath, At,
      Graft, Changed, Apply;
    var e := Plan(fs, op).0.value;
    ChainBlockIds(fs.root, e.pos);
    NoIds();
    AddFrees(fs, op, stat, held);
    GrewThenFreed(m, m1, fs.next, Apply(fs, e).next, gone);
    FreedByGone(fs, op, held);
    CallDone(m, freed, fs, op, held, m1, gone);
  }

  lemma AddFrees(fs: Fs, op: Op, stat: Stat, held: bool)
    requires FsInv(fs) && (op.Mkdir? || op.Create?) && Names(op.path) != []
    requires Plan(fs, op).0.Some? && Plan(fs, op).0 == AddInode(fs, op.path, stat)
    ensures var e := Plan(fs, op).0.value;
      FreedBy(fs, op, held) == if held then multiset{} else ChainIds(fs.root, e.pos) + multiset{At(fs.root, e.pos).id}
  {
    hide Plan, Ids, ChainIds, IsPath, At, FsUtil.Names;
    NoIds();
  }

  lemma RootResolves(t: Node)
    ensures Resolve(t, []) == Some([]) && IsPath(t, []) && At(t, []) == t && Chain(t, []) == [t]
  {
  }

  lemma RootAlone(perms: nat, now: nat, m: Store)
    requires m == map[1 := RootNode(perms, now).ToBlock()]
    ensures var t := RootNode(perms, now);
      Before(m, multiset{}, Fs(t, 2), false) && UniqueNames(t)
  {
    var t := RootNode(perms, now);
    assert IdsAll(t.kids) == multiset{};
    RangeOne(1);
  }

  lemma RangeOne(lo: BlockId)
    ensures Range(lo, lo + 1) == multiset{lo}
  {
  }
}
