/** What each file system operation does to the tree of blocks, and what that means for the paths a
  * user sees (lib/src/fs/block_fuse.cc). `BlockFuse` implements `Step`. */
module FsTree {
  import opened Blocks
  import opened BlockTree
  import opened FileLayout
  import opened FsUtil

  const ENOENT: int := 2
  const EEXIST: int := 17
  const EISDIR: int := 21

  type Path = p: string | p != "" witness "/"

  datatype Mode = Mode(fileType: FileType, perms: nat)

  /** A call, with the time at which it is made. */
  datatype Op =
    | Mkdir(path: Path, perms: nat, now: nat)
    | Create(path: Path, mode: Mode, now: nat)
    | Write(path: Path, buffer: seq<Byte>, offset: int, now: nat)
    | Rmdir(path: Path)

  /** What a call returns; `AssertFailed` when an assertion of the program stops it. */
  datatype Outcome = Ret(code: int) | AssertFailed

  /** The tree from the root block on, and the next id to be handed out. */
  datatype Fs = Fs(root: Node, next: BlockId)

  /** The names that lead to the parent as the program finds it: the last part is dropped, the rest is
    * joined to a path again, and that path is resolved. */
  function ParentNames(path: Path): seq<string>
    requires Names(path) != []
  {
    var names := Names(path);
    NamesAreSeparatorFree(path);
    SeparateUndoesJoin(names[..|names| - 1]);
    Names(Joined([SEPARATOR] + names[..|names| - 1]))
  }

  function LastName(path: Path): string
    requires Names(path) != []
  {
    var names := Names(path);
    names[|names| - 1]
  }

  /** The inode at a position, grown by one new child with id `next`. */
  function WithChild(x: Node, next: BlockId, name: string, stat: Stat): Node
    requires x.Inode?
  {
    x.With(next + 1, x.kids + [Inode(next, name, stat, [])])
  }

  /** The one change that a successful call makes: the inode at `pos` gives way to `n`, and the
    * children `dropped` of the old inode go. */
  datatype Edit = Edit(pos: seq<nat>, n: Node, dropped: seq<Node>)

  function Apply(fs: Fs, e: Edit): Fs
    requires IsPath(fs.root, e.pos)
  {
    Fs(Graft(fs.root, e.pos, e.n), e.n.id + 1 + |e.pos|)
  }

  /** Creating an inode: `None` when the parent does not resolve. */
  function AddInode(fs: Fs, path: Path, stat: Stat): (e: Option<Edit>)
    requires fs.root.Inode? && Names(path) != []
    ensures e.Some? ==> IsPath(fs.root, e.value.pos) && e.value.n.Inode?
  {
    match Resolve(fs.root, ParentNames(path))
    case None => None
    case Some(pos) =>
      FindsInodes(fs.root, ParentNames(path));
      Some(Edit(pos, WithChild(At(fs.root, pos), fs.next, LastName(path), stat), []))
  }

  /** `std::string::replace(offset, n, buffer, n)` with `n` the size of the buffer. */
  function Overwrite(bytes: seq<Byte>, offset: nat, buffer: seq<Byte>): seq<Byte>
    requires offset <= |bytes|
  {
    bytes[..offset] + buffer + bytes[Min(offset + |buffer|, |bytes|)..]
  }

  /** Byte by byte: the buffer where it was written, the old bytes everywhere else, before it and behind it. */
  lemma OverwriteBytes(bytes: seq<Byte>, offset: nat, buffer: seq<Byte>)
    requires offset <= |bytes|
    ensures var written := Overwrite(bytes, offset, buffer);
      && |written| == Max(|bytes|, offset + |buffer|)
      && (forall i | 0 <= i < |written| ::
            written[i] == if offset <= i < offset + |buffer| then buffer[i - offset] else bytes[i])
  {
  }

  /** The inode of a file after a write. */
  function Rewritten(x: Node, next: BlockId, contents: seq<Byte>, now: nat): Node
    requires x.Inode?
  {
    Inode(next + FileKidsCount(|contents|), x.name, x.stat.(size := |contents|, time := now),
      FileKids(contents, next))
  }

  /** The change a call makes to the tree, if any, and what it returns. */
  function Plan(fs: Fs, op: Op): (r: (Option<Edit>, Outcome))
    requires fs.root.Inode?
    ensures r.0.Some? ==> IsPath(fs.root, r.0.value.pos) && r.0.value.n.Inode?
  {
    match op
    case Mkdir(path, perms, now) => PlanMkdir(fs, path, perms, now)
    case Create(path, mode, now) => PlanCreate(fs, path, mode, now)
    case Write(path, buffer, offset, now) => PlanWrite(fs, path, buffer, offset, now)
    case Rmdir(path) => PlanRmdir(fs, path)
  }

  function Step(fs: Fs, op: Op): (r: (Fs, Outcome))
    requires fs.root.Inode?
    ensures r.0.root.Inode?
  {
    var (e, outcome) := Plan(fs, op);
    (if e.Some? then Apply(fs, e.value) else fs, outcome)
  }

  function PlanMkdir(fs: Fs, path: Path, perms: nat, now: nat): (r: (Option<Edit>, Outcome))
    requires fs.root.Inode?
    ensures r.0.Some? ==> IsPath(fs.root, r.0.value.pos) && r.0.value.n.Inode?
  {
    if Names(path) == [] || Find(fs.root, Names(path)).Some? then (None, Ret(1))
    else
      var e := AddInode(fs, path, Stat(DIR, perms, 1, now));
      (e, if e.Some? then Ret(0) else Ret(1))
  }

  function PlanCreate(fs: Fs, path: Path, mode: Mode, now: nat): (r: (Option<Edit>, Outcome))
    requires fs.root.Inode?
    ensures r.0.Some? ==> IsPath(fs.root, r.0.value.pos) && r.0.value.n.Inode?
  {
    if Names(path) == [] || Find(fs.root, Names(path)).Some? then (None, Ret(-EEXIST))
    else
      var e := AddInode(fs, path, Stat(mode.fileType, mode.perms, 0, now));
      (e, if e.None? then Ret(-ENOENT)
          else if Find(Apply(fs, e.value).root, Names(path)).Some? then Ret(0)
          else AssertFailed)
  }

  function PlanWrite(fs: Fs, path: Path, buffer: seq<Byte>, offset: int, now: nat): (r: (Option<Edit>, Outcome))
    requires fs.root.Inode?
    ensures r.0.Some? ==> IsPath(fs.root, r.0.value.pos) && r.0.value.n.Inode?
  {
    match Resolve(fs.root, Names(path))
    case None => (None, Ret(-ENOENT))
    case Some(pos) =>
      FindsInodes(fs.root, Names(path));
      var x := At(fs.root, pos);
      if x.stat.IsDir() then (None, Ret(-EISDIR))
      else
        var bytes := Flatten(x.kids);
        if !(0 <= offset <= |bytes|) then (None, Ret(-1))
        else
          var n := Rewritten(x, fs.next, Overwrite(bytes, offset, buffer), now);
          (Some(Edit(pos, n, x.kids)), Ret(|buffer|))
  }

  function PlanRmdir(fs: Fs, path: Path): (r: (Option<Edit>, Outcome))
    requires fs.root.Inode?
    ensures r.0.Some? ==> IsPath(fs.root, r.0.value.pos) && r.0.value.n.Inode?
  {
    match Resolve(fs.root, Names(path))
    case None => (None, Ret(1))
    case Some(pos) =>
      if pos == [] then (None, Ret(1))
      else
        PathStep(fs.root, pos, |pos| - 1);
        var up := pos[..|pos| - 1];
        var i := pos[|pos| - 1];
        var x := At(fs.root, up);
        UpIsInode(fs.root, Names(path));
        (Some(Edit(up, x.With(fs.next, RemoveAt(x.kids, i)), [x.kids[i]])), Ret(0))
  }

  // ----- invariants

  /** What holds between calls: a tree without sharing, of the right form, with ids in order. */
  ghost predicate FsInv(fs: Fs) {
    && fs.root.Inode?
    && fs.root.stat.IsDir()
    && Distinct(Ids(fs.root))
    && (forall i :: i in Ids(fs.root) ==> i < fs.next)
    && Shape(fs.root)
    && Ordered(fs.root)
  }

  /** The part of `FsInv` about ids, for a tree of which `gone` was dropped and ids from `lo` on were added. */
  lemma IdsAfter(t: Node, t': Node, gone: multiset<BlockId>, lo: BlockId, hi: BlockId)
    requires Distinct(Ids(t)) && forall i :: i in Ids(t) ==> i < lo
    requires forall i :: Ids(t')[i] + gone[i] == Ids(t)[i] + Range(lo, hi)[i]
    requires lo <= hi
    ensures Distinct(Ids(t')) && forall i :: i in Ids(t') ==> i < hi
    ensures gone <= Ids(t) + Range(lo, hi)
  {
    hide Ids, Range;
    forall i | i in Ids(t')
      ensures Ids(t')[i] == 1 && i < hi
    {
      assert Ids(t')[i] + gone[i] == Ids(t)[i] + Range(lo, hi)[i];
    }
  }

  /** Replacing the inode at a position drops the old chain and whatever children are not kept. */
  lemma RebuiltIds(t: Node, pos: seq<nat>, n: Node, dropped: multiset<BlockId>, lo: BlockId, i: BlockId)
    requires IsPath(t, pos) && At(t, pos).Inode? && n.Inode? && lo <= n.id
    requires IdsAll(n.kids)[i] + dropped[i] == IdsAll(At(t, pos).kids)[i] + Range(lo, n.id)[i]
    ensures Ids(Graft(t, pos, n))[i] + (ChainIds(t, pos) + multiset{At(t, pos).id} + dropped)[i]
         == Ids(t)[i] + Range(lo, n.id + 1 + |pos|)[i]
  {
    hide Ids, IdsAll, IsPath, At, Graft, ChainIds, Range;
    GraftIds(t, pos, n, i);
    IdsUnfold(n, i);
    IdsUnfold(At(t, pos), i);
  }

  /** The ids that a change frees: the old chain and everything below the dropped children. */
  ghost function Gone(fs: Fs, e: Edit): multiset<BlockId>
    requires IsPath(fs.root, e.pos)
  {
    ChainIds(fs.root, e.pos) + multiset{At(fs.root, e.pos).id} + IdsAll(e.dropped)
  }

  /** A change that keeps the name and type of its inode, builds a regular subtree, and accounts for
    * every id it adds or drops. */
  ghost predicate GoodEdit(fs: Fs, e: Edit) {
    && IsPath(fs.root, e.pos) && At(fs.root, e.pos).Inode? && e.n.Inode?
    && SameName(e.n, At(fs.root, e.pos))
    && e.n.stat.fileType == At(fs.root, e.pos).stat.fileType
    && Shape(e.n) && Ordered(e.n) && fs.next <= e.n.id
    && forall i :: IdsAll(e.n.kids)[i] + IdsAll(e.dropped)[i]
                == IdsAll(At(fs.root, e.pos).kids)[i] + Range(fs.next, e.n.id)[i]
  }

  lemma EditIds(fs: Fs, e: Edit)
    requires GoodEdit(fs, e)
    ensures forall i :: Ids(Apply(fs, e).root)[i] + Gone(fs, e)[i]
                     == Ids(fs.root)[i] + Range(fs.next, Apply(fs, e).next)[i]
  {
    hide Ids, IdsAll, IsPath, At, Graft, ChainIds, Range, Shape, Ordered;
    forall i
      ensures Ids(Apply(fs, e).root)[i] + Gone(fs, e)[i]
           == Ids(fs.root)[i] + Range(fs.next, Apply(fs, e).next)[i]
    {
      RebuiltIds(fs.root, e.pos, e.n, IdsAll(e.dropped), fs.next, i);
    }
  }

  lemma EditKeepsInv(fs: Fs, e: Edit)
    requires FsInv(fs) && GoodEdit(fs, e)
    ensures FsInv(Apply(fs, e))
    ensures UniqueNames(fs.root) ==> (UniqueNames(Apply(fs, e).root) <==> UniqueNames(e.n))
  {
    hide Ids, IdsAll, IsPath, At, ChainIds, Range, Shape, Ordered, UniqueNames, Distinct;
    var root' := Graft(fs.root, e.pos, e.n);
    EditIds(fs, e);
    IdsAfter(fs.root, root', Gone(fs, e), fs.next, Apply(fs, e).next);
    GraftShape(fs.root, e.pos, e.n);
    RootBelowNext(fs);
    GraftOrdered(fs.root, e.pos, e.n);
    GraftKeepsType(fs.root, e.pos, e.n);
    if UniqueNames(fs.root) {
      GraftUniqueNames(fs.root, e.pos, e.n);
    }
  }

  lemma RootBelowNext(fs: Fs)
    requires FsInv(fs)
    ensures fs.root.id < fs.next
  {
    assert fs.root.id in Ids(fs.root);
  }

  lemma GraftKeepsType(t: Node, pos: seq<nat>, n: Node)
    requires IsPath(t, pos) && t.Inode? && n.Inode? && At(t, pos).Inode?
    requires n.stat.fileType == At(t, pos).stat.fileType
    ensures Graft(t, pos, n).Inode? && Graft(t, pos, n).stat.fileType == t.stat.fileType
  {
  }

  lemma SubtreeInv(t: Node, pos: seq<nat>)
    requires IsPath(t, pos)
    ensures Shape(t) ==> Shape(At(t, pos))
    ensures Ordered(t) ==> Ordered(At(t, pos)) && At(t, pos).id <= t.id
    ensures UniqueNames(t) ==> UniqueNames(At(t, pos))
    decreases |pos|
  {
    if pos != [] {
      assert t.Kids()[pos[0]] in t.Kids();
      SubtreeInv(t.Kids()[pos[0]], pos[1..]);
    }
  }

  lemma AddIsGood(fs: Fs, path: Path, stat: Stat)
    requires FsInv(fs) && Names(path) != [] && AddInode(fs, path, stat).Some?
    ensures GoodEdit(fs, AddInode(fs, path, stat).value)
  {
    hide Ids, IsPath, At, Range, UniqueNames, Distinct, Resolve, FsUtil.Names, ParentNames;
    var e := AddInode(fs, path, stat).value;
    var x := At(fs.root, e.pos);
    FindsInodes(fs.root, ParentNames(path));
    SubtreeInv(fs.root, e.pos);
    RootBelowNext(fs);
    var child := Inode(fs.next, LastName(path), stat, []);
    assert Shape(child) && Ordered(child);
    ChildIds(child);
    hide IdsAll;
    IdsAllConcat(x.kids, [child]);
  }

  lemma ChildIds(child: Node)
    requires child.Inode? && child.kids == []
    ensures IdsAll([child]) == multiset{child.id} && IdsAll([]) == multiset{}
  {
    IdsAllOne(child);
  }

  lemma WriteIsGood(fs: Fs, op: Op)
    requires FsInv(fs) && op.Write? && Plan(fs, op).0.Some?
    ensures GoodEdit(fs, Plan(fs, op).0.value)
    ensures UniqueNames(Plan(fs, op).0.value.n)
  {
    hide Ids, IdsAll, IsPath, At, Range, Distinct, Resolve, FsUtil.Names, FileKids, FileKidsCount, IsContent;
    var e := Plan(fs, op).0.value;
    var x := At(fs.root, e.pos);
    FindsInodes(fs.root, Names(op.path));
    var contents := Overwrite(Flatten(x.kids), op.offset, op.buffer);
    FileKidsMean(contents, fs.next);
    ContentsBelowFile(e.n);
  }

  lemma ContentsBelowFile(n: Node)
    requires n.Inode? && !n.stat.IsDir() && AreContents(n.kids, n.id)
    ensures Shape(n) && Ordered(n) && UniqueNames(n)
  {
  }

  lemma RmdirIsGood(fs: Fs, op: Op)
    requires FsInv(fs) && op.Rmdir? && Plan(fs, op).0.Some?
    ensures GoodEdit(fs, Plan(fs, op).0.value)
    ensures UniqueNames(fs.root) ==> UniqueNames(Plan(fs, op).0.value.n)
  {
    var e := Plan(fs, op).0.value;
    var x, i := RemovedChild(fs, op.path);
    SubtreeInv(fs.root, e.pos);
    RootBelowNext(fs);
    hide Ids, IdsAll, IsPath, At, Range, Distinct, Resolve, FsUtil.Names;
    IdsAllRemove(x.kids, i);
    IdsAllOne(x.kids[i]);
    RemovedKids(x, i, fs.next);
    RangeEmpty(fs.next);
  }

  lemma RangeEmpty(lo: BlockId)
    ensures Range(lo, lo) == multiset{}
  {
  }

  /** The directory above a path, and the position of the path's inode in it. */
  lemma RemovedChild(fs: Fs, path: Path) returns (x: Node, i: nat)
    requires fs.root.Inode? && PlanRmdir(fs, path).0.Some?
    ensures var e := PlanRmdir(fs, path).0.value;
      && x == At(fs.root, e.pos) && x.Inode?
      && i < |x.kids| && x.kids[i].Inode?
      && e.n == x.With(fs.next, RemoveAt(x.kids, i)) && e.dropped == [x.kids[i]]
      && Names(path) != []
      && Resolve(fs.root, Names(path)) == Some(e.pos + [i])
      && Resolve(fs.root, Names(path)[..|Names(path)| - 1]) == Some(e.pos)
      && i == ChildIndex(x.kids, LastName(path))
  {
    hide FsUtil.Names, At, IsPath;
    var names := Names(path);
    var pos := Resolve(fs.root, names).value;
    PathStep(fs.root, pos, |pos| - 1);
    assert pos[..|pos| - 1] + [pos[|pos| - 1]] == pos;
    assert pos[..|pos|] == pos;
    x, i := At(fs.root, pos[..|pos| - 1]), pos[|pos| - 1];
    ResolveSnoc(fs.root, names);
    FindsInodes(fs.root, names);
    FindsInodes(fs.root, names[..|names| - 1]);
  }

  lemma RemovedKids(x: Node, i: nat, id: BlockId)
    requires x.Inode? && i < |x.kids| && Shape(x) && Ordered(x) && x.id < id
    ensures Shape(x.With(id, RemoveAt(x.kids, i))) && Ordered(x.With(id, RemoveAt(x.kids, i)))
    ensures UniqueNames(x) ==> UniqueNames(x.With(id, RemoveAt(x.kids, i)))
  {
    forall k | k in RemoveAt(x.kids, i)
      ensures k in x.kids
    {
    }
  }
}
