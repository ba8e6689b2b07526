/** The block tree implements a plain file system: a map from paths to attributes and bytes. */
module FsRefinement {
  import opened Blocks
  import opened BlockTree
  import opened FileLayout
  import opened FsUtil
  import opened FsTree

  /** A file system as its user sees it. A path is the list of names that follow the root. */
  type View = imap<seq<string>, Entry>

  function EntryAt(t: Node, p: seq<string>): Option<Entry>
    requires t.Inode?
  {
    if Resolve(t, p).None? then None else
      FindsInodes(t, p);
      Some(EntryOf(At(t, Resolve(t, p).value)))
  }

  ghost function ViewOf(t: Node): View
    requires t.Inode?
  {
    imap p: seq<string> | EntryAt(t, p).Some? :: EntryAt(t, p).value
  }

  function DropLast(names: seq<string>): seq<string>
    requires names != []
  {
    names[..|names| - 1]
  }

  // ----- the plain file system

  /** What a call should do. Writing a file hides whatever was made below its path, and stores
    * `StoredBytes` of the new contents; removing a path removes all paths below it. */
  ghost function PlainStep(v: View, op: Op): (View, Outcome) {
    match op
    case Mkdir(path, perms, now) =>
      if !CanAdd(v, Names(path)) then (v, Ret(1))
      else (v[Names(path) := Entry(Stat(DIR, perms, 1, now), [])], Ret(0))
    case Create(path, mode, now) =>
      if Names(path) == [] || Names(path) in v then (v, Ret(-EEXIST))
      else if DropLast(Names(path)) !in v then (v, Ret(-ENOENT))
      else (v[Names(path) := Entry(Stat(mode.fileType, mode.perms, 0, now), [])], Ret(0))
    case Write(path, buffer, offset, now) =>
      if Names(path) !in v then (v, Ret(-ENOENT))
      else if v[Names(path)].stat.IsDir() then (v, Ret(-EISDIR))
      else if !(0 <= offset <= |v[Names(path)].bytes|) then (v, Ret(-1))
      else (PlainWrite(v, Names(path), PlainWritten(v[Names(path)], buffer, offset, now)), Ret(|buffer|))
    case Rmdir(path) =>
      if Names(path) == [] || Names(path) !in v then (v, Ret(1)) else (PlainRemove(v, Names(path)), Ret(0))
  }

  ghost predicate CanAdd(v: View, names: seq<string>) {
    names != [] && names !in v && DropLast(names) in v
  }

  function PlainWritten(was: Entry, buffer: seq<Byte>, offset: nat, now: nat): Entry
    requires offset <= |was.bytes|
  {
    var contents := Overwrite(was.bytes, offset, buffer);
    Entry(was.stat.(size := |contents|, time := now), StoredBytes(contents))
  }

  ghost function PlainWrite(v: View, names: seq<string>, entry: Entry): View {
    imap p | p in v && !(names < p) :: if p == names then entry else v[p]
  }

  ghost function PlainRemove(v: View, names: seq<string>): View {
    imap p | p in v && !(names <= p) :: v[p]
  }

  /** A path to create of the form "//name": its parent is looked up as "/" instead of as the
    * directory with the empty name. */
  predicate LosesParent(op: Op) {
    (op.Mkdir? || op.Create?) && |Names(op.path)| == 2 && Names(op.path)[0] == ""
  }

  lemma ParentNamesAre(path: Path)
    requires Names(path) != []
    ensures ParentNames(path) == if |Names(path)| == 2 && Names(path)[0] == "" then [] else DropLast(Names(path))
  {
    hide FsUtil.Parts, FsUtil.Names, FsUtil.Joined;
    var up := DropLast(Names(path));
    NamesAreSeparatorFree(path);
    SeparateUndoesJoin(up);
    NamesOfParts(Joined([SEPARATOR] + up));
    assert up == [""] <==> |Names(path)| == 2 && Names(path)[0] == "";
  }

  lemma NamesOfParts(path: Path)
    ensures Names(path) == Parts(path)[1..]
  {
  }

  /** The codes that calls return, as numbers, and when. */
  lemma PlainCodes(v: View, op: Op)
    ensures var names, outcome := Names(op.path), PlainStep(v, op).1;
      match op
      case Mkdir(_, _, _) => outcome == Ret(if names != [] && names !in v && DropLast(names) in v then 0 else 1)
      case Create(_, _, _) =>
        outcome == Ret(if names == [] || names in v then -17 else if DropLast(names) in v then 0 else -2)
      case Write(_, buffer, offset, _) =>
        outcome == Ret(if names !in v then -2 else if v[names].stat.fileType == DIR then -21
                       else if offset < 0 || |v[names].bytes| < offset then -1 else |buffer|)
      case Rmdir(_) => outcome == Ret(if names != [] && names in v then 0 else 1)
  {
    hide FsUtil.Names, Overwrite, StoredBytes;
  }

  /** What a call that makes a path shows there. */
  lemma MadePathShows(v: View, op: Op)
    requires (op.Mkdir? || op.Create?) && CanAdd(v, Names(op.path))
    ensures var names, v' := Names(op.path), PlainStep(v, op).0;
      && names in v' && v'[names].bytes == []
      && (op.Mkdir? ==> v'[names].stat == Stat(DIR, op.perms, 1, op.now))
      && (op.Create? ==> v'[names].stat == Stat(op.mode.fileType, op.mode.perms, 0, op.now))
      && forall p | p != names :: (p in v' <==> p in v) && (p in v ==> v'[p] == v[p])
  {
    hide FsUtil.Names;
  }

  // ----- lookups around one change

  lemma GraftEntries(t: Node, q: seq<string>, n: Node, p: seq<string>)
    requires UniqueNames(t) && t.Inode? && n.Inode? && Resolve(t, q).Some?
    requires SameName(n, At(t, Resolve(t, q).value)) && At(t, Resolve(t, q).value).Inode?
    ensures var t' := Graft(t, Resolve(t, q).value, n);
      t'.Inode? && EntryAt(t', p) == if q <= p then EntryAt(n, p[|q|..]) else EntryAt(t, p)
  {
    hide EntryOf, Resolve, At, UniqueNames;
    GraftKeepsName(t, Resolve(t, q).value, n);
    FindInGraft(t, q, n, p);
  }

  lemma {:induction false} EntryBelow(t: Node, q: seq<string>, p: seq<string>)
    requires t.Inode? && Resolve(t, q).Some? && q <= p
    ensures At(t, Resolve(t, q).value).Inode?
    ensures EntryAt(t, p) == EntryAt(At(t, Resolve(t, q).value), p[|q|..])
  {
    hide EntryOf, ChildIndex;
    FindsInodes(t, q);
    FindBelow(t, q, p);
  }

  lemma {:induction false} FindBelow(t: Node, q: seq<string>, p: seq<string>)
    requires Resolve(t, q).Some? && q <= p
    ensures Find(t, p) == Find(At(t, Resolve(t, q).value), p[|q|..])
    decreases |q|
  {
    hide ChildIndex, Find;
    if q == [] {
      assert p[0..] == p;
    } else {
      var i := ResolveStep(t, q);
      FindStep(t, p);
      FindBelow(t.Kids()[i], q[1..], p[1..]);
      assert p[1..][|q| - 1..] == p[|q|..];
    }
  }

  lemma EntryStep(t: Node, r: seq<string>)
    requires t.Inode? && r != []
    ensures var i := ChildIndex(t.kids, r[0]);
      EntryAt(t, r) == if i == |t.kids| then None else EntryAt(t.kids[i], r[1..])
  {
    hide ChildIndex, EntryOf;
    FindStep(t, r);
  }

  lemma EntryHere(t: Node)
    requires t.Inode?
    ensures EntryAt(t, []) == Some(EntryOf(t))
  {
  }

  /** A new child shows under its name, unless an older sibling of that name hides it. */
  lemma AddedEntry(x: Node, next: BlockId, name: string, stat: Stat, r: seq<string>)
    requires x.Inode?
    ensures EntryAt(WithChild(x, next, name, stat), r)
         == if r == [name] && EntryAt(x, [name]).None? then Some(Entry(stat, [])) else EntryAt(x, r)
  {
    hide EntryAt, Flatten, ChildIndex;
    var child := Inode(next, name, stat, []);
    var n := WithChild(x, next, name, stat);
    if r == [] {
      EntryHere(x);
      EntryHere(n);
      FlattenConcat(x.kids, [child]);
      FlattenOne(child);
      assert Flatten(x.kids) + [] == Flatten(x.kids);
    } else {
      EntryStep(x, r);
      EntryStep(n, r);
      EntryStep(x, [name]);
      ChildIndexAppended(x.kids, child, r[0]);
      if ChildIndex(x.kids, r[0]) == |x.kids| && r[0] == name {
        EntryOfNewInode(child, r[1..]);
        assert r[1..] == [] <==> r == [name];
      } else if r == [name] {
        assert r[1..] == [] == [name][1..];
        EntryHere(x.kids[ChildIndex(x.kids, name)]);
      }
    }
  }

  lemma EntryOfNewInode(child: Node, r: seq<string>)
    requires child.Inode? && child.kids == []
    ensures EntryAt(child, r) == if r == [] then Some(Entry(child.stat, [])) else None
  {
    if r != [] {
      EntryStep(child, r);
    }
  }

  lemma ChildIndexAppended(ts: seq<Node>, child: Node, name: string)
    ensures var i, i' := ChildIndex(ts, name), ChildIndex(ts + [child], name);
      i' == if i == |ts| && !child.IsNamed(name) then |ts| + 1 else i
  {
    hide ChildIndex;
    var ts' := ts + [child];
    var i, i' := ChildIndex(ts, name), ChildIndex(ts', name);
    assert forall j :: 0 <= j < |ts| ==> ts'[j] == ts[j];
    assert ts'[|ts|] == child;
    assert i < |ts| ==> ts'[i].IsNamed(name);
  }

  lemma FileHasNoPathsBelow(n: Node, bound: BlockId, r: seq<string>)
    requires n.Inode? && AreContents(n.kids, bound)
    ensures EntryAt(n, r) == if r == [] then Some(EntryOf(n)) else None
  {
    if r != [] {
      EntryStep(n, r);
      forall j | 0 <= j < |n.kids|
        ensures !n.kids[j].IsNamed(r[0])
      {
        assert n.kids[j] in n.kids;
      }
    }
  }

  lemma RemovedEntry(x: Node, i: nat, id: BlockId, r: seq<string>)
    requires x.Inode? && i < |x.kids| && x.kids[i].Inode? && DistinctNames(x.kids)
    ensures EntryAt(x.With(id, RemoveAt(x.kids, i)), r)
         == if r != [] && r[0] == x.kids[i].name then None else EntryAt(x, r)
  {
    hide EntryAt, Flatten, ChildIndex;
    var n := x.With(id, RemoveAt(x.kids, i));
    if r == [] {
      EntryHere(x);
      EntryHere(n);
      FlattenWithoutInode(x.kids, i);
    } else {
      EntryStep(x, r);
      EntryStep(n, r);
      ChildAfterRemoval(x.kids, i, r[0]);
    }
  }

  lemma ChildAfterRemoval(ts: seq<Node>, i: nat, name: string)
    requires i < |ts| && ts[i].Inode? && DistinctNames(ts)
    ensures var ts' := RemoveAt(ts, i);
      var j, j' := ChildIndex(ts, name), ChildIndex(ts', name);
      && (name == ts[i].name ==> j' == |ts'|)
      && (name != ts[i].name ==> (j == |ts| <==> j' == |ts'|))
      && (name != ts[i].name && j < |ts| ==> ts'[j'] == ts[j])
  {
    hide ChildIndex;
    var ts' := RemoveAt(ts, i);
    var j, j' := ChildIndex(ts, name), ChildIndex(ts', name);
    if name != ts[i].name && j < |ts| {
      ChildIndexIs(ts', if j < i then j else j - 1, name);
    } else {
      forall x | 0 <= x < |ts'|
        ensures !ts'[x].IsNamed(name)
      {
        assert ts'[x] == ts[if x < i then x else x + 1];
      }
    }
  }

  // ----- one change, as the paths show it

  lemma SubtreeNames(t: Node, pos: seq<nat>)
    requires IsPath(t, pos) && UniqueNames(t)
    ensures UniqueNames(At(t, pos)) && DistinctNames(At(t, pos).Kids())
  {
    SubtreeInv(t, pos);
  }

  lemma AddShows(fs: Fs, path: Path, stat: Stat, p: seq<string>)
    requires FsInv(fs) && UniqueNames(fs.root) && Names(path) != [] && AddInode(fs, path, stat).Some?
    ensures var t' := Apply(fs, AddInode(fs, path, stat).value).root;
      && t'.Inode?
      && EntryAt(t', p) ==
         if p == ParentNames(path) + [LastName(path)] && EntryAt(fs.root, p).None?
         then Some(Entry(stat, [])) else EntryAt(fs.root, p)
  {
    hide Graft, At, Resolve, EntryOf, ParentNames, FsUtil.Names, LastName, WithChild, UniqueNames, Shape, Ordered;
    var q, name := ParentNames(path), LastName(path);
    var e := AddInode(fs, path, stat).value;
    FindsInodes(fs.root, q);
    var x := At(fs.root, e.pos);
    WithChildName(x, fs.next, name, stat);
    GraftEntries(fs.root, q, e.n, p);
    if q <= p {
      EntryBelow(fs.root, q, p);
      AddedEntry(x, fs.next, name, stat, p[|q|..]);
      assert p == q + p[|q|..];
      assert p[|q|..] == [name] <==> p == q + [name];
    }
  }

  lemma WithChildName(x: Node, next: BlockId, name: string, stat: Stat)
    requires x.Inode?
    ensures SameName(WithChild(x, next, name, stat), x) && WithChild(x, next, name, stat).Inode?
  {
  }

  lemma WriteShows(fs: Fs, op: Op, p: seq<string>)
    requires FsInv(fs) && UniqueNames(fs.root) && op.Write? && Plan(fs, op).0.Some?
    ensures var t' := Step(fs, op).0.root;
      var q := Names(op.path);
      && CanWrite(EntryAt(fs.root, q), op.offset)
      && EntryAt(t', p) ==
         if q < p then None
         else if p == q then Some(PlainWritten(EntryAt(fs.root, q).value, op.buffer, op.offset, op.now))
         else EntryAt(fs.root, p)
  {
    hide Graft, At, Resolve, FsUtil.Names, UniqueNames, Shape, Ordered, Flatten, FileKids, FileKidsCount,
      IsContent, Overwrite, StoredBytes;
    var q := Names(op.path);
    var e := Plan(fs, op).0.value;
    FindsInodes(fs.root, q);
    var x := At(fs.root, e.pos);
    var contents := Overwrite(Flatten(x.kids), op.offset, op.buffer);
    FileKidsMean(contents, fs.next);
    GraftEntries(fs.root, q, e.n, p);
    if q <= p {
      FileHasNoPathsBelow(e.n, e.n.id, p[|q|..]);
      assert p[|q|..] == [] <==> p == q;
    }
  }

  predicate CanWrite(was: Option<Entry>, offset: int) {
    was.Some? && !was.value.stat.IsDir() && 0 <= offset <= |was.value.bytes|
  }

  lemma RmdirShows(fs: Fs, op: Op, p: seq<string>)
    requires FsInv(fs) && UniqueNames(fs.root) && op.Rmdir? && Plan(fs, op).0.Some?
    ensures var t' := Step(fs, op).0.root;
      && Names(op.path) != []
      && EntryAt(t', p) == if Names(op.path) <= p then None else EntryAt(fs.root, p)
  {
    hide Graft, At, Resolve, FsUtil.Names, UniqueNames, Shape, Ordered, Flatten, PlanRmdir, ChildIndex, EntryAt,
      DistinctNames, Ids, RemoveAt;
    var names := Names(op.path);
    var e := Plan(fs, op).0.value;
    var x, i := RemovedChild(fs, op.path);
    var q, name := DropLast(names), LastName(op.path);
    SubtreeNames(fs.root, e.pos);
    GraftEntries(fs.root, q, e.n, p);
    if q <= p {
      EntryBelow(fs.root, q, p);
      RemovedEntry(x, i, fs.next, p[|q|..]);
      NamesBelow(names, p);
    }
  }

  lemma NamesBelow(names: seq<string>, p: seq<string>)
    requires names != [] && DropLast(names) <= p
    ensures var r := p[|names| - 1..];
      names <= p <==> r != [] && r[0] == names[|names| - 1]
  {
    if |p| >= |names| {
      assert p[..|names|] == p[..|names| - 1] + [p[|names| - 1]];
      assert names == DropLast(names) + [names[|names| - 1]];
    }
  }

  // ----- the main results

  lemma PlansAreGood(fs: Fs, op: Op)
    requires FsInv(fs) && Plan(fs, op).0.Some?
    ensures GoodEdit(fs, Plan(fs, op).0.value)
  {
    hide GoodEdit, Shape, Ordered, Distinct, Ids, AddInode, FsUtil.Names, Find;
    match op
    case Mkdir(path, perms, now) => AddIsGood(fs, path, Stat(DIR, perms, 1, now));
    case Create(path, mode, now) => AddIsGood(fs, path, Stat(mode.fileType, mode.perms, 0, now));
    case Write(_, _, _, _) => WriteIsGood(fs, op);
    case Rmdir(_) => RmdirIsGood(fs, op);
  }

  /** Every call keeps the invariants, whatever its path, and accounts for every id: those in the new
    * tree and those freed are those in the old tree and those handed out. */
  lemma StepKeepsInv(fs: Fs, op: Op)
    requires FsInv(fs)
    ensures FsInv(Step(fs, op).0)
    ensures var e := Plan(fs, op).0;
      forall i :: Ids(Step(fs, op).0.root)[i] + (if e.Some? then Gone(fs, e.value)[i] else 0)
               == Ids(fs.root)[i] + Range(fs.next, Step(fs, op).0.next)[i]
  {
    assert fs.root.Inode?;
    hide Shape, Ordered, Distinct, Ids, GoodEdit, Gone, Ids, Apply, Plan;
    var e := Plan(fs, op).0;
    if e.Some? {
      PlansAreGood(fs, op);
      EditKeepsInv(fs, e.value);
      EditIds(fs, e.value);
    } else {
      RangeEmpty(fs.next);
    }
  }

  /** The calls that go wrong: a new path "//name" that does not resolve yet. */
  predicate Diverges(fs: Fs, op: Op)
    requires fs.root.Inode?
  {
    LosesParent(op) && EntryAt(fs.root, Names(op.path)).None?
  }

  lemma AddPlanned(fs: Fs, path: Path, stat: Stat)
    requires fs.root.Inode? && Names(path) != []
    ensures AddInode(fs, path, stat).Some? <==> EntryAt(fs.root, ParentNames(path)).Some?
  {
    hide Graft, At, ParentNames, FsUtil.Names, EntryOf;
  }

  lemma FoundIffEntry(t: Node, names: seq<string>)
    requires t.Inode?
    ensures Find(t, names).Some? <==> EntryAt(t, names).Some?
  {
    hide EntryOf;
  }

  lemma LastOfNames(path: Path)
    requires Names(path) != []
    ensures DropLast(Names(path)) + [LastName(path)] == Names(path)
  {
    hide FsUtil.Names;
  }

  /** The parameters with which a call creates an inode. */
  function NewStat(op: Op): Stat
    requires op.Mkdir? || op.Create?
  {
    if op.Mkdir? then Stat(DIR, op.perms, 1, op.now) else Stat(op.mode.fileType, op.mode.perms, 0, op.now)
  }

  /** When a call that creates an inode goes ahead, and what the paths then show. */
  lemma AddRefines(fs: Fs, op: Op)
    requires FsInv(fs) && UniqueNames(fs.root) && (op.Mkdir? || op.Create?) && !Diverges(fs, op)
    ensures Plan(fs, op).0.Some? <==> CanAdd(ViewOf(fs.root), Names(op.path))
    ensures Plan(fs, op).0.Some? ==>
      ViewOf(Step(fs, op).0.root) == ViewOf(fs.root)[Names(op.path) := Entry(NewStat(op), [])]
  {
    hide AddInode, Apply, EntryAt, FsUtil.Names, ParentNames, LastName, UniqueNames, Shape, Ordered, Distinct, Ids,
      Find, DropLast;
    var names, t := Names(op.path), fs.root;
    if names != [] {
      AddPlanned(fs, op.path, NewStat(op));
      ParentNamesAre(op.path);
      LastOfNames(op.path);
      FoundIffEntry(t, names);
      if Plan(fs, op).0.Some? {
        var t' := Step(fs, op).0.root;
        forall p
          ensures EntryAt(t', p) == if p == names then Some(Entry(NewStat(op), [])) else EntryAt(t, p)
        {
          AddShows(fs, op.path, NewStat(op), p);
        }
      }
    }
  }

  lemma MkdirRefines(fs: Fs, op: Op)
    requires FsInv(fs) && UniqueNames(fs.root) && op.Mkdir? && !Diverges(fs, op)
    ensures (ViewOf(Step(fs, op).0.root), Step(fs, op).1) == PlainStep(ViewOf(fs.root), op)
  {
    hide AddInode, Apply, EntryAt, FsUtil.Names, UniqueNames, Shape, Ordered, Distinct, Ids, Find, ViewOf, CanAdd;
    AddRefines(fs, op);
  }

  lemma CreateRefines(fs: Fs, op: Op)
    requires FsInv(fs) && UniqueNames(fs.root) && op.Create? && !Diverges(fs, op)
    ensures (ViewOf(Step(fs, op).0.root), Step(fs, op).1) == PlainStep(ViewOf(fs.root), op)
  {
    hide AddInode, Apply, EntryAt, FsUtil.Names, UniqueNames, Shape, Ordered, Distinct, Ids, Find, ViewOf;
    AddRefines(fs, op);
    ViewHas(fs.root, Names(op.path));
    ViewHas(Step(fs, op).0.root, Names(op.path));
  }

  lemma ViewHas(t: Node, names: seq<string>)
    requires t.Inode?
    ensures Find(t, names).Some? <==> names in ViewOf(t)
  {
    FoundIffEntry(t, names);
  }

  lemma WriteRefines(fs: Fs, op: Op)
    requires FsInv(fs) && UniqueNames(fs.root) && op.Write?
    ensures (ViewOf(Step(fs, op).0.root), Step(fs, op).1) == PlainStep(ViewOf(fs.root), op)
  {
    hide Apply, EntryAt, FsUtil.Names, UniqueNames, Shape, Ordered, Distinct, Ids, PlainWritten, Step;
    WritePlanned(fs, op);
    if Plan(fs, op).0.Some? {
      var t, t', names := fs.root, Step(fs, op).0.root, Names(op.path);
      WriteShows(fs, op, names);
      forall p
        ensures EntryAt(t', p)
          == if names < p then None
             else if p == names then Some(PlainWritten(EntryAt(t, names).value, op.buffer, op.offset, op.now))
             else EntryAt(t, p)
      {
        WriteShows(fs, op, p);
      }
      assert ViewOf(t') == PlainWrite(ViewOf(t), names,
        PlainWritten(EntryAt(t, names).value, op.buffer, op.offset, op.now));
    }
  }

  lemma WritePlanned(fs: Fs, op: Op)
    requires fs.root.Inode? && op.Write?
    ensures var was := EntryAt(fs.root, Names(op.path));
      && (Plan(fs, op).0.Some? <==> CanWrite(was, op.offset))
      && (Plan(fs, op).0.None? ==> Step(fs, op).0 == fs)
      && Step(fs, op).1 == Ret(if was.None? then -ENOENT else if was.value.stat.IsDir() then -EISDIR
                               else if !CanWrite(was, op.offset) then -1 else |op.buffer|)
  {
    hide FsUtil.Names, Resolve, At, Flatten, FileKids, FileKidsCount, Overwrite, Apply;
  }

  lemma RmdirRefines(fs: Fs, op: Op)
    requires FsInv(fs) && UniqueNames(fs.root) && op.Rmdir?
    ensures (ViewOf(Step(fs, op).0.root), Step(fs, op).1) == PlainStep(ViewOf(fs.root), op)
  {
    hide Apply, EntryAt, FsUtil.Names, UniqueNames, Shape, Ordered, Distinct, Ids, Step;
    RmdirPlanned(fs, op);
    if Plan(fs, op).0.Some? {
      var t, t', names := fs.root, Step(fs, op).0.root, Names(op.path);
      forall p
        ensures EntryAt(t', p) == if names <= p then None else EntryAt(t, p)
      {
        RmdirShows(fs, op, p);
      }
      assert ViewOf(t') == PlainRemove(ViewOf(t), names);
    }
  }

  lemma RmdirPlanned(fs: Fs, op: Op)
    requires fs.root.Inode? && op.Rmdir?
    ensures Plan(fs, op).0.Some? <==> Names(op.path) != [] && EntryAt(fs.root, Names(op.path)).Some?
    ensures Plan(fs, op).0.None? ==> Step(fs, op).0 == fs
    ensures Step(fs, op).1 == Ret(if Plan(fs, op).0.Some? then 0 else 1)
  {
    hide FsUtil.Names, Resolve, At, Apply, EntryOf;
  }

  /** A call on "//name" that finds no such path never does what it should: it looks in the wrong parent. */
  lemma DivergingStep(fs: Fs, op: Op)
    requires FsInv(fs) && UniqueNames(fs.root) && Diverges(fs, op)
    ensures (ViewOf(Step(fs, op).0.root), Step(fs, op).1) != PlainStep(ViewOf(fs.root), op)
  {
    hide AddInode, Apply, FsUtil.Names, ParentNames, LastName, UniqueNames, Shape, Ordered, Distinct, Ids, Find,
      EntryAt;
    var names := Names(op.path);
    AddPlanned(fs, op.path, NewStat(op));
    ParentNamesAre(op.path);
    EntryHere(fs.root);
    FoundIffEntry(fs.root, names);
    var t' := Step(fs, op).0.root;
    AddShows(fs, op.path, NewStat(op), names);
    FoundIffEntry(t', names);
    assert names !in ViewOf(t');
  }

  /** The refinement theorem: a call does to the paths what the plain file system does, and returns
    * the same code, unless it creates a path of the form "//name", in which case it never does. */
  lemma StepRefines(fs: Fs, op: Op)
    requires FsInv(fs) && UniqueNames(fs.root)
    ensures FsInv(Step(fs, op).0)
    ensures (ViewOf(Step(fs, op).0.root), Step(fs, op).1) == PlainStep(ViewOf(fs.root), op) <==> !Diverges(fs, op)
  {
    StepKeepsInv(fs, op);
    hide Shape, Ordered, Distinct, Ids, Step, PlainStep, ViewOf, UniqueNames, FsUtil.Names, EntryAt;
    if Diverges(fs, op) {
      DivergingStep(fs, op);
    } else {
      match op
      case Mkdir(_, _, _) => MkdirRefines(fs, op);
      case Create(_, _, _) => CreateRefines(fs, op);
      case Write(_, _, _, _) => WriteRefines(fs, op);
      case Rmdir(_) => RmdirRefines(fs, op);
    }
  }

  lemma AddKeepsUniqueNames(fs: Fs, path: Path, stat: Stat)
    requires FsInv(fs) && UniqueNames(fs.root) && Names(path) != [] && AddInode(fs, path, stat).Some?
    ensures UniqueNames(Apply(fs, AddInode(fs, path, stat).value).root)
       <==> EntryAt(fs.root, ParentNames(path) + [LastName(path)]).None?
  {
    var q, name := ParentNames(path), LastName(path);
    var e := AddInode(fs, path, stat).value;
    AddIsGood(fs, path, stat);
    EditKeepsInv(fs, e);
    SubtreeNames(fs.root, e.pos);
    FindsInodes(fs.root, q);
    var x := At(fs.root, e.pos);
    hide FsUtil.Names, ParentNames, LastName, EntryAt, At, Shape, Ordered, Ids, IdsAll, ChildIndex;
    EntryBelow(fs.root, q, q + [name]);
    assert (q + [name])[|q|..] == [name];
    NamesAfterAdd(x, fs.next, name, stat);
  }

  lemma NamesAfterAdd(x: Node, next: BlockId, name: string, stat: Stat)
    requires x.Inode? && UniqueNames(x)
    ensures UniqueNames(WithChild(x, next, name, stat)) <==> EntryAt(x, [name]).None?
  {
    hide ChildIndex;
    var child := Inode(next, name, stat, []);
    var i := ChildIndex(x.kids, name);
    EntryStep(x, [name]);
    assert [name][1..] == [];
    assert (x.kids + [child])[|x.kids|] == child;
    if i < |x.kids| {
      EntryHere(x.kids[i]);
      assert (x.kids + [child])[i] == x.kids[i];
      assert !DistinctNames(x.kids + [child]);
    } else {
      assert DistinctNames(x.kids + [child]);
      assert UniqueNames(child);
    }
  }

  /** Sibling names stay distinct, except that "//name" can add a second child `name` to the root. */
  lemma StepKeepsUniqueNames(fs: Fs, op: Op)
    requires FsInv(fs) && UniqueNames(fs.root)
    ensures UniqueNames(Step(fs, op).0.root)
       <==> !(Diverges(fs, op) && EntryAt(fs.root, [LastName(op.path)]).Some?)
  {
    hide AddInode, Apply, EntryAt, FsUtil.Names, ParentNames, LastName, Shape, Ordered, Distinct, Ids, GoodEdit, Find,
      DropLast, UniqueNames, PlanWrite, PlanRmdir;
    var e := Plan(fs, op).0;
    if op.Mkdir? || op.Create? {
      if Names(op.path) != [] {
        AddPlanned(fs, op.path, NewStat(op));
        ParentNamesAre(op.path);
        LastOfNames(op.path);
        EntryHere(fs.root);
        FoundIffEntry(fs.root, Names(op.path));
        if e.Some? {
          AddKeepsUniqueNames(fs, op.path, NewStat(op));
        }
        assert [] + [LastName(op.path)] == [LastName(op.path)];
      }
    } else if e.Some? {
      PlansAreGood(fs, op);
      EditKeepsInv(fs, e.value);
      if op.Write? {
        WriteIsGood(fs, op);
      } else {
        RmdirIsGood(fs, op);
      }
    }
  }

  // ----- whole runs

  /** A run stops where an assertion of the program fails. */
  function Run(fs: Fs, ops: seq<Op>): (r: (Fs, seq<Outcome>))
    requires fs.root.Inode?
    ensures r.0.root.Inode?
    decreases |ops|
  {
    if ops == [] then (fs, [])
    else
      var (fs', outcome) := Step(fs, ops[0]);
      if outcome.AssertFailed? then (fs', [outcome])
      else
        var (last, outcomes) := Run(fs', ops[1..]);
        (last, [outcome] + outcomes)
  }

  ghost function PlainRun(v: View, ops: seq<Op>): (View, seq<Outcome>) {
    if ops == [] then (v, [])
    else
      var (v', outcome) := PlainStep(v, ops[0]);
      var (last, outcomes) := PlainRun(v', ops[1..]);
      (last, [outcome] + outcomes)
  }

  /** Over every run that creates no path "//name", the tree of blocks shows what the plain file
    * system holds, every call returns what it should, and the invariants stay. */
  lemma {:induction false} RunRefines(fs: Fs, ops: seq<Op>)
    requires FsInv(fs) && UniqueNames(fs.root)
    requires forall op | op in ops :: !LosesParent(op)
    ensures var (last, outcomes) := Run(fs, ops);
      && FsInv(last) && UniqueNames(last.root)
      && (ViewOf(last.root), outcomes) == PlainRun(ViewOf(fs.root), ops)
    decreases |ops|
  {
    hide Step, PlainStep, ViewOf, Shape, Ordered, Distinct, Ids, UniqueNames, LosesParent, EntryAt;
    if ops != [] {
      NeverDiverges(fs, ops[0]);
      StepRefines(fs, ops[0]);
      StepKeepsUniqueNames(fs, ops[0]);
      PlainReturns(ViewOf(fs.root), ops[0]);
      RunRefines(Step(fs, ops[0]).0, ops[1..]);
    }
  }

  /** What is seen after each call of a run, and what it returned. */
  ghost function Trace(fs: Fs, ops: seq<Op>): seq<(View, Outcome)>
    requires fs.root.Inode?
    decreases |ops|
  {
    if ops == [] then []
    else
      var (fs', outcome) := Step(fs, ops[0]);
      [(ViewOf(fs'.root), outcome)] + if outcome.AssertFailed? then [] else Trace(fs', ops[1..])
  }

  ghost function PlainTrace(v: View, ops: seq<Op>): seq<(View, Outcome)> {
    if ops == [] then [] else [PlainStep(v, ops[0])] + PlainTrace(PlainStep(v, ops[0]).0, ops[1..])
  }

  /** Whether some call of a run creates a path "//name" that does not resolve when the call is made. */
  predicate RunDiverges(fs: Fs, ops: seq<Op>)
    requires fs.root.Inode?
    decreases |ops|
  {
    ops != [] && (Diverges(fs, ops[0]) || RunDiverges(Step(fs, ops[0]).0, ops[1..]))
  }

  /** A run is at every moment what it should be exactly if no call of it diverges. */
  lemma {:induction false} RunRefinesIff(fs: Fs, ops: seq<Op>)
    requires FsInv(fs) && UniqueNames(fs.root)
    ensures Trace(fs, ops) == PlainTrace(ViewOf(fs.root), ops) <==> !RunDiverges(fs, ops)
    decreases |ops|
  {
    hide Step, PlainStep, ViewOf, Shape, Ordered, Distinct, Ids, UniqueNames, Diverges, EntryAt;
    if ops != [] {
      var (fs', outcome) := Step(fs, ops[0]);
      StepRefines(fs, ops[0]);
      var plain := PlainTrace(ViewOf(fs.root), ops);
      assert plain[0] == PlainStep(ViewOf(fs.root), ops[0]);
      assert plain[1..] == PlainTrace(PlainStep(ViewOf(fs.root), ops[0]).0, ops[1..]);
      if Diverges(fs, ops[0]) {
        assert Trace(fs, ops)[0] != plain[0];
      } else {
        StepKeepsUniqueNames(fs, ops[0]);
        PlainReturns(ViewOf(fs.root), ops[0]);
        RunRefinesIff(fs', ops[1..]);
        assert Trace(fs, ops)[0] == plain[0];
        assert Trace(fs, ops)[1..] == Trace(fs', ops[1..]);
      }
    }
  }

  lemma PlainReturns(v: View, op: Op)
    ensures PlainStep(v, op).1.Ret?
  {
    hide FsUtil.Names, Overwrite, StoredBytes, PlainWrite, PlainRemove;
  }

  lemma NeverDiverges(fs: Fs, op: Op)
    requires FsInv(fs) && !LosesParent(op)
    ensures fs.root.Inode? && !Diverges(fs, op)
  {
  }
}
