/** File systems in which only directories hold paths. The program takes any inode for a parent
  * (lib/src/fs/block_fuse.cc:127-134, 509-532), so this is kept exactly by the calls that name a directory. */
module ProperTrees {
  import opened Blocks
  import opened BlockTree
  import opened FileLayout
  import opened FsUtil
  import opened FsTree
  import opened FsRefinement
  import opened FuseSteps

  // ----- what is seen

  ghost predicate NothingBelow(v: View, q: seq<string>) {
    forall p | p in v :: !(q < p)
  }

  /** Every path but the root lies in a directory. */
  ghost predicate Proper(v: View) {
    forall p | p in v && p != [] :: DropLast(p) in v && v[DropLast(p)].stat.IsDir()
  }

  /** A write changes the entry at its own path and no other exactly if nothing lies below that path. */
  lemma WriteTouchesOwnPathIff(v: View, q: seq<string>, entry: Entry)
    requires q in v
    ensures PlainWrite(v, q, entry) == v[q := entry] <==> NothingBelow(v, q)
  {
    var written := PlainWrite(v, q, entry);
    if p :| p in v && q < p {
      assert p in v[q := entry] && p !in written;
    }
  }

  /** In a proper view nothing lies below a file. */
  lemma {:induction false} NothingBelowFile(v: View, q: seq<string>, p: seq<string>)
    requires Proper(v) && q in v && !v[q].stat.IsDir() && q < p
    ensures p !in v
    decreases |p|
  {
    var up := DropLast(p);
    assert |up| == |q| ==> up == q;
    if |up| > |q| {
      NothingBelowFile(v, q, up);
    }
  }

  /** A new path keeps the view proper exactly if its parent is a directory. */
  lemma AddKeepsProperIff(v: View, names: seq<string>, entry: Entry)
    requires Proper(v) && CanAdd(v, names)
    ensures Proper(v[names := entry]) <==> v[DropLast(names)].stat.IsDir()
  {
    var v' := v[names := entry];
    assert names in v' && DropLast(names) != names;
    forall p | p in v && p != []
      ensures DropLast(p) != names
    {
    }
  }

  /** A call that goes ahead and makes a path below a file. */
  ghost predicate AddsToFile(v: View, op: Op) {
    && (op.Mkdir? || op.Create?)
    && CanAdd(v, Names(op.path))
    && !v[DropLast(Names(op.path))].stat.IsDir()
  }

  lemma StepKeepsProperIff(v: View, op: Op)
    requires Proper(v)
    ensures Proper(PlainStep(v, op).0) <==> !AddsToFile(v, op)
  {
    hide FsUtil.Names, Overwrite, StoredBytes;
    var names := Names(op.path);
    match op
    case Mkdir(_, perms, now) =>
      if CanAdd(v, names) {
        AddKeepsProperIff(v, names, Entry(Stat(DIR, perms, 1, now), []));
      }
    case Create(_, mode, now) =>
      if CanAdd(v, names) {
        AddKeepsProperIff(v, names, Entry(Stat(mode.fileType, mode.perms, 0, now), []));
      }
    case Write(_, _, _, _) => WriteKeepsProper(v, op);
    case Rmdir(_) => RemoveKeepsProper(v, names);
  }

  lemma WriteKeepsProper(v: View, op: Op)
    requires Proper(v) && op.Write?
    ensures Proper(PlainStep(v, op).0)
    ensures forall p | p != Names(op.path) :: SameAt(v, PlainStep(v, op).0, p)
  {
    hide FsUtil.Names, Overwrite, StoredBytes;
    var names := Names(op.path);
    if names in v && CanWrite(Some(v[names]), op.offset) {
      forall p | names < p
        ensures p !in v
      {
        NothingBelowFile(v, names, p);
      }
      var entry := PlainWritten(v[names], op.buffer, op.offset, op.now);
      assert entry.stat.fileType == v[names].stat.fileType;
      WriteTouchesOwnPathIff(v, names, entry);
    }
  }

  lemma RemoveKeepsProper(v: View, names: seq<string>)
    requires Proper(v)
    ensures Proper(PlainRemove(v, names))
  {
    forall p | p in v && p != [] && !(names <= p)
      ensures !(names <= DropLast(p))
    {
      assert names <= DropLast(p) ==> names <= p;
    }
  }

  // ----- runs

  /** Every call of a run that makes a path names a directory as its parent. */
  ghost predicate ParentsAreDirs(v: View, ops: seq<Op>) {
    ops == [] || (!AddsToFile(v, ops[0]) && ParentsAreDirs(PlainStep(v, ops[0]).0, ops[1..]))
  }

  /** What is seen after the first calls of a run. */
  ghost function SeenAfter(v: View, ops: seq<Op>, k: nat): View
    requires k <= |ops|
    decreases k
  {
    if k == 0 then v else SeenAfter(PlainStep(v, ops[0]).0, ops[1..], k - 1)
  }

  lemma {:induction false} SeenAtEnd(v: View, ops: seq<Op>)
    ensures SeenAfter(v, ops, |ops|) == PlainRun(v, ops).0
  {
    hide PlainStep;
    if ops != [] {
      SeenAtEnd(PlainStep(v, ops[0]).0, ops[1..]);
    }
  }

  lemma SeenStep(v: View, ops: seq<Op>, k: nat)
    requires k <= |ops|
    ensures SeenAfter(v, ops, 0) == v
    ensures k > 0 ==> SeenAfter(v, ops, k) == SeenAfter(PlainStep(v, ops[0]).0, ops[1..], k - 1)
  {
  }

  /** The view is proper all the way exactly if every new path of the run is put into a directory. */
  lemma {:induction false} RunStaysProperIff(v: View, ops: seq<Op>)
    requires Proper(v)
    ensures ParentsAreDirs(v, ops) <==> AlwaysProper(v, ops)
    decreases |ops|
  {
    hide Proper, PlainStep, AddsToFile, SeenAfter, AlwaysProper;
    AlwaysProperStep(v, ops);
    if ops != [] {
      var v' := PlainStep(v, ops[0]).0;
      StepKeepsProperIff(v, ops[0]);
      if Proper(v') {
        RunStaysProperIff(v', ops[1..]);
      }
    }
  }

  ghost predicate AlwaysProper(v: View, ops: seq<Op>) {
    forall k | 0 <= k <= |ops| :: Proper(SeenAfter(v, ops, k))
  }

  lemma AlwaysProperStep(v: View, ops: seq<Op>)
    requires Proper(v)
    ensures ops == [] ==> AlwaysProper(v, ops)
    ensures ops != [] ==>
      var v' := PlainStep(v, ops[0]).0;
      && (AlwaysProper(v', ops[1..]) ==> Proper(v'))
      && (AlwaysProper(v, ops) <==> AlwaysProper(v', ops[1..]))
  {
    hide Proper, PlainStep, SeenAfter;
    SeenStep(v, ops, 0);
    if ops != [] {
      var v' := PlainStep(v, ops[0]).0;
      SeenStep(v', ops[1..], 0);
      assert AlwaysProper(v', ops[1..]) ==> Proper(SeenAfter(v', ops[1..], 0));
      if AlwaysProper(v, ops) {
        forall k | 0 <= k <= |ops| - 1
          ensures Proper(SeenAfter(v', ops[1..], k))
        {
          SeenStep(v, ops, k + 1);
        }
      }
      if AlwaysProper(v', ops[1..]) {
        forall k | 0 <= k <= |ops|
          ensures Proper(SeenAfter(v, ops, k))
        {
          SeenStep(v, ops, k);
          assert k > 0 ==> Proper(SeenAfter(v', ops[1..], k - 1));
        }
      }
    }
  }

  ghost predicate SameAt(v: View, v': View, p: seq<string>) {
    (p in v <==> p in v') && (p in v ==> v[p] == v'[p])
  }

  /** The paths that a call can change where all is proper: its own, and for a removal those below it. */
  ghost predicate Touches(op: Op, p: seq<string>) {
    p == Names(op.path) || (op.Rmdir? && Names(op.path) < p)
  }

  lemma StepTouches(v: View, op: Op, p: seq<string>)
    requires Proper(v) && !Touches(op, p)
    ensures SameAt(v, PlainStep(v, op).0, p)
  {
    hide FsUtil.Names, Overwrite, StoredBytes, Proper;
    if op.Write? {
      WriteKeepsProper(v, op);
    }
  }

  /** In such a run each call changes what is seen at its own path only, and a removal below it. */
  lemma {:induction false} RunTouches(v: View, ops: seq<Op>, k: nat, p: seq<string>)
    requires Proper(v) && ParentsAreDirs(v, ops) && k < |ops| && !Touches(ops[k], p)
    ensures SameAt(SeenAfter(v, ops, k), SeenAfter(v, ops, k + 1), p)
    decreases k
  {
    hide Proper, PlainStep, Touches, SameAt, AddsToFile;
    var v' := PlainStep(v, ops[0]).0;
    if k == 0 {
      StepTouches(v, ops[0], p);
      assert SeenAfter(v, ops, 1) == SeenAfter(v', ops[1..], 0) == v';
    } else {
      StepKeepsProperIff(v, ops[0]);
      RunTouches(v', ops[1..], k - 1, p);
    }
  }

  // ----- the tree of blocks

  /** No inode lies below a file. */
  ghost predicate FilesHoldContents(t: Node) {
    && (t.Inode? && !t.stat.IsDir() ==> forall k | k in t.Kids() :: !k.Inode?)
    && forall k | k in t.Kids() :: FilesHoldContents(k)
  }

  lemma {:induction false} ContentsAlone(t: Node)
    requires !t.Inode? && Shape(t)
    ensures FilesHoldContents(t)
  {
    forall k | k in t.Kids()
      ensures FilesHoldContents(k)
    {
      ContentsAlone(k);
    }
  }

  lemma KidEntry(t: Node, i: nat, r: seq<string>)
    requires t.Inode? && UniqueNames(t) && i < |t.kids| && t.kids[i].Inode?
    ensures EntryAt(t, [t.kids[i].name] + r) == EntryAt(t.kids[i], r)
  {
    hide EntryAt, ChildIndex;
    var p := [t.kids[i].name] + r;
    assert p[1..] == r;
    EntryStep(t, p);
    ChildIndexIs(t.kids, i, p[0]);
  }

  lemma InView(t: Node, p: seq<string>)
    requires t.Inode?
    ensures p in ViewOf(t) <==> EntryAt(t, p).Some?
    ensures p in ViewOf(t) ==> ViewOf(t)[p] == EntryAt(t, p).value
  {
  }

  lemma KidIsProper(t: Node, i: nat)
    requires t.Inode? && UniqueNames(t) && Proper(ViewOf(t)) && i < |t.kids| && t.kids[i].Inode?
    ensures t.stat.IsDir() && Proper(ViewOf(t.kids[i]))
  {
    hide EntryAt, UniqueNames, ViewOf;
    var k := t.kids[i];
    EntryHere(k);
    EntryHere(t);
    KidEntry(t, i, []);
    assert [k.name] + [] == [k.name];
    InView(t, [k.name]);
    InView(t, []);
    assert DropLast([k.name]) == [];
    forall p | p in ViewOf(k) && p != []
      ensures DropLast(p) in ViewOf(k) && ViewOf(k)[DropLast(p)].stat.IsDir()
    {
      InView(k, p);
      InView(k, DropLast(p));
      var q := [k.name] + p;
      assert DropLast(q) == [k.name] + DropLast(p);
      KidEntry(t, i, p);
      KidEntry(t, i, DropLast(p));
      InView(t, q);
      InView(t, DropLast(q));
    }
  }

  /** Inodes lie below directories only in the tree of blocks exactly if paths do in what is seen. */
  lemma {:induction false} TreeIsProperIff(t: Node)
    requires t.Inode? && Shape(t) && UniqueNames(t)
    ensures FilesHoldContents(t) <==> Proper(ViewOf(t))
  {
    if FilesHoldContents(t) {
      forall p | p in ViewOf(t) && p != []
        ensures DropLast(p) in ViewOf(t) && ViewOf(t)[DropLast(p)].stat.IsDir()
      {
        ParentIsDir(t, p);
      }
    }
    if Proper(ViewOf(t)) {
      hide ViewOf, Proper;
      forall k | k in t.kids
        ensures FilesHoldContents(k) && (k.Inode? ==> t.stat.IsDir())
      {
        if k.Inode? {
          var i :| 0 <= i < |t.kids| && t.kids[i] == k;
          KidIsProper(t, i);
          TreeIsProperIff(k);
        } else {
          ContentsAlone(k);
        }
      }
    }
  }

  lemma {:induction false} ParentIsDir(t: Node, p: seq<string>)
    requires t.Inode? && FilesHoldContents(t) && p != [] && EntryAt(t, p).Some?
    ensures EntryAt(t, DropLast(p)).Some? && EntryAt(t, DropLast(p)).value.stat.IsDir()
    decreases |p|
  {
    hide EntryAt, ChildIndex;
    EntryStep(t, p);
    var k := t.kids[ChildIndex(t.kids, p[0])];
    if |p| == 1 {
      EntryHere(t);
    } else {
      var up := DropLast(p);
      EntryStep(t, up);
      assert up[1..] == DropLast(p[1..]);
      ParentIsDir(k, p[1..]);
    }
  }

  /** Over every run without paths "//name" in which each new path is put into a directory, the plain file
    * system stays proper, and no inode comes to lie below a file in the tree of blocks. */
  lemma RunKeepsTreeProper(fs: Fs, ops: seq<Op>)
    requires FsInv(fs) && UniqueNames(fs.root) && FilesHoldContents(fs.root)
    requires forall op | op in ops :: !LosesParent(op)
    requires ParentsAreDirs(ViewOf(fs.root), ops)
    ensures ViewOf(Run(fs, ops).0.root) == PlainRun(ViewOf(fs.root), ops).0
    ensures Proper(PlainRun(ViewOf(fs.root), ops).0)
    ensures FilesHoldContents(Run(fs, ops).0.root)
  {
    hide Shape, Ordered, Distinct, Ids, UniqueNames, FilesHoldContents, ViewOf, Proper, ParentsAreDirs, Run, PlainRun,
      LosesParent;
    TreeIsProperIff(fs.root);
    RunRefines(fs, ops);
    RunStaysProperIff(ViewOf(fs.root), ops);
    SeenAtEnd(ViewOf(fs.root), ops);
    assert Proper(SeenAfter(ViewOf(fs.root), ops, |ops|));
    TreeIsProperIff(Run(fs, ops).0.root);
  }

  /** A new file system, and any run in it without paths "//name" in which each new path is put into a
    * directory: at every moment only directories hold paths, each call changes what is seen at its own path
    * only (a removal also below it), and in the end no inode lies below a file. */
  lemma RunFromNew(perms: nat, now: nat, ops: seq<Op>)
    requires forall op | op in ops :: !LosesParent(op)
    requires ParentsAreDirs(ViewOf(RootNode(perms, now)), ops)
    ensures var fs := Fs(RootNode(perms, now), 2);
      var v := ViewOf(fs.root);
      && FsInv(fs) && FilesHoldContents(Run(fs, ops).0.root)
      && ViewOf(Run(fs, ops).0.root) == SeenAfter(v, ops, |ops|)
      && (forall k | 0 <= k <= |ops| :: Proper(SeenAfter(v, ops, k)))
      && (forall k, p | 0 <= k < |ops| && !Touches(ops[k], p) ::
            SameAt(SeenAfter(v, ops, k), SeenAfter(v, ops, k + 1), p))
  {
    var fs := Fs(RootNode(perms, now), 2);
    RootAlone(perms, now, map[1 := fs.root.ToBlock()]);
    assert UniqueNames(fs.root) && FilesHoldContents(fs.root);
    hide Shape, Ordered, Distinct, Ids, UniqueNames, FilesHoldContents, ViewOf, Proper, ParentsAreDirs, Run, PlainRun,
      LosesParent, Touches, SameAt, SeenAfter;
    RunKeepsTreeProper(fs, ops);
    TreeIsProperIff(fs.root);
    RunStaysProperIff(ViewOf(fs.root), ops);
    SeenAtEnd(ViewOf(fs.root), ops);
    forall k, p | 0 <= k < |ops| && !Touches(ops[k], p)
      ensures SameAt(SeenAfter(ViewOf(fs.root), ops, k), SeenAfter(ViewOf(fs.root), ops, k + 1), p)
    {
      RunTouches(ViewOf(fs.root), ops, k, p);
    }
  }

  /** A concrete write that removes another path: one to a file in which a directory was made. */
  lemma WriteHidesExample(v: View)
    requires ["f"] in v && v[["f"]].stat.fileType == REGULAR && ["f", "d"] in v
    ensures ["f", "d"] !in PlainStep(v, Write("/f", [], 0, 0)).0
  {
    OneName();
    hide FsUtil.Names, StoredBytes, Overwrite;
    assert ["f"] < ["f", "d"];
  }
}
