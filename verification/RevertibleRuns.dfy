/** Runs of calls on a file system with checkpoints, as they are dispatched
  * (lib/src/fs/revertible_block_fuse.cc, lib/src/fs/fuse_wrapper.cc): making a directory under the sentinel
  * saves the tree, and removing a saved path brings the tree back. */
module RevertibleRuns {
  import opened Blocks
  import opened BlockTree
  import opened BlockUtil
  import opened FsUtil
  import opened FsTree
  import opened FsRefinement
  import opened FuseLemmas
  import opened Checkpoints
  import opened FuseSteps

  const CHECKPOINT_SENTINEL: string := "/__checkpoint_"

  /** The file system, the trees saved under paths, and whether frees are held back. */
  datatype RevFs = RevFs(fs: Fs, saved: map<string, Node>, held: bool)

  predicate Rooted(s: RevFs) {
    s.fs.root.Inode? && forall p | p in s.saved :: s.saved[p].Inode?
  }

  predicate Saves(op: Op) {
    op.Mkdir? && CHECKPOINT_SENTINEL <= op.path
  }

  predicate Reverts(s: RevFs, op: Op) {
    op.Rmdir? && op.path in s.saved
  }

  /** One call. A directory that is asked for under the sentinel replaces what was saved under its path, even
    * if it cannot be made. A revert returns no value. */
  function RevStep(s: RevFs, op: Op): (r: (RevFs, Option<Outcome>))
    requires Rooted(s)
    ensures Rooted(r.0)
  {
    if Reverts(s, op) then (RevFs(Fs(s.saved[op.path], s.fs.next), s.saved - {op.path}, s.held), None)
    else
      var (fs', outcome) := Step(s.fs, op);
      if Saves(op) then (RevFs(fs', s.saved[op.path := s.fs.root], true), Some(outcome))
      else (RevFs(fs', s.saved, s.held), Some(outcome))
  }

  /** The ids that a call frees. */
  ghost function RevFreedBy(s: RevFs, op: Op): multiset<BlockId>
    requires Rooted(s)
  {
    if Reverts(s, op) then multiset{} else FreedBy(s.fs, op, s.held || Saves(op))
  }

  /** A run stops where an assertion of the program fails. */
  function RevRun(s: RevFs, ops: seq<Op>): (r: (RevFs, seq<Option<Outcome>>))
    requires Rooted(s)
    ensures Rooted(r.0)
    decreases |ops|
  {
    if ops == [] then (s, [])
    else
      var (s', outcome) := RevStep(s, ops[0]);
      if outcome == Some(AssertFailed) then (s', [outcome])
      else
        var (last, outcomes) := RevRun(s', ops[1..]);
        (last, [outcome] + outcomes)
  }

  ghost function RevFrees(s: RevFs, ops: seq<Op>): multiset<BlockId>
    requires Rooted(s)
    decreases |ops|
  {
    if ops == [] then multiset{}
    else
      var (s', outcome) := RevStep(s, ops[0]);
      RevFreedBy(s, ops[0]) + if outcome == Some(AssertFailed) then multiset{} else RevFrees(s', ops[1..])
  }

  // ----- invariants

  ghost predicate RevInv(s: RevFs) {
    FsInv(s.fs) && AllSound(s.saved, s.fs.next)
  }

  ghost predicate AllSound(saved: map<string, Node>, next: BlockId) {
    forall p | p in saved :: FsInv(Fs(saved[p], next))
  }

  lemma RevInvRooted(s: RevFs)
    requires RevInv(s)
    ensures Rooted(s)
  {
  }

  lemma InvLater(t: Node, next: BlockId, later: BlockId)
    requires FsInv(Fs(t, next)) && next <= later
    ensures FsInv(Fs(t, later))
  {
    hide Shape, Ordered, Distinct, Ids;
  }

  lemma SavedInvLater(saved: map<string, Node>, next: BlockId, later: BlockId)
    requires AllSound(saved, next) && next <= later
    ensures AllSound(saved, later)
  {
    hide FsInv;
    forall p | p in saved
      ensures FsInv(Fs(saved[p], later))
    {
      InvLater(saved[p], next, later);
    }
  }

  lemma SavedInvChanged(saved: map<string, Node>, next: BlockId, path: string, t: Node)
    requires AllSound(saved, next)
    ensures AllSound(saved - {path}, next)
    ensures path in saved ==> FsInv(Fs(saved[path], next))
    ensures FsInv(Fs(t, next)) ==> AllSound(saved[path := t], next)
  {
    hide FsInv;
  }

  /** A call frees no id that is yet to be handed out. */
  lemma RevFreedAreOlder(s: RevFs, op: Op)
    requires RevInv(s) && Rooted(s)
    ensures s.fs.next <= RevStep(s, op).0.fs.next
    ensures forall i | i in RevFreedBy(s, op) :: i < RevStep(s, op).0.fs.next
  {
    hide Step, FreedBy, FsInv;
    if !Reverts(s, op) {
      FreedAreOlder(s.fs, op, s.held || Saves(op));
    }
  }

  lemma RevStepKeepsInv(s: RevFs, op: Op)
    requires RevInv(s)
    ensures Rooted(s) && RevInv(RevStep(s, op).0)
  {
    RevInvRooted(s);
    hide Step, FsInv, AllSound, Rooted;
    SavedInvChanged(s.saved, s.fs.next, op.path, s.fs.root);
    if !Reverts(s, op) {
      var next, later := s.fs.next, Step(s.fs, op).0.next;
      StepInv(s.fs, op);
      StepGrows(s.fs, op);
      SavedInvLater(s.saved, next, later);
      InvLater(s.fs.root, next, later);
      SavedInvChanged(s.saved, later, op.path, s.fs.root);
    }
  }

  lemma StepGrows(fs: Fs, op: Op)
    requires FsInv(fs)
    ensures fs.root.Inode? && fs.next <= Step(fs, op).0.next
  {
    FreedAreOlder(fs, op, true);
    hide Step;
  }

  // ----- when a tree stays in the store

  /** Frees are held back from the first call of a run on. */
  predicate HeldFromStart(s: RevFs, ops: seq<Op>) {
    s.held || ops == [] || Saves(ops[0])
  }

  /** A call that is no revert finds no block of tree `t` below its target. It can be told before the call. A
    * call that goes nowhere spares everything. */
  ghost predicate CallSpares(s: RevFs, op: Op, t: Node)
    requires Rooted(s)
  {
    (op.Write? || op.Rmdir?) && !Reverts(s, op) && Plan(s.fs, op).0.Some? ==>
      var target := Find(s.fs.root, Names(op.path));
      target.Some? && Apart(t, IdsAll(target.value.Kids()))
  }

  ghost predicate Spares(s: RevFs, ops: seq<Op>, t: Node)
    requires Rooted(s)
    decreases |ops|
  {
    ops == [] ||
    (CallSpares(s, ops[0], t)
     && (RevStep(s, ops[0]).1 == Some(AssertFailed) || Spares(RevStep(s, ops[0]).0, ops[1..], t)))
  }

  lemma HeldCallFrees(s: RevFs, op: Op, t: Node)
    requires Rooted(s) && (s.held || Saves(op))
    ensures CallSpares(s, op, t) <==> Apart(t, RevFreedBy(s, op))
  {
    hide At, Resolve, FsUtil.Names, Gone, Flatten, Overwrite, Rewritten, ChildIndex, IsPath, IdsAll, Ids;
    if (op.Write? || op.Rmdir?) && Plan(s.fs, op).0.Some? {
      TargetFound(s.fs, op);
      TargetFrees(s.fs, op, Find(s.fs.root, Names(op.path)).value);
    }
  }

  lemma ApartFromSum(t: Node, a: multiset<BlockId>, b: multiset<BlockId>)
    ensures Apart(t, a + b) <==> Apart(t, a) && Apart(t, b)
  {
  }

  lemma {:induction false} SparesIffApart(s: RevFs, ops: seq<Op>, t: Node)
    requires Rooted(s) && HeldFromStart(s, ops)
    ensures Spares(s, ops, t) <==> Apart(t, RevFrees(s, ops))
    decreases |ops|
  {
    hide Step, RevFreedBy, CallSpares, Apart;
    NothingGone(t);
    if ops != [] {
      var (s', outcome) := RevStep(s, ops[0]);
      HeldCallFrees(s, ops[0], t);
      SparesIffApart(s', ops[1..], t);
      ApartFromSum(t, RevFreedBy(s, ops[0]), RevFrees(s', ops[1..]));
      if outcome == Some(AssertFailed) {
        assert RevFrees(s, ops) == RevFreedBy(s, ops[0]);
      } else {
        assert RevFrees(s, ops) == RevFreedBy(s, ops[0]) + RevFrees(s', ops[1..]);
      }
    }
  }

  lemma NothingGone(t: Node)
    ensures Apart(t, multiset{})
  {
  }

  /** Over any run of calls with frees held back, saving and reverting included, a stored tree stays exactly
    * if no call that is no revert finds a block of it below its target. */
  lemma SavedSurvivesIff(m: Store, m': Store, s: RevFs, ops: seq<Op>, hi: BlockId, t: Node)
    requires Rooted(s) && HeldFromStart(s, ops) && Stored(m, t)
    requires Changed(m, m', s.fs.next, hi, RevFrees(s, ops))
    ensures Stored(m', t) <==> Spares(s, ops, t)
  {
    hide Stored, Changed, Spares, RevFrees, Apart;
    SurvivesIff(m, m', s.fs.next, hi, RevFrees(s, ops), t);
    SparesIffApart(s, ops, t);
  }

  // ----- runs in which nothing lies below a target

  /** No call of a run writes to a file that has contents or removes an inode that has children. */
  ghost predicate TargetsAreBare(s: RevFs, ops: seq<Op>)
    requires Rooted(s)
    decreases |ops|
  {
    ops == [] ||
    ((Reverts(s, ops[0]) || TargetIsBare(s.fs.root, ops[0])) && TargetsAreBare(RevStep(s, ops[0]).0, ops[1..]))
  }

  /** Such a run frees nothing while frees are held back, so every stored tree survives it. */
  lemma {:induction false} BareRunFreesNothing(s: RevFs, ops: seq<Op>)
    requires Rooted(s) && HeldFromStart(s, ops) && TargetsAreBare(s, ops)
    ensures RevFrees(s, ops) == multiset{}
    decreases |ops|
  {
    hide Step, FreedBy, TargetIsBare;
    if ops != [] {
      if !Reverts(s, ops[0]) {
        BareTargetFreesNothing(s.fs, ops[0]);
      }
      BareRunFreesNothing(RevStep(s, ops[0]).0, ops[1..]);
    }
  }

  lemma BareRunKeepsTrees(m: Store, m': Store, s: RevFs, ops: seq<Op>, hi: BlockId, t: Node)
    requires Rooted(s) && HeldFromStart(s, ops) && TargetsAreBare(s, ops) && Stored(m, t)
    requires Changed(m, m', s.fs.next, hi, RevFrees(s, ops))
    ensures Stored(m', t)
  {
    hide Stored, Changed, TargetsAreBare, RevFrees;
    BareRunFreesNothing(s, ops);
    SurvivesIff(m, m', s.fs.next, hi, RevFrees(s, ops), t);
  }

  // ----- frees that all go through the guard

  /** What a call would free if the recursive descent respected a checkpoint, too. */
  ghost function GuardedFreedBy(s: RevFs, op: Op): multiset<BlockId>
    requires Rooted(s)
  {
    if s.held || Saves(op) then multiset{} else RevFreedBy(s, op)
  }

  ghost function GuardedFrees(s: RevFs, ops: seq<Op>): multiset<BlockId>
    requires Rooted(s)
    decreases |ops|
  {
    if ops == [] then multiset{}
    else
      var (s', outcome) := RevStep(s, ops[0]);
      GuardedFreedBy(s, ops[0]) + if outcome == Some(AssertFailed) then multiset{} else GuardedFrees(s', ops[1..])
  }

  lemma {:induction false} GuardedRunFreesNothing(s: RevFs, ops: seq<Op>)
    requires Rooted(s) && HeldFromStart(s, ops)
    ensures GuardedFrees(s, ops) == multiset{}
    decreases |ops|
  {
    hide Step;
    if ops != [] {
      GuardedRunFreesNothing(RevStep(s, ops[0]).0, ops[1..]);
    }
  }

  /** With the recursive free behind the guard, every saved tree would survive every run. */
  lemma GuardedRunKeepsTrees(m: Store, m': Store, s: RevFs, ops: seq<Op>, hi: BlockId, t: Node)
    requires Rooted(s) && HeldFromStart(s, ops) && Stored(m, t)
    requires Changed(m, m', s.fs.next, hi, GuardedFrees(s, ops))
    ensures Stored(m', t)
  {
    hide Stored, Changed, GuardedFrees;
    GuardedRunFreesNothing(s, ops);
    SurvivesIff(m, m', s.fs.next, hi, multiset{}, t);
  }

  // ----- runs without checkpoint calls

  /** No call saves or reverts. */
  predicate NoCheckpointCalls(s: RevFs, ops: seq<Op>) {
    forall op | op in ops :: !Saves(op) && !Reverts(s, op)
  }

  /** Then the run is one of the plain calls. */
  lemma {:induction false} PlainCallsOnly(s: RevFs, ops: seq<Op>)
    requires Rooted(s) && NoCheckpointCalls(s, ops)
    ensures RevRun(s, ops).0 == RevFs(Run(s.fs, ops).0, s.saved, s.held)
    ensures RevFrees(s, ops) == RunFrees(s.fs, ops, s.held)
    decreases |ops|
  {
    hide Step, FreedBy;
    if ops != [] {
      assert ops[0] in ops;
      var s' := RevStep(s, ops[0]).0;
      assert s'.saved == s.saved;
      assert forall op | op in ops[1..] :: op in ops && (Reverts(s', op) <==> Reverts(s, op));
      PlainCallsOnly(s', ops[1..]);
    }
  }

  /** A file system without checkpoints, and calls that make no directory under the sentinel: each call does
    * just what it does without this feature, frees included, and removes rather than reverts. */
  lemma {:induction false} PlainPathsOnly(s: RevFs, ops: seq<Op>)
    requires Rooted(s) && s.saved == map[]
    requires forall op | op in ops && op.Mkdir? :: !("/__checkpoint_" <= op.path)
    ensures RevRun(s, ops).0 == RevFs(Run(s.fs, ops).0, map[], s.held)
    ensures RevFrees(s, ops) == RunFrees(s.fs, ops, s.held)
    decreases |ops|
  {
    hide Step, FreedBy;
    if ops != [] {
      assert ops[0] in ops;
      PlainPathsOnly(RevStep(s, ops[0]).0, ops[1..]);
    }
  }

  /** A call that makes a directory under the sentinel saves what there was, and holds frees back from then on. */
  lemma SentinelSaves(s: RevFs, op: Op)
    requires Rooted(s) && op.Mkdir? && "/__checkpoint_" <= op.path
    ensures RevStep(s, op).0.saved == s.saved[op.path := s.fs.root] && RevStep(s, op).0.held
  {
    hide Step;
  }

  /** Over a run without further checkpoint calls, a checkpoint survives exactly if no write or removal finds
    * below its target a block that is older than the checkpoint. */
  lemma CheckpointSurvivesIff(m: Store, m': Store, s: RevFs, ops: seq<Op>, hi: BlockId)
    requires FsInv(s.fs) && Rooted(s) && s.held && NoCheckpointCalls(s, ops) && Stored(m, s.fs.root)
    requires Changed(m, m', s.fs.next, hi, RevFrees(s, ops))
    ensures Stored(m', s.fs.root) <==> SparesOlder(s.fs, ops, s.fs.next)
  {
    PlainCallsOnly(s, ops);
    SurvivesIff(m, m', s.fs.next, hi, RevFrees(s, ops), s.fs.root);
    RunFreesOlder(s.fs, ops, s.fs.next);
    assert forall i | i in Ids(s.fs.root) :: i < s.fs.next;
    hide Stored, Changed, Ids, Distinct, Shape, Ordered, RevFrees, RunFrees, SparesOlder;
  }

  /** A tree with one file of one byte. */
  function OneFile(): Fs {
    Fs(Inode(3, "/", Stat(DIR, 0, 0, 0), [Inode(2, "f", Stat(REGULAR, 0, 1, 0), [Leaf(1, [7])])]), 4)
  }

  lemma OneFileInv()
    ensures FsInv(OneFile())
  {
    var leaf := Leaf(1, [7]);
    var file := Inode(2, "f", Stat(REGULAR, 0, 1, 0), [leaf]);
    IdsAllOne(leaf);
    IdsAllOne(file);
    assert Ids(leaf) == multiset{1};
    assert Ids(file) == multiset{2, 1};
    assert Ids(OneFile().root) == multiset{3, 2, 1};
  }

  lemma OneFileWrite()
    ensures var op := Write("/f", [8], 0, 1);
      Plan(OneFile(), op).0.Some? && !CallSparesOlder(OneFile(), op, 4)
  {
    var op, t := Write("/f", [8], 0, 1), OneFile().root;
    var leaf := Leaf(1, [7]);
    OneName();
    assert ["f"][1..] == [];
    assert Find(t, ["f"]) == Some(t.kids[0]);
    IdsAllOne(leaf);
    assert 1 in IdsAll([leaf]);
  }

  /** A concrete call that breaks a checkpoint: writing to a file that has contents. */
  lemma CheckpointBreaksExample(m: Store, m': Store, saved: map<string, Node>, hi: BlockId)
    requires var s := RevFs(OneFile(), saved, true);
      && Rooted(s) && Stored(m, OneFile().root)
      && Changed(m, m', 4, hi, RevFrees(s, [Write("/f", [8], 0, 1)]))
    ensures !Stored(m', OneFile().root)
  {
    OneFileInv();
    OneFileWrite();
    hide FsInv, Stored, Changed, RevFrees, CallSparesOlder, Step, Plan;
    var ops := [Write("/f", [8], 0, 1)];
    CheckpointSurvivesIff(m, m', RevFs(OneFile(), saved, true), ops, hi);
  }

  // ----- saving and going back

  /** A path that a run neither saves again nor reverts keeps its tree. */
  lemma {:induction false} StaysSaved(s: RevFs, ops: seq<Op>, path: string)
    requires Rooted(s) && path in s.saved
    requires forall op | op in ops && op.path == path :: !op.Mkdir? && !op.Rmdir?
    ensures var last := RevRun(s, ops).0;
      path in last.saved && last.saved[path] == s.saved[path]
    decreases |ops|
  {
    hide Step;
    if ops != [] {
      assert ops[0] in ops;
      StaysSaved(RevStep(s, ops[0]).0, ops[1..], path);
    }
  }

  /** So at the end of a run that begins with saving under a path, the first tree is there. */
  lemma SavedAtStart(s: RevFs, path: Path, perms: nat, now: nat, ops: seq<Op>)
    requires Rooted(s) && CHECKPOINT_SENTINEL <= path
    requires forall op | op in ops && op.path == path :: !op.Mkdir? && !op.Rmdir?
    ensures var last := RevRun(s, [Op.Mkdir(path, perms, now)] + ops).0;
      path in last.saved && last.saved[path] == s.fs.root
  {
    hide Step;
    var all := [Op.Mkdir(path, perms, now)] + ops;
    assert all[1..] == ops;
    StaysSaved(RevStep(s, all[0]).0, ops, path);
  }

  /** Saving under the same path twice loses the first tree exactly if the first directory could be made. */
  lemma SavedTwice(s: RevFs, op: Op)
    requires RevInv(s) && Rooted(s) && Saves(op)
    ensures var last := RevRun(s, [op, op]).0;
      op.path in last.saved && (last.saved[op.path] == s.fs.root <==> Plan(s.fs, op).0.None?)
  {
    hide Plan, Shape, Ordered, Distinct, Ids;
    assert [op, op][1..] == [op] && [op][1..] == [];
    MkdirReturns(s.fs, op);
    MkdirReturns(Step(s.fs, op).0, op);
    hide Step;
    var s1 := RevStep(s, op).0;
    assert RevRun(s1, [op]).0 == RevStep(s1, op).0;
    assert RevRun(s, [op, op]).0 == RevRun(s1, [op]).0;
    if Plan(s.fs, op).0.Some? {
      RootIsNew(s.fs, op);
    }
  }

  lemma MkdirReturns(fs: Fs, op: Op)
    requires fs.root.Inode? && op.Mkdir?
    ensures Step(fs, op).1.Ret? && (Plan(fs, op).0.None? ==> Step(fs, op).0 == fs)
  {
    hide FsUtil.Names, Find, AddInode;
  }

  lemma RootIsNew(fs: Fs, op: Op)
    requires FsInv(fs) && Plan(fs, op).0.Some?
    ensures Step(fs, op).0.root != fs.root
  {
    hide Plan, Shape, Ordered, Distinct;
    PlansAreGood(fs, op);
    RootBelowNext(fs);
  }

  // ----- what is seen

  /** The plain file system with checkpoints: the view, and the views saved. */
  datatype PlainRev = PlainRev(view: View, saved: map<string, View>)

  ghost function RevShows(s: RevFs): PlainRev
    requires Rooted(s)
  {
    PlainRev(ViewOf(s.fs.root), map p | p in s.saved :: ViewOf(s.saved[p]))
  }

  /** What a call should do: under the sentinel, save what is seen; for a saved path, show it again. */
  ghost function PlainRevStep(v: PlainRev, op: Op): (PlainRev, Option<Outcome>) {
    if op.Rmdir? && op.path in v.saved then (PlainRev(v.saved[op.path], v.saved - {op.path}), None)
    else
      var (view, outcome) := PlainStep(v.view, op);
      (PlainRev(view, if Saves(op) then v.saved[op.path := v.view] else v.saved), Some(outcome))
  }

  ghost function PlainRevRun(v: PlainRev, ops: seq<Op>): (PlainRev, seq<Option<Outcome>>)
    decreases |ops|
  {
    if ops == [] then (v, [])
    else
      var (v', outcome) := PlainRevStep(v, ops[0]);
      var (last, outcomes) := PlainRevRun(v', ops[1..]);
      (last, [outcome] + outcomes)
  }

  ghost predicate AllUnique(s: RevFs) {
    UniqueNames(s.fs.root) && forall p | p in s.saved :: UniqueNames(s.saved[p])
  }

  lemma ShownSaved(s: RevFs, op: Op)
    requires Rooted(s)
    ensures RevShows(RevStep(s, op).0).saved == PlainRevStep(RevShows(s), op).0.saved
  {
    hide Step, PlainStep, ViewOf;
  }

  /** A call does to what is seen, and to what is saved, what it should, unless it creates a path "//name" that
    * does not resolve, in which case it never does. */
  lemma RevStepRefines(s: RevFs, op: Op)
    requires RevInv(s) && Rooted(s) && AllUnique(s)
    ensures (RevShows(RevStep(s, op).0), RevStep(s, op).1) == PlainRevStep(RevShows(s), op) <==> !Diverges(s.fs, op)
    ensures !Diverges(s.fs, op) ==> AllUnique(RevStep(s, op).0) && RevStep(s, op).1 != Some(AssertFailed)
  {
    hide Step, PlainStep, ViewOf, UniqueNames, FsInv, LosesParent, EntryAt, Diverges;
    RemovalsResolve(s.fs, op);
    if !Reverts(s, op) {
      StepRefines(s.fs, op);
      StepKeepsUniqueNames(s.fs, op);
      PlainReturns(ViewOf(s.fs.root), op);
    }
    ShownSaved(s, op);
  }

  lemma RemovalsResolve(fs: Fs, op: Op)
    requires fs.root.Inode?
    ensures op.Rmdir? ==> !Diverges(fs, op)
  {
  }

  /** Over every run without paths "//name", saving and reverting included, the user sees the plain file
    * system with checkpoints. */
  lemma {:induction false} RevRunRefines(s: RevFs, ops: seq<Op>)
    requires RevInv(s) && Rooted(s) && AllUnique(s)
    requires forall op | op in ops :: !LosesParent(op)
    ensures (RevShows(RevRun(s, ops).0), RevRun(s, ops).1) == PlainRevRun(RevShows(s), ops)
    ensures RevInv(RevRun(s, ops).0) && AllUnique(RevRun(s, ops).0)
    decreases |ops|
  {
    hide RevStep, PlainRevStep, RevShows, AllUnique, LosesParent, FsInv, AllSound;
    if ops != [] {
      assert ops[0] in ops;
      NeverDiverges(s.fs, ops[0]);
      RevStepKeepsInv(s, ops[0]);
      RevStepRefines(s, ops[0]);
      RevRunRefines(RevStep(s, ops[0]).0, ops[1..]);
    }
  }

  /** What is seen and saved after each call of a run, and what it returned. */
  ghost function RevTrace(s: RevFs, ops: seq<Op>): seq<(PlainRev, Option<Outcome>)>
    requires Rooted(s)
    decreases |ops|
  {
    if ops == [] then []
    else
      var (s', outcome) := RevStep(s, ops[0]);
      [(RevShows(s'), outcome)] + if outcome == Some(AssertFailed) then [] else RevTrace(s', ops[1..])
  }

  ghost function PlainRevTrace(v: PlainRev, ops: seq<Op>): seq<(PlainRev, Option<Outcome>)>
    decreases |ops|
  {
    if ops == [] then [] else [PlainRevStep(v, ops[0])] + PlainRevTrace(PlainRevStep(v, ops[0]).0, ops[1..])
  }

  predicate RevRunDiverges(s: RevFs, ops: seq<Op>)
    requires Rooted(s)
    decreases |ops|
  {
    ops != [] && (Diverges(s.fs, ops[0]) || RevRunDiverges(RevStep(s, ops[0]).0, ops[1..]))
  }

  /** Any run, saving and reverting included, is at every moment what it should be exactly if no call of it
    * creates a path "//name" that does not resolve when the call is made. */
  lemma {:induction false} RevRunRefinesIff(s: RevFs, ops: seq<Op>)
    requires RevInv(s) && Rooted(s) && AllUnique(s)
    ensures RevTrace(s, ops) == PlainRevTrace(RevShows(s), ops) <==> !RevRunDiverges(s, ops)
    decreases |ops|
  {
    hide RevInv, RevStep, PlainRevStep, RevShows, AllUnique, Diverges;
    if ops != [] {
      var (s', outcome) := RevStep(s, ops[0]);
      RevStepRefines(s, ops[0]);
      var plain := PlainRevTrace(RevShows(s), ops);
      assert plain[0] == PlainRevStep(RevShows(s), ops[0]);
      assert plain[1..] == PlainRevTrace(PlainRevStep(RevShows(s), ops[0]).0, ops[1..]);
      if Diverges(s.fs, ops[0]) {
        assert RevTrace(s, ops)[0] != plain[0];
      } else {
        RevStepKeepsInv(s, ops[0]);
        RevRunRefinesIff(s', ops[1..]);
        assert RevTrace(s, ops)[0] == plain[0];
        assert RevTrace(s, ops)[1..] == RevTrace(s', ops[1..]);
      }
    }
  }

  // ----- reverts that find their tree

  /** Each tree that a run goes back to has lost no block by then, `lost` being lost before the run. */
  ghost predicate Recovers(s: RevFs, ops: seq<Op>, lost: multiset<BlockId>)
    requires Rooted(s)
    decreases |ops|
  {
    ops != [] ==>
    && (Reverts(s, ops[0]) ==> Apart(s.saved[ops[0].path], lost))
    && (RevStep(s, ops[0]).1 == Some(AssertFailed)
        || Recovers(RevStep(s, ops[0]).0, ops[1..], lost + RevFreedBy(s, ops[0])))
  }

  /** Saved trees are in the store unless they lost a block. */
  ghost predicate KeptUnlessLost(m: Store, saved: map<string, Node>, lost: multiset<BlockId>) {
    forall p | p in saved && Apart(saved[p], lost) :: Stored(m, saved[p])
  }

  lemma RevStepKeeps(m: Store, m': Store, s: RevFs, op: Op, hi: BlockId, lost: multiset<BlockId>)
    requires Rooted(s) && KeptUnlessLost(m, s.saved, lost) && Stored(m, s.fs.root)
    requires Changed(m, m', s.fs.next, hi, RevFreedBy(s, op))
    ensures KeptUnlessLost(m', RevStep(s, op).0.saved, lost + RevFreedBy(s, op))
  {
    hide Stored, Changed, Step, RevFreedBy, Apart;
    var gone, saved' := RevFreedBy(s, op), RevStep(s, op).0.saved;
    forall p | p in saved' && Apart(saved'[p], lost + gone)
      ensures Stored(m', saved'[p])
    {
      ApartFromSum(saved'[p], lost, gone);
      assert Stored(m, saved'[p]);
      SurvivesIff(m, m', s.fs.next, hi, gone, saved'[p]);
    }
  }

  /** A tree that a run goes back to is in the store. */
  lemma RevertedIsKept(m: Store, m': Store, s: RevFs, op: Op, hi: BlockId, lost: multiset<BlockId>)
    requires Rooted(s) && KeptUnlessLost(m, s.saved, lost)
    requires Reverts(s, op) ==> Apart(s.saved[op.path], lost)
    requires Changed(m, m', s.fs.next, hi, RevFreedBy(s, op))
    ensures Reverts(s, op) ==> Stored(m', RevStep(s, op).0.fs.root)
  {
    hide Stored, Changed, Step, Apart;
    if Reverts(s, op) {
      NothingGone(s.saved[op.path]);
      SurvivesIff(m, m', s.fs.next, hi, multiset{}, s.saved[op.path]);
    }
  }

  lemma {:induction false} RevRunGrows(s: RevFs, ops: seq<Op>)
    requires RevInv(s) && Rooted(s)
    ensures s.fs.next <= RevRun(s, ops).0.fs.next
    decreases |ops|
  {
    hide RevInv, RevStep, RevFreedBy;
    if ops != [] {
      RevStepKeepsInv(s, ops[0]);
      RevFreedAreOlder(s, ops[0]);
      RevRunGrows(RevStep(s, ops[0]).0, ops[1..]);
    }
  }

  /** The trees of an object with checkpoints are sound. */
  lemma SavedInv(checkpoints: map<string, Block>, saved: map<string, Node>, fs: Fs, held: bool)
    requires SavedOk(checkpoints, saved, held, fs.next) && FsInv(fs)
    ensures RevInv(RevFs(fs, saved, held)) && Rooted(RevFs(fs, saved, held))
  {
  }
}
