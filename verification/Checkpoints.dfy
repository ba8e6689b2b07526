/** What checkpoints keep (lib/src/fs/revertible_block_fuse.cc). A checkpoint holds back the frees that
  * operations make themselves, but the recursive descent still frees through the manager. */
module Checkpoints {
  import opened Blocks
  import opened BlockTree
  import opened FileLayout
  import opened BlockManager
  import opened FsUtil
  import opened FsTree
  import opened FsRefinement
  import opened BlockUtil
  import opened FuseLemmas

  // ----- the ids freed over a run

  /** All ids that the calls of a run free, with frees held back or not. */
  ghost function RunFrees(fs: Fs, ops: seq<Op>, held: bool): multiset<BlockId>
    requires fs.root.Inode?
    decreases |ops|
  {
    if ops == [] then multiset{}
    else
      var (fs', outcome) := Step(fs, ops[0]);
      FreedBy(fs, ops[0], held) + if outcome.AssertFailed? then multiset{} else RunFrees(fs', ops[1..], held)
  }

  lemma FreedAreOlder(fs: Fs, op: Op, held: bool)
    requires FsInv(fs)
    ensures fs.next <= Step(fs, op).0.next
    ensures forall i | i in FreedBy(fs, op, held) :: i < Step(fs, op).0.next
  {
    assert fs.root.Inode?;
    var e := Plan(fs, op).0;
    if e.Some? {
      StepKeepsInv(fs, op);
      PlansAreGood(fs, op);
      NextGrows(fs, e.value);
      FreedByGone(fs, op, held);
      hide Plan, Step, Gone, FreedBy, Ids, FsInv, GoodEdit, Apply;
      forall i | i in FreedBy(fs, op, held)
        ensures i < Step(fs, op).0.next
      {
        assert FreedBy(fs, op, held)[i] <= Gone(fs, e.value)[i];
        assert Ids(Step(fs, op).0.root)[i] + Gone(fs, e.value)[i]
            == Ids(fs.root)[i] + Range(fs.next, Step(fs, op).0.next)[i];
        IdsBelowNext(fs, i);
      }
    }
  }

  lemma IdsBelowNext(fs: Fs, i: BlockId)
    requires FsInv(fs)
    ensures i in Ids(fs.root) ==> i < fs.next
  {
  }

  lemma ChangedTwice(m: Store, m1: Store, m2: Store, lo: BlockId, mid: BlockId, hi: BlockId,
                     a: multiset<BlockId>, b: multiset<BlockId>)
    requires lo <= mid <= hi && Changed(m, m1, lo, mid, a) && Changed(m1, m2, mid, hi, b)
    requires forall i | i in a :: i < mid
    ensures Changed(m, m2, lo, hi, a + b)
  {
  }

  // ----- when a saved tree stays

  ghost predicate Apart(t: Node, gone: multiset<BlockId>) {
    forall i | i in Ids(t) :: i !in gone
  }

  /** A stored tree stays exactly when none of its blocks is freed. */
  lemma SurvivesIff(m: Store, m': Store, lo: BlockId, hi: BlockId, gone: multiset<BlockId>, t: Node)
    requires Stored(m, t) && Changed(m, m', lo, hi, gone)
    ensures Stored(m', t) <==> Apart(t, gone)
  {
    StoredIds(m, t);
    if Apart(t, gone) {
      StoredFrame(m, m', t);
    } else if Stored(m', t) {
      StoredIds(m', t);
      assert false;
    }
  }

  /** A write or removal finds nothing below the inode at its path. */
  ghost predicate TargetIsBare(t: Node, op: Op) {
    op.Write? || op.Rmdir? ==>
      var target := Find(t, Names(op.path));
      target.Some? ==> target.value.Kids() == []
  }

  lemma BareTargetFreesNothing(fs: Fs, op: Op)
    requires fs.root.Inode? && TargetIsBare(fs.root, op)
    ensures FreedBy(fs, op, true) == multiset{}
  {
    hide At, Resolve, FsUtil.Names, Gone, Flatten, Overwrite, Rewritten, ChildIndex, IsPath;
    NoIds();
    if (op.Write? || op.Rmdir?) && Plan(fs, op).0.Some? {
      TargetFrees(fs, op, Find(fs.root, Names(op.path)).value);
    }
  }

  /** A checkpoint does not survive a write to a file that had contents, or the removal of an inode that
    * had children: right after the checkpoint, the saved tree stays exactly when the target is bare. */
  lemma CheckpointBreaksIff(m: Store, m': Store, fs: Fs, op: Op)
    requires FsInv(fs) && Stored(m, fs.root) && Plan(fs, op).0.Some?
    requires Changed(m, m', fs.next, Step(fs, op).0.next, FreedBy(fs, op, true))
    ensures Stored(m', fs.root) <==> TargetIsBare(fs.root, op)
  {
    hide Stored, Changed, Ids, Distinct, Shape, Ordered, FsUtil.Names, TargetIsBare, Step, Plan, FreedBy;
    SurvivesIff(m, m', fs.next, Step(fs, op).0.next, FreedBy(fs, op, true), fs.root);
    if TargetIsBare(fs.root, op) {
      BareTargetFreesNothing(fs, op);
    } else {
      var i := FreedOfTree(fs, op);
      assert !Apart(fs.root, FreedBy(fs, op, true));
    }
  }

  lemma FreedOfTree(fs: Fs, op: Op) returns (i: BlockId)
    requires FsInv(fs) && Plan(fs, op).0.Some? && !TargetIsBare(fs.root, op)
    ensures i in FreedBy(fs, op, true) && i in Ids(fs.root)
  {
    var names := Names(op.path);
    var pos := Resolve(fs.root, names).value;
    var target := At(fs.root, pos);
    i := target.Kids()[0].id;
    TargetFrees(fs, op, target);
    hide At, Resolve, FsUtil.Names, Ids, IdsAll, Plan, FreedBy, Distinct, Shape, Ordered;
    IdsOfMember(target.Kids(), target.Kids()[0]);
    IdsSplit(target);
    IdsAtPath(fs.root, pos);
  }

  lemma TargetFrees(fs: Fs, op: Op, target: Node)
    requires fs.root.Inode? && Plan(fs, op).0.Some? && (op.Write? || op.Rmdir?)
    requires Find(fs.root, Names(op.path)) == Some(target)
    ensures FreedBy(fs, op, true) == IdsAll(target.Kids())
  {
    hide At, Resolve, FsUtil.Names, Gone, Flatten, Overwrite, Rewritten, ChildIndex, IsPath, IdsAll;
    if op.Rmdir? {
      var x, i := RemovedChild(fs, op.path);
      ChainMore(fs.root, Plan(fs, op).0.value.pos, i);
    } else {
      FindsInodes(fs.root, Names(op.path));
    }
  }

  lemma {:induction false} IdsAtPath(t: Node, pos: seq<nat>)
    requires IsPath(t, pos)
    ensures Ids(At(t, pos)) <= Ids(t)
    decreases |pos|
  {
    hide Ids, IdsAll;
    if pos != [] {
      var k := t.Kids()[pos[0]];
      IdsAtPath(k, pos[1..]);
      IdsSplit(t);
      IdsOfKid(t, k);
    }
  }

  // ----- the older blocks that a run without checkpoint calls frees

  ghost predicate AllNewer(ids: multiset<BlockId>, lo: BlockId) {
    forall i | i in ids :: lo <= i
  }

  /** Whether all that lies below the target of a call came after the ids below `lo`. It can be told before
    * the call. A call that goes nowhere spares everything. */
  ghost predicate CallSparesOlder(fs: Fs, op: Op, lo: BlockId)
    requires fs.root.Inode?
  {
    (op.Write? || op.Rmdir?) && Plan(fs, op).0.Some? ==>
      Find(fs.root, Names(op.path)).Some?
      && AllNewer(IdsAll(Find(fs.root, Names(op.path)).value.Kids()), lo)
  }

  /** No write or removal of a run finds a block older than `lo` below its target. */
  ghost predicate SparesOlder(fs: Fs, ops: seq<Op>, lo: BlockId)
    requires fs.root.Inode?
    decreases |ops|
  {
    ops == [] ||
    (CallSparesOlder(fs, ops[0], lo)
     && (Step(fs, ops[0]).1.AssertFailed? || SparesOlder(Step(fs, ops[0]).0, ops[1..], lo)))
  }

  /** While frees are held back, a call frees an older block exactly if one lies below its target, and then
    * a block of the tree. */
  lemma HeldFreesOlder(fs: Fs, op: Op, lo: BlockId)
    requires FsInv(fs)
    ensures CallSparesOlder(fs, op, lo) <==> AllNewer(FreedBy(fs, op, true), lo)
    ensures FreedBy(fs, op, true) <= Ids(fs.root)
  {
    hide At, Resolve, FsUtil.Names, Gone, Flatten, Overwrite, Rewritten, ChildIndex, IsPath, IdsAll, Ids, Distinct,
      Shape, Ordered;
    if (op.Write? || op.Rmdir?) && Plan(fs, op).0.Some? {
      TargetFound(fs, op);
      var target := Find(fs.root, Names(op.path)).value;
      TargetFrees(fs, op, target);
      TargetIds(fs, op);
    }
  }

  lemma TargetFound(fs: Fs, op: Op)
    requires fs.root.Inode? && Plan(fs, op).0.Some? && (op.Write? || op.Rmdir?)
    ensures Find(fs.root, Names(op.path)).Some?
  {
  }

  lemma TargetIds(fs: Fs, op: Op)
    requires Find(fs.root, Names(op.path)).Some?
    ensures IdsAll(Find(fs.root, Names(op.path)).value.Kids()) <= Ids(fs.root)
  {
    hide At, Resolve, FsUtil.Names, Ids, IdsAll;
    var pos := Resolve(fs.root, Names(op.path)).value;
    IdsAtPath(fs.root, pos);
    IdsSplit(At(fs.root, pos));
  }

  /** A call brings no older block into the tree. */
  lemma StepBringsNewer(fs: Fs, op: Op, i: BlockId)
    requires FsInv(fs) && i < fs.next && i in Ids(Step(fs, op).0.root)
    ensures i in Ids(fs.root)
  {
    StepKeepsInv(fs, op);
    hide Ids, Step, Plan, Gone, Shape, Ordered, Distinct;
  }

  lemma NewerInSum(a: multiset<BlockId>, b: multiset<BlockId>, lo: BlockId)
    ensures AllNewer(a + b, lo) <==> AllNewer(a, lo) && AllNewer(b, lo)
  {
    forall i | i in a || i in b
      ensures i in a + b
    {
    }
  }

  /** While frees are held back, the older blocks freed over a run are blocks of the tree at its start, and
    * there are none exactly if no call finds one below its target. */
  lemma {:induction false} RunFreesOlder(fs: Fs, ops: seq<Op>, lo: BlockId)
    requires FsInv(fs) && lo <= fs.next
    ensures SparesOlder(fs, ops, lo) <==> AllNewer(RunFrees(fs, ops, true), lo)
    ensures forall i | i in RunFrees(fs, ops, true) && i < lo :: i in Ids(fs.root)
    decreases |ops|
  {
    hide Step, FreedBy, CallSparesOlder, Ids, Shape, Ordered, Distinct;
    if ops != [] {
      HeldFreesOlder(fs, ops[0], lo);
      StepKeepsInv(fs, ops[0]);
      FreedAreOlder(fs, ops[0], true);
      var fs' := Step(fs, ops[0]).0;
      RunFreesOlder(fs', ops[1..], lo);
      NewerInSum(FreedBy(fs, ops[0], true), RunFrees(fs', ops[1..], true), lo);
      if Step(fs, ops[0]).1.AssertFailed? {
        assert RunFrees(fs, ops, true) == FreedBy(fs, ops[0], true);
      } else {
        assert RunFrees(fs, ops, true) == FreedBy(fs, ops[0], true) + RunFrees(fs', ops[1..], true);
      }
      forall i | i in RunFrees(fs, ops, true) && i < lo
        ensures i in Ids(fs.root)
      {
        if i !in FreedBy(fs, ops[0], true) {
          StepBringsNewer(fs, ops[0], i);
        }
      }
    }
  }

  // ----- the saved roots

  /** Each saved root block is the root of the tree it had when it was saved, and that tree was sound. */
  ghost predicate SavedOk(checkpoints: map<string, Block>, saved: map<string, Node>, requested: bool, next: BlockId) {
    && saved.Keys == checkpoints.Keys
    && (forall p | p in saved :: checkpoints[p] == saved[p].ToBlock() && FsInv(Fs(saved[p], next)))
    && (checkpoints != map[] ==> requested)
  }

  lemma SavedMore(checkpoints: map<string, Block>, saved: map<string, Node>, next: BlockId, path: string, t: Node)
    requires SavedOk(checkpoints, saved, true, next) && FsInv(Fs(t, next))
    ensures SavedOk(checkpoints[path := t.ToBlock()], saved[path := t], true, next)
  {
    hide Shape, Ordered, Distinct, Ids;
  }

  lemma SavedLater(checkpoints: map<string, Block>, saved: map<string, Node>, requested: bool, next: BlockId,
                   later: BlockId)
    requires SavedOk(checkpoints, saved, requested, next) && next <= later
    ensures SavedOk(checkpoints, saved, requested, later)
  {
    hide Shape, Ordered, Distinct, Ids;
  }
}
