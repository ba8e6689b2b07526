/** Facts that connect the store to the tree it roots while an operation of `BlockFuse` runs. */
module FuseLemmas {
  import opened Blocks
  import opened BlockTree
  import opened FileLayout
  import opened BlockManager
  import opened BlockUtil
  import opened PathSearch
  import opened FsTree
  import opened FsRefinement

  // ----- resolving a path step by step

  lemma {:induction false} ResolveMore(t: Node, names: seq<string>, name: string)
    requires Resolve(t, names).Some?
    ensures var pos := Resolve(t, names).value;
      var x := At(t, pos);
      var i := ChildIndex(x.Kids(), name);
      if i == |x.Kids()| then Resolve(t, names + [name]) == None
      else Resolve(t, names + [name]) == Some(pos + [i])
    decreases |names|
  {
    hide ChildIndex;
    if names == [] {
      assert [] + [name] == [name] && [name][1..] == [];
      var i := ChildIndex(t.Kids(), name);
      assert [i] + [] == [] + [i];
    } else {
      var j := ResolveStep(t, names);
      ResolveMore(t.Kids()[j], names[1..], name);
      assert (names + [name])[1..] == names[1..] + [name];
      var rest := Resolve(t.Kids()[j], names[1..]).value;
      var i := ChildIndex(At(t, [j] + rest).Kids(), name);
      assert [j] + (rest + [i]) == [j] + rest + [i];
    }
  }

  lemma {:induction false} UnresolvedPrefix(t: Node, names: seq<string>, more: seq<string>)
    requires Resolve(t, names).None? && names <= more
    ensures Resolve(t, more).None?
    decreases |names|
  {
    hide ChildIndex;
    var i := ChildIndex(t.Kids(), names[0]);
    if i < |t.Kids()| {
      UnresolvedPrefix(t.Kids()[i], names[1..], more[1..]);
    }
  }

  lemma {:induction false} ChainMore(t: Node, pos: seq<nat>, i: nat)
    requires IsPath(t, pos) && i < |At(t, pos).Kids()|
    ensures IsPath(t, pos + [i]) && Chain(t, pos + [i]) == Chain(t, pos) + [At(t, pos).Kids()[i]]
    ensures At(t, pos + [i]) == At(t, pos).Kids()[i]
    decreases |pos|
  {
    hide Chain;
    ChainUnfold(t, pos);
    if pos == [] {
      assert [] + [i] == [i] && [i][1..] == [];
      ChainUnfold(t, [i]);
      ChainUnfold(t.Kids()[i], []);
    } else {
      var k, rest := t.Kids()[pos[0]], pos[1..];
      ChainMore(k, rest, i);
      assert (pos + [i])[1..] == rest + [i];
      ChainUnfold(t, pos + [i]);
      ConsSnoc(t, Chain(k, rest), At(t, pos).Kids()[i]);
    }
  }

  lemma ChainUnfold(t: Node, pos: seq<nat>)
    requires IsPath(t, pos)
    ensures Chain(t, pos) == [t] + if pos == [] then [] else Chain(t.Kids()[pos[0]], pos[1..])
  {
  }

  lemma ConsSnoc(a: Node, s: seq<Node>, b: Node)
    ensures [a] + (s + [b]) == [a] + s + [b]
  {
  }

  lemma {:induction false} ChainInodes(t: Node, names: seq<string>)
    requires t.Inode? && Resolve(t, names).Some?
    ensures forall c | c in Chain(t, Resolve(t, names).value) :: c.Inode?
    decreases |names|
  {
    if names != [] {
      var i := ResolveStep(t, names);
      ChainInodes(t.Kids()[i], names[1..]);
    }
  }

  // ----- subtrees of a stored tree

  ghost predicate Sound(m: Store, t: Node) {
    Stored(m, t) && Distinct(Ids(t)) && Shape(t)
  }

  lemma {:induction false} SoundBelow(m: Store, t: Node, pos: seq<nat>)
    requires Sound(m, t) && IsPath(t, pos)
    ensures Sound(m, At(t, pos)) && AllStored(m, At(t, pos).Kids()) && Distinct(IdsAll(At(t, pos).Kids()))
    ensures Ids(At(t, pos)) <= Ids(t)
    decreases |pos|
  {
    SoundKids(m, t);
    if pos != [] {
      SoundKid(m, t, pos[0]);
      SoundBelow(m, t.Kids()[pos[0]], pos[1..]);
    }
  }

  lemma SoundKids(m: Store, t: Node)
    requires Sound(m, t)
    ensures AllStored(m, t.Kids()) && Distinct(IdsAll(t.Kids()))
  {
    hide IdsAll;
    IdsSplit(t);
    forall i | i in IdsAll(t.Kids())
      ensures IdsAll(t.Kids())[i] == 1
    {
      assert Ids(t)[i] == multiset{t.id}[i] + IdsAll(t.Kids())[i];
    }
  }

  lemma SoundKid(m: Store, t: Node, i: nat)
    requires Sound(m, t) && i < |t.Kids()|
    ensures Sound(m, t.Kids()[i]) && Ids(t.Kids()[i]) <= IdsAll(t.Kids()) && Ids(t.Kids()[i]) <= Ids(t)
  {
    hide IdsAll, Ids;
    var k := t.Kids()[i];
    SoundKids(m, t);
    IdsSplit(t);
    IdsOfKid(t, k);
    forall x | x in Ids(k)
      ensures Ids(k)[x] == 1
    {
      assert IdsAll(t.Kids())[x] >= Ids(k)[x];
    }
  }

  lemma {:induction false} ChainIsSound(m: Store, t: Node, pos: seq<nat>)
    requires Sound(m, t) && IsPath(t, pos)
    ensures forall c | c in Chain(t, pos) :: Sound(m, c)
    decreases |pos|
  {
    hide Sound;
    if pos != [] {
      SoundKid(m, t, pos[0]);
      ChainIsSound(m, t.Kids()[pos[0]], pos[1..]);
    }
  }

  lemma ChainReady(m: Store, t: Node, pos: seq<nat>)
    requires Sound(m, t) && IsPath(t, pos)
    ensures SideStored(m, t, pos) && ChainDistinct(t, pos)
  {
    hide Sound, Stored, IsPath, Chain, IdsAll;
    ChainIsSound(m, t, pos);
    forall k | 0 <= k < |pos|
      ensures Distinct(IdsAll(Chain(t, pos)[k].Kids()))
      ensures AllStored(m, Chain(t, pos)[k].Kids())
    {
      assert Chain(t, pos)[k] in Chain(t, pos);
      SoundKids(m, Chain(t, pos)[k]);
    }
  }

  lemma SideGrew(m: Store, m': Store, lo: BlockId, hi: BlockId, t: Node, pos: seq<nat>)
    requires IsPath(t, pos) && SideStored(m, t, pos) && Grew(m, m', lo, hi)
    ensures SideStored(m', t, pos)
  {
    hide Stored, Grew, Chain, IsPath;
    forall k, j | 0 <= k < |pos| && 0 <= j < |Chain(t, pos)[k].Kids()| && j != pos[k]
      ensures Stored(m', Chain(t, pos)[k].Kids()[j])
    {
      StoredGrew(m, m', lo, hi, Chain(t, pos)[k].Kids()[j]);
    }
  }

  /** What lies beside a chain shares no block with what lies from its end on. */
  lemma {:induction false} SideWithout(m: Store, t: Node, pos: seq<nat>, gone: multiset<BlockId>)
    requires Sound(m, t) && IsPath(t, pos) && gone <= Ids(At(t, pos))
    ensures SideStored(Without(m, gone), t, pos)
    decreases |pos|
  {
    hide IdsAll, Ids;
    if pos != [] {
      var i, rest := pos[0], pos[1..];
      var below, m' := t.Kids()[i], Without(m, gone);
      SoundKids(m, t);
      SoundKid(m, t, i);
      SideWithout(m, below, rest, gone);
      SoundBelow(m, below, rest);
      forall j | 0 <= j < |t.Kids()| && j != i
        ensures Stored(m', t.Kids()[j])
      {
        SiblingKept(m, t, i, j, gone);
      }
      forall k, j | 0 <= k < |pos| && 0 <= j < |Chain(t, pos)[k].Kids()| && j != pos[k]
        ensures Stored(m', Chain(t, pos)[k].Kids()[j])
      {
        if k > 0 {
          assert Chain(t, pos)[k] == Chain(below, rest)[k - 1] && rest[k - 1] == pos[k];
        }
      }
    }
  }

  lemma SiblingKept(m: Store, t: Node, i: nat, j: nat, gone: multiset<BlockId>)
    requires Sound(m, t) && i < |t.Kids()| && j < |t.Kids()| && i != j && gone <= Ids(t.Kids()[i])
    ensures Stored(Without(m, gone), t.Kids()[j])
  {
    hide IdsAll, Ids;
    SoundKids(m, t);
    SoundKid(m, t, j);
    forall x | x in Ids(t.Kids()[j])
      ensures x !in gone
    {
      if i < j {
        CountInTwo(t.Kids(), i, j, x);
      } else {
        CountInTwo(t.Kids(), j, i, x);
      }
    }
    StoredFrame(m, Without(m, gone), t.Kids()[j]);
  }

  // ----- what one call does to the store

  /** No leak and no sharing: each stored block is reached from the root exactly once. */
  ghost predicate NoLeak(m: Store, t: Node) {
    forall i :: Count(m, i) == Ids(t)[i]
  }

  /** Blocks with ids from `lo` on came, those of `gone` went, and all others stayed as they were. */
  ghost predicate Changed(m: Store, m': Store, lo: BlockId, hi: BlockId, gone: multiset<BlockId>) {
    && (forall i :: i in m' <==> (i in m || lo <= i < hi) && i !in gone)
    && (forall i :: i in m && i in m' ==> m'[i] == m[i])
  }

  lemma GrewThenFreed(m: Store, m1: Store, lo: BlockId, hi: BlockId, gone: multiset<BlockId>)
    requires Grew(m, m1, lo, hi)
    ensures Changed(m, Without(m1, gone), lo, hi, gone)
  {
  }

  lemma FreedGrewFreed(m: Store, below: multiset<BlockId>, m1: Store, lo: BlockId, hi: BlockId, gone: multiset<BlockId>)
    requires Grew(Without(m, below), m1, lo, hi) && forall i | i in below :: i < lo
    ensures Changed(m, Without(m1, gone), lo, hi, below + gone)
  {
  }

  /** Of the ids a change drops, those freed by the recursive descent, which always goes to the manager. */
  ghost function BelowTarget(op: Op, e: Edit): multiset<BlockId> {
    if op.Write? then IdsAll(e.dropped)
    else if op.Rmdir? && |e.dropped| == 1 then IdsAll(e.dropped[0].Kids())
    else multiset{}
  }

  /** The ids a call frees: all it drops, or while frees are held back only those freed by the descent. */
  ghost function FreedBy(fs: Fs, op: Op, heldBack: bool): multiset<BlockId>
    requires fs.root.Inode?
  {
    var e := Plan(fs, op).0;
    if e.None? then multiset{} else if heldBack then BelowTarget(op, e.value) else Gone(fs, e.value)
  }

  lemma StillStored(m1: Store, gone: multiset<BlockId>, fs: Fs, e: Edit)
    requires FsInv(fs) && GoodEdit(fs, e) && gone <= Gone(fs, e)
    requires Stored(m1, Apply(fs, e).root)
    ensures Stored(Without(m1, gone), Apply(fs, e).root)
  {
    hide Stored, Ids, IdsAll, Gone, Apply, Shape, Ordered, Range, IsPath, At;
    var fs' := Apply(fs, e);
    EditIds(fs, e);
    forall i | i in Ids(fs'.root)
      ensures i !in gone
    {
      assert Ids(fs'.root)[i] + Gone(fs, e)[i] == Ids(fs.root)[i] + Range(fs.next, fs'.next)[i];
    }
    StoredFrame(m1, Without(m1, gone), fs'.root);
  }

  lemma KeepsAccounts(m: Store, m': Store, freed: multiset<BlockId>, gone: multiset<BlockId>, fs: Fs, e: Edit)
    requires FsInv(fs) && GoodEdit(fs, e) && gone <= Gone(fs, e) && 1 <= fs.next
    requires Stored(m, fs.root) && Conserves(m, freed, fs.next)
    requires Changed(m, m', fs.next, Apply(fs, e).next, gone)
    ensures Conserves(m', freed + gone, Apply(fs, e).next)
    ensures NoLeak(m, fs.root) && gone == Gone(fs, e) ==> NoLeak(m', Apply(fs, e).root)
  {
    hide Stored, Ids, IdsAll, Gone, Apply, Shape, Ordered, Range, IsPath, At;
    var fs' := Apply(fs, e);
    EditIds(fs, e);
    StoredIds(m, fs.root);
    NextGrows(fs, e);
    forall i: BlockId
      ensures Count(m', i) + (freed + gone)[i] == Range(1, fs'.next)[i]
      ensures NoLeak(m, fs.root) && gone == Gone(fs, e) ==> Count(m', i) == Ids(fs'.root)[i]
    {
      assert Ids(fs'.root)[i] + Gone(fs, e)[i] == Ids(fs.root)[i] + Range(fs.next, fs'.next)[i];
      assert Count(m, i) + freed[i] == Range(1, fs.next)[i];
      assert gone[i] <= Gone(fs, e)[i];
      assert i in Ids(fs.root) ==> i in m;
    }
  }

  lemma NextGrows(fs: Fs, e: Edit)
    requires GoodEdit(fs, e)
    ensures fs.next < Apply(fs, e).next
  {
  }

  // ----- putting one call together

  /** What is known of the store before a call. */
  ghost predicate Before(m: Store, freed: multiset<BlockId>, fs: Fs, held: bool) {
    && FsInv(fs) && Stored(m, fs.root) && Conserves(m, freed, fs.next)
    && 1 <= fs.next && (forall i | i in m :: i < fs.next)
    && (!held ==> NoLeak(m, fs.root))
  }

  lemma BeforeIsSound(m: Store, freed: multiset<BlockId>, fs: Fs, held: bool)
    requires Before(m, freed, fs, held)
    ensures Sound(m, fs.root) && fs.root.Inode?
  {
  }

  lemma FreedByGone(fs: Fs, op: Op, held: bool)
    requires FsInv(fs) && Plan(fs, op).0.Some?
    ensures FreedBy(fs, op, held) <= Gone(fs, Plan(fs, op).0.value)
    ensures !held ==> FreedBy(fs, op, held) == Gone(fs, Plan(fs, op).0.value)
  {
    hide Plan, IdsAll, Ids, ChainIds, Shape, Ordered, Distinct;
    var e := Plan(fs, op).0.value;
    if |e.dropped| == 1 {
      IdsAllOne(e.dropped[0]);
      IdsSplit(e.dropped[0]);
      assert e.dropped == [e.dropped[0]];
    }
  }

  /** A call that built its new tree in `m1` and then freed the rest leaves everything in order. */
  lemma CallDone(m: Store, freed: multiset<BlockId>, fs: Fs, op: Op, held: bool, m1: Store, last: multiset<BlockId>)
    requires Before(m, freed, fs, held) && Plan(fs, op).0.Some?
    requires var e := Plan(fs, op).0.value;
      && Stored(m1, Apply(fs, e).root)
      && last <= Gone(fs, e)
      && Changed(m, Without(m1, last), fs.next, Apply(fs, e).next, FreedBy(fs, op, held))
    ensures Before(Without(m1, last), freed + FreedBy(fs, op, held), Step(fs, op).0, held)
  {
    var e := Plan(fs, op).0.value;
    PlansAreGood(fs, op);
    EditKeepsInv(fs, e);
    hide Plan, FsInv, GoodEdit, Gone, FreedBy, Stored, Ids, Conserves, NoLeak;
    FreedByGone(fs, op, held);
    StillStored(m1, last, fs, e);
    KeepsAccounts(m, Without(m1, last), freed, FreedBy(fs, op, held), fs, e);
    NextGrows(fs, e);
  }

  lemma {:induction false} ChainBlockIds(t: Node, pos: seq<nat>)
    requires IsPath(t, pos)
    ensures multiset(RootIds(Chain(t, pos))) == ChainIds(t, pos) + multiset{At(t, pos).id}
    decreases |pos|
  {
    hide Chain, RootIds;
    ChainUnfold(t, pos);
    if pos == [] {
      assert [t] + [] == [t];
      RootIdsFirst(t, []);
    } else {
      var rest := Chain(t.Kids()[pos[0]], pos[1..]);
      ChainBlockIds(t.Kids()[pos[0]], pos[1..]);
      RootIdsFirst(t, rest);
      SumAssoc(multiset{t.id}, ChainIds(t.kids[pos[0]], pos[1..]), multiset{At(t, pos).id});
    }
  }

  lemma RootIdsFirst(t: Node, rest: seq<Node>)
    ensures multiset(RootIds([t] + rest)) == multiset{t.id} + multiset(RootIds(rest))
    ensures RootIds([]) == []
  {
    assert RootIds([t] + rest) == [t.id] + RootIds(rest);
  }
}
