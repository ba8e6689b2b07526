/** What replacing a chain of blocks does to the tree they root (lib/src/fs/block_util.cc). */
module BlockTree {
  import opened Blocks

  const BYTES_PER_BLOCK: nat := 1000
  const BRANCHING_FACTOR: nat := 4

  // ----- chains, as lists of child positions from a root

  predicate IsPath(t: Node, path: seq<nat>) {
    path == [] || (path[0] < |t.Kids()| && IsPath(t.Kids()[path[0]], path[1..]))
  }

  function At(t: Node, path: seq<nat>): Node
    requires IsPath(t, path)
  {
    if path == [] then t else At(t.Kids()[path[0]], path[1..])
  }

  /** The tree with the block at `path` replaced by `n`. Each ancestor is a new block with the next id;
    * the changed child moves behind its siblings, which are shared with the old tree. */
  function Graft(t: Node, path: seq<nat>, n: Node): (r: Node)
    requires IsPath(t, path)
    ensures r.id == n.id + |path|
    ensures t.Inode? && n.Inode? ==> r.Inode?
    decreases |path|
  {
    if path == [] then n
    else
      var k := Graft(t.kids[path[0]], path[1..], n);
      t.With(k.id + 1, RemoveAt(t.kids, path[0]) + [k])
  }

  /** The ids of the blocks strictly above the end of a chain. */
  ghost function ChainIds(t: Node, path: seq<nat>): multiset<BlockId>
    requires IsPath(t, path)
    decreases |path|
  {
    if path == [] then multiset{} else multiset{t.id} + ChainIds(t.kids[path[0]], path[1..])
  }

  lemma {:induction false} PathPrefix(t: Node, path: seq<nat>, k: nat)
    requires IsPath(t, path) && k <= |path|
    ensures IsPath(t, path[..k]) && IsPath(At(t, path[..k]), path[k..])
    ensures At(At(t, path[..k]), path[k..]) == At(t, path)
    decreases k
  {
    if k == 0 {
      assert path[..0] == [] && path[0..] == path;
    } else {
      PathPrefix(t.kids[path[0]], path[1..], k - 1);
      assert path[1..][..k - 1] == path[..k][1..];
      assert path[1..][k - 1..] == path[k..];
    }
  }

  lemma PathStep(t: Node, path: seq<nat>, k: nat)
    requires IsPath(t, path) && k < |path|
    ensures IsPath(t, path[..k]) && IsPath(t, path[..k + 1])
    ensures var p := At(t, path[..k]);
      path[k] < |p.Kids()| && At(t, path[..k + 1]) == p.Kids()[path[k]]
  {
    hide IsPath, At;
    PathPrefix(t, path, k);
    PathPrefix(t, path, k + 1);
    PathPrefix(t, path[..k + 1], k);
    assert path[..k + 1][..k] == path[..k];
    StepAt(At(t, path[..k]), path[..k + 1][k..]);
    StepAt(At(t, path[..k]), path[k..]);
  }

  lemma StepAt(t: Node, path: seq<nat>)
    requires IsPath(t, path) && path != []
    ensures path[0] < |t.Kids()|
    ensures |path| == 1 ==> At(t, path) == t.Kids()[path[0]]
  {
    if |path| == 1 {
      assert path[1..] == [];
    }
  }

  /** The blocks of a chain, root first. */
  function Chain(t: Node, path: seq<nat>): (c: seq<Node>)
    requires IsPath(t, path)
    ensures |c| == |path| + 1 && c[0] == t && c[|path|] == At(t, path)
    ensures forall k {:trigger path[k]} :: 0 <= k < |path| ==>
      path[k] < |c[k].Kids()| && c[k + 1] == c[k].Kids()[path[k]]
    decreases |path|
  {
    [t] + if path == [] then [] else Chain(t.Kids()[path[0]], path[1..])
  }

  lemma {:induction false} ChainSuffix(t: Node, path: seq<nat>, k: nat)
    requires IsPath(t, path) && k <= |path|
    ensures IsPath(Chain(t, path)[k], path[k..])
    decreases k
  {
    if k == 0 {
      assert path[0..] == path;
    } else {
      ChainSuffix(t.Kids()[path[0]], path[1..], k - 1);
      assert path[1..][k - 1..] == path[k..];
    }
  }

  /** The new block that takes the place of block `k` of a chain when the chain's end becomes `n`. */
  function GraftFrom(t: Node, path: seq<nat>, n: Node, k: nat): Node
    requires IsPath(t, path) && k <= |path|
  {
    ChainSuffix(t, path, k);
    Graft(Chain(t, path)[k], path[k..], n)
  }

  lemma GraftFromStep(t: Node, path: seq<nat>, n: Node, k: nat)
    requires IsPath(t, path) && k < |path|
    ensures var c, g := Chain(t, path)[k], GraftFrom(t, path, n, k + 1);
      && path[k] < |c.Kids()| && !c.Leaf? && c.kids[path[k]] == Chain(t, path)[k + 1]
      && GraftFrom(t, path, n, k) == c.With(g.id + 1, RemoveAt(c.kids, path[k]) + [g])
  {
    hide Chain, IsPath, Graft, RemoveAt;
    ChainSuffix(t, path, k);
    ChainSuffix(t, path, k + 1);
    var rest := path[k..];
    assert rest[0] == path[k] && rest[1..] == path[k + 1..];
    GraftCons(Chain(t, path)[k], rest, n);
  }

  lemma GraftCons(t: Node, path: seq<nat>, n: Node)
    requires IsPath(t, path) && path != []
    ensures !t.Leaf? && path[0] < |t.kids| && IsPath(t.kids[path[0]], path[1..])
    ensures var g := Graft(t.kids[path[0]], path[1..], n);
      Graft(t, path, n) == t.With(g.id + 1, RemoveAt(t.kids, path[0]) + [g])
  {
  }

  lemma GraftFromEnds(t: Node, path: seq<nat>, n: Node)
    requires IsPath(t, path)
    ensures GraftFrom(t, path, n, 0) == Graft(t, path, n)
    ensures GraftFrom(t, path, n, |path|) == n
  {
    hide Chain, IsPath;
    assert path[0..] == path && path[|path|..] == [];
  }

  // ----- which ids a graft uses

  /** Block for block, a graft adds the new chain and `n`, and drops the old chain and what it ended in. */
  lemma {:induction false} GraftIds(t: Node, path: seq<nat>, n: Node, i: BlockId)
    requires IsPath(t, path)
    ensures Ids(Graft(t, path, n))[i] + ChainIds(t, path)[i] + Ids(At(t, path))[i]
         == Ids(t)[i] + Ids(n)[i] + Range(n.id + 1, n.id + 1 + |path|)[i]
    decreases |path|
  {
    hide Ids, IdsAll, RemoveAt, Range;
    if path != [] {
      var k, rest := t.kids[path[0]], path[1..];
      var g := Graft(k, rest, n);
      GraftIds(k, rest, n, i);
      IdsUnfold(t, i);
      IdsUnfold(Graft(t, path, n), i);
      IdsAllMove(t.kids, path[0], g, i);
    }
  }

  lemma IdsUnfold(t: Node, i: BlockId)
    requires !t.Leaf?
    ensures Ids(t)[i] == (if i == t.id then 1 else 0) + IdsAll(t.kids)[i]
  {
    hide IdsAll;
  }

  lemma IdsAllMove(ts: seq<Node>, j: nat, g: Node, i: BlockId)
    requires j < |ts|
    ensures IdsAll(RemoveAt(ts, j) + [g])[i] + Ids(ts[j])[i] == IdsAll(ts)[i] + Ids(g)[i]
  {
    hide Ids, IdsAll, RemoveAt;
    IdsAllRemove(ts, j);
    IdsAllConcat(RemoveAt(ts, j), [g]);
    IdsAllOne(g);
  }

  // ----- invariants of the trees that the file system builds

  /** Links and contents lie below files only, inodes never below links, and links are never overfull. */
  ghost predicate Shape(t: Node) {
    match t
    case Leaf(_, _) => true
    case LinkNode(_, kids) =>
      1 <= |kids| <= BRANCHING_FACTOR && forall k | k in kids :: !k.Inode? && Shape(k)
    case Inode(_, _, stat, kids) =>
      && (stat.IsDir() ==> forall k | k in kids :: k.Inode?)
      && forall k | k in kids :: Shape(k)
  }

  /** Every block has a greater id than each of its children. */
  ghost predicate Ordered(t: Node) {
    forall k | k in t.Kids() :: k.id < t.id && Ordered(k)
  }

  ghost predicate DistinctNames(ts: seq<Node>) {
    forall i, j :: 0 <= i < j < |ts| && ts[i].Inode? && ts[j].Inode? ==> ts[i].name != ts[j].name
  }

  ghost predicate UniqueNames(t: Node) {
    DistinctNames(t.Kids()) && forall k | k in t.Kids() :: UniqueNames(k)
  }

  lemma {:induction false} GraftShape(t: Node, path: seq<nat>, n: Node)
    requires IsPath(t, path) && Shape(t) && Shape(n)
    requires At(t, path).Inode? && n.Inode?
    ensures Shape(Graft(t, path, n)) && Graft(t, path, n).Inode? && t.Inode?
    decreases |path|
  {
    if path != [] {
      var k := t.kids[path[0]];
      assert k in t.kids && Shape(k);
      GraftShape(k, path[1..], n);
      forall j | j in RemoveAt(t.kids, path[0])
        ensures j in t.kids
      {
      }
    }
  }

  lemma {:induction false} GraftOrdered(t: Node, path: seq<nat>, n: Node)
    requires IsPath(t, path) && Ordered(t) && Ordered(n) && t.id < n.id
    ensures Ordered(Graft(t, path, n))
    decreases |path|
  {
    if path != [] {
      var k := t.kids[path[0]];
      assert k in t.kids && Ordered(k);
      GraftOrdered(k, path[1..], n);
      forall j | j in RemoveAt(t.kids, path[0])
        ensures j in t.kids
      {
      }
    }
  }

  // ----- names

  /** The position of the first inode with a name, or the number of children. */
  function ChildIndex(ts: seq<Node>, name: string): (i: nat)
    ensures i <= |ts|
    ensures i < |ts| ==> ts[i].IsNamed(name)
    ensures forall j :: 0 <= j < i ==> !ts[j].IsNamed(name)
  {
    if ts == [] || ts[0].IsNamed(name) then 0 else 1 + ChildIndex(ts[1..], name)
  }

  function Resolve(t: Node, names: seq<string>): (path: Option<seq<nat>>)
    ensures path.Some? ==> |path.value| == |names| && IsPath(t, path.value)
    decreases |names|
  {
    if names == [] then Some([])
    else
      var i := ChildIndex(t.Kids(), names[0]);
      if i == |t.Kids()| then None
      else match Resolve(t.Kids()[i], names[1..])
        case None => None
        case Some(rest) => Some([i] + rest)
  }

  /** The inode that a list of names leads to. */
  function Find(t: Node, names: seq<string>): (r: Option<Node>) {
    match Resolve(t, names)
    case None => None
    case Some(path) => Some(At(t, path))
  }

  lemma FindStep(t: Node, names: seq<string>)
    requires names != []
    ensures var i := ChildIndex(t.Kids(), names[0]);
      Find(t, names) == if i == |t.Kids()| then None else Find(t.Kids()[i], names[1..])
  {
    hide ChildIndex;
    var i := ChildIndex(t.Kids(), names[0]);
    if i < |t.Kids()| {
      var rest := Resolve(t.Kids()[i], names[1..]);
      if rest.Some? {
        assert ([i] + rest.value)[1..] == rest.value;
      }
    }
  }

  lemma {:induction false} ResolvedAreInodes(t: Node, names: seq<string>)
    requires Resolve(t, names).Some? && names != []
    ensures At(t, Resolve(t, names).value).IsNamed(names[|names| - 1])
    decreases |names|
  {
    FindStep(t, names);
    var i := ChildIndex(t.Kids(), names[0]);
    if |names| > 1 {
      ResolvedAreInodes(t.Kids()[i], names[1..]);
    }
  }

  lemma FindsInodes(t: Node, names: seq<string>)
    requires t.Inode? && Resolve(t, names).Some?
    ensures At(t, Resolve(t, names).value).Inode?
  {
    if names != [] {
      ResolvedAreInodes(t, names);
    }
  }

  // ----- file contents

  /** The bytes below a list of blocks, left to right; inodes among them are skipped. */
  function Flatten(ts: seq<Node>): seq<Byte>
    decreases ts, 0
  {
    if ts == [] then [] else Bytes(ts[0]) + Flatten(ts[1..])
  }

  function Bytes(t: Node): seq<Byte>
    decreases t, 1
  {
    match t
    case Leaf(_, data) => data
    case LinkNode(_, kids) => Flatten(kids)
    case Inode(_, _, _, _) => []
  }

  lemma {:induction false} FlattenConcat(a: seq<Node>, b: seq<Node>)
    ensures Flatten(a + b) == Flatten(a) + Flatten(b)
  {
    if a == [] {
      assert a + b == b;
    } else {
      assert (a + b)[1..] == a[1..] + b;
      FlattenConcat(a[1..], b);
      assert Bytes(a[0]) + (Flatten(a[1..]) + Flatten(b)) == Bytes(a[0]) + Flatten(a[1..]) + Flatten(b);
    }
  }

  lemma FlattenInsert(a: seq<Node>, t: Node, b: seq<Node>)
    ensures Flatten(a + [t] + b) == Flatten(a) + Bytes(t) + Flatten(b)
  {
    hide Flatten, Bytes;
    FlattenConcat(a + [t], b);
    FlattenConcat(a, [t]);
    FlattenOne(t);
  }

  lemma FlattenOne(t: Node)
    ensures Flatten([t]) == Bytes(t)
  {
    assert [t][1..] == [];
  }

  /** Moving an inode behind its siblings, or dropping it, leaves the bytes of the parent as they are. */
  lemma FlattenWithoutInode(ts: seq<Node>, i: nat)
    requires i < |ts| && ts[i].Inode?
    ensures Flatten(RemoveAt(ts, i)) == Flatten(ts)
  {
    hide Flatten;
    FlattenInsert(ts[..i], ts[i], ts[i + 1..]);
    FlattenConcat(ts[..i], ts[i + 1..]);
    assert ts == ts[..i] + [ts[i]] + ts[i + 1..];
  }

  // ----- what a graft does to names

  lemma ChildIndexIs(ts: seq<Node>, i: nat, name: string)
    requires i < |ts| && ts[i].IsNamed(name) && DistinctNames(ts)
    ensures ChildIndex(ts, name) == i
  {
    hide ChildIndex;
    var j := ChildIndex(ts, name);
    assert j <= i && ts[j].IsNamed(name);
  }

  ghost predicate SameName(a: Node, b: Node) {
    (a.Inode? <==> b.Inode?) && (a.Inode? ==> a.name == b.name)
  }

  lemma MovedNames(ts: seq<Node>, i: nat, g: Node)
    requires i < |ts| && DistinctNames(ts) && SameName(g, ts[i])
    ensures DistinctNames(RemoveAt(ts, i) + [g])
  {
  }

  /** A lookup among siblings of which one was replaced and moved last. */
  lemma ChildAfterMove(ts: seq<Node>, i: nat, g: Node, name: string)
    requires i < |ts| && DistinctNames(ts) && ts[i].Inode? && SameName(g, ts[i])
    ensures var ts' := RemoveAt(ts, i) + [g];
      var j, j' := ChildIndex(ts, name), ChildIndex(ts', name);
      && (name == g.name ==> j == i && j' == |ts| - 1)
      && (name != g.name ==> (j == |ts| <==> j' == |ts'|))
      && (name != g.name && j < |ts| ==> ts'[j'] == ts[j])
  {
    hide ChildIndex;
    var ts' := RemoveAt(ts, i) + [g];
    MovedNames(ts, i, g);
    if name == g.name {
      ChildIndexIs(ts, i, name);
      ChildIndexIs(ts', |ts| - 1, name);
    } else {
      var j := ChildIndex(ts, name);
      if j < |ts| {
        ChildIndexIs(ts', if j < i then j else j - 1, name);
      } else {
        forall x | 0 <= x < |ts'|
          ensures !ts'[x].IsNamed(name)
        {
          assert x < |ts| - 1 ==> ts'[x] == ts[if x < i then x else x + 1];
        }
      }
    }
  }

  lemma GraftKeepsName(t: Node, path: seq<nat>, n: Node)
    requires IsPath(t, path) && SameName(n, At(t, path))
    ensures SameName(Graft(t, path, n), t)
  {
  }

  /** Grafting a block of the same name keeps sibling names distinct exactly when they are distinct below it. */
  lemma {:induction false} GraftUniqueNames(t: Node, path: seq<nat>, n: Node)
    requires IsPath(t, path) && UniqueNames(t) && SameName(n, At(t, path))
    ensures UniqueNames(Graft(t, path, n)) <==> UniqueNames(n)
    decreases |path|
  {
    hide At, IsPath;
    if path != [] {
      var k, rest := NextOnPath(t, path);
      var g := Graft(k, rest, n);
      GraftUniqueNames(k, rest, n);
      GraftKeepsName(k, rest, n);
      MovedNames(t.kids, path[0], g);
      var kids' := RemoveAt(t.kids, path[0]) + [g];
      forall j | j in kids'
        ensures j == g || j in t.kids
      {
      }
      assert kids'[|kids'| - 1] == g;
    }
  }

  lemma NextOnPath(t: Node, path: seq<nat>) returns (k: Node, rest: seq<nat>)
    requires IsPath(t, path) && path != []
    ensures !t.Leaf? && path[0] < |t.kids| && k == t.kids[path[0]] && k in t.kids && rest == path[1..]
    ensures IsPath(k, rest) && At(t, path) == At(k, rest)
  {
    k, rest := t.kids[path[0]], path[1..];
  }

  /** What a path is seen to name: its attributes and, for a file, its bytes. */
  datatype Entry = Entry(stat: Stat, bytes: seq<Byte>)

  function EntryOf(t: Node): Entry
    requires t.Inode?
  {
    Entry(t.stat, Flatten(t.kids))
  }

  /** A graft is seen at and below its own place only: every other path still leads to the same
    * blocks, and the blocks on the way still show the same attributes and bytes. */
  lemma {:induction false} FindInGraft(t: Node, q: seq<string>, n: Node, p: seq<string>)
    requires UniqueNames(t) && t.Inode? && n.Inode? && Resolve(t, q).Some?
    requires SameName(n, At(t, Resolve(t, q).value))
    ensures var t' := Graft(t, Resolve(t, q).value, n);
      && (q <= p ==> Find(t', p) == Find(n, p[|q|..]))
      && (p < q ==> SameEntry(Find(t', p), Find(t, p)))
      && (!(q <= p) && !(p < q) ==> Find(t', p) == Find(t, p))
    decreases |q|
  {
    hide Find, ChildIndex, Flatten;
    var t' := Graft(t, Resolve(t, q).value, n);
    if q == [] {
      assert p[0..] == p;
    } else {
      var i := ResolveStep(t, q);
      var k := t.kids[i];
      var g := Graft(k, Resolve(k, q[1..]).value, n);
      GraftKeepsName(k, Resolve(k, q[1..]).value, n);
      if p == [] {
        FindHere(t);
        FindHere(t');
        MovedEntry(t, i, g);
      } else {
        FindStep(t, p);
        FindStep(t', p);
        ChildAfterMove(t.kids, i, g, p[0]);
        if p[0] == g.name {
          assert q <= p <==> q[1..] <= p[1..];
          assert p < q <==> p[1..] < q[1..];
          FindInGraft(k, q[1..], n, p[1..]);
        }
      }
    }
  }

  ghost predicate SameEntry(a: Option<Node>, b: Option<Node>) {
    && a.Some? && a.value.Inode?
    && b.Some? && b.value.Inode?
    && EntryOf(a.value) == EntryOf(b.value)
  }

  lemma ResolveStep(t: Node, q: seq<string>) returns (i: nat)
    requires Resolve(t, q).Some? && q != []
    ensures i < |t.Kids()| && t.Kids()[i].IsNamed(q[0]) && t.Kids()[i] in t.Kids()
    ensures Resolve(t.Kids()[i], q[1..]).Some?
    ensures Resolve(t, q).value == [i] + Resolve(t.Kids()[i], q[1..]).value
    ensures At(t, Resolve(t, q).value) == At(t.Kids()[i], Resolve(t.Kids()[i], q[1..]).value)
    ensures i == ChildIndex(t.Kids(), q[0])
  {
    hide ChildIndex;
    i := ChildIndex(t.Kids(), q[0]);
    var rest := Resolve(t.Kids()[i], q[1..]).value;
    assert ([i] + rest)[1..] == rest;
  }

  lemma FindHere(t: Node)
    ensures Find(t, []) == Some(t)
  {
  }

  lemma MovedEntry(t: Node, i: nat, g: Node)
    requires t.Inode? && i < |t.kids| && t.kids[i].Inode? && g.Inode?
    ensures Flatten(RemoveAt(t.kids, i) + [g]) == Flatten(t.kids)
  {
    FlattenWithoutInode(t.kids, i);
    FlattenConcat(RemoveAt(t.kids, i), [g]);
    FlattenOne(g);
  }

  /** The chain to the parent of a path is the chain to the path without its end. */
  lemma {:induction false} ResolveSnoc(t: Node, names: seq<string>)
    requires names != [] && Resolve(t, names).Some?
    ensures var pos := Resolve(t, names).value;
      var up := names[..|names| - 1];
      && Resolve(t, up) == Some(pos[..|pos| - 1])
      && pos[|pos| - 1] == ChildIndex(At(t, pos[..|pos| - 1]).Kids(), names[|names| - 1])
    decreases |names|
  {
    hide ChildIndex;
    var i := ResolveStep(t, names);
    var pos := Resolve(t, names).value;
    if |names| == 1 {
      assert names[1..] == [];
    } else {
      ResolveSnoc(t.Kids()[i], names[1..]);
      assert names[1..][..|names| - 2] == names[..|names| - 1][1..];
      assert pos[1..][..|pos| - 2] == pos[..|pos| - 1][1..];
      assert [i] + pos[1..][..|pos| - 2] == pos[..|pos| - 1];
    }
  }

  lemma UpIsInode(t: Node, names: seq<string>)
    requires t.Inode? && names != [] && Resolve(t, names).Some?
    ensures var pos := Resolve(t, names).value;
      IsPath(t, pos[..|pos| - 1]) && At(t, pos[..|pos| - 1]).Inode?
  {
    ResolveSnoc(t, names);
    FindsInodes(t, names[..|names| - 1]);
  }
}
