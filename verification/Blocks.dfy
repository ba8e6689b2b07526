/** Blocks as they are stored, and the trees that chains of child ids denote
  * (lib/src/block/block.cc and lib/src/block/block_data). */
module Blocks {

  type BlockId = nat
  type Byte = x: int | 0 <= x < 256

  datatype Option<+T> = None | Some(value: T)

  datatype FileType = DIR | REGULAR

  /** `perms` stands for the permission bits and owner, `time` for the three time stamps. */
  datatype Stat = Stat(fileType: FileType, perms: nat, size: nat, time: nat) {
    predicate IsDir() { fileType.DIR? }
  }

  datatype BlockData =
    | DirFile(name: string, stat: Stat, children: seq<BlockId>)
    | Link(children: seq<BlockId>)
    | FileContents(data: seq<Byte>)
  {
    function Children(): seq<BlockId> {
      if FileContents? then [] else children
    }

    /** The same directory, file or link with other children. */
    function WithChildren(ids: seq<BlockId>): BlockData
      requires !FileContents?
    {
      if Link? then Link(ids) else DirFile(name, stat, ids)
    }
  }

  datatype Block = Block(id: BlockId, data: BlockData)

  /** The contents of a block manager. */
  type Store = map<BlockId, Block>

  /** A block together with the trees below it. */
  datatype Node =
    | Inode(id: BlockId, name: string, stat: Stat, kids: seq<Node>)
    | LinkNode(id: BlockId, kids: seq<Node>)
    | Leaf(id: BlockId, data: seq<Byte>)
  {
    function Kids(): seq<Node> {
      if Leaf? then [] else kids
    }

    function ToBlock(): Block {
      Block(id, match this
        case Inode(_, name, stat, kids) => DirFile(name, stat, RootIds(kids))
        case LinkNode(_, kids) => Link(RootIds(kids))
        case Leaf(_, data) => FileContents(data))
    }

    function With(newId: BlockId, newKids: seq<Node>): Node
      requires !Leaf?
    {
      if Inode? then Inode(newId, name, stat, newKids) else LinkNode(newId, newKids)
    }

    predicate IsNamed(other: string) {
      Inode? && name == other
    }
  }

  function RootIds(ts: seq<Node>): (ids: seq<BlockId>)
    ensures |ids| == |ts|
    ensures forall i :: 0 <= i < |ts| ==> ids[i] == ts[i].id
  {
    seq(|ts|, i requires 0 <= i < |ts| => ts[i].id)
  }

  function ToBlocks(ts: seq<Node>): (blocks: seq<Block>)
    ensures |blocks| == |ts|
    ensures forall i :: 0 <= i < |ts| ==> blocks[i] == ts[i].ToBlock()
  {
    seq(|ts|, i requires 0 <= i < |ts| => ts[i].ToBlock())
  }

  /** Every id in a tree, as often as it is reached from the root. */
  ghost function Ids(t: Node): multiset<BlockId>
    decreases t, 1
  {
    multiset{t.id} + if t.Leaf? then multiset{} else IdsAll(t.kids)
  }

  ghost function IdsAll(ts: seq<Node>): multiset<BlockId>
    decreases ts, 0
  {
    if ts == [] then multiset{} else Ids(ts[0]) + IdsAll(ts[1..])
  }

  /** No block is shared: every id is reached once. */
  ghost predicate Distinct(ids: multiset<BlockId>) {
    forall i :: i in ids ==> ids[i] == 1
  }

  /** Every block of tree `t` is in the store, with the children that `t` gives it. */
  ghost predicate Stored(m: Store, t: Node) {
    t.id in m && m[t.id] == t.ToBlock() && forall k | k in t.Kids() :: Stored(m, k)
  }

  ghost predicate AllStored(m: Store, ts: seq<Node>) {
    forall k | k in ts :: Stored(m, k)
  }

  /** The consecutive ids `lo`, ..., `hi - 1`, each once. */
  ghost function Range(lo: BlockId, hi: BlockId): (ids: multiset<BlockId>)
    ensures forall i: BlockId :: ids[i] == if lo <= i < hi then 1 else 0
    decreases hi
  {
    if hi <= lo then multiset{} else Range(lo, hi - 1) + multiset{hi - 1}
  }

  function RemoveAt<T>(s: seq<T>, i: nat): (r: seq<T>)
    requires i < |s|
    ensures |r| == |s| - 1
    ensures forall j :: 0 <= j < |r| ==> r[j] == s[if j < i then j else j + 1]
  {
    s[..i] + s[i + 1..]
  }

  lemma {:induction false} IdsAllConcat(a: seq<Node>, b: seq<Node>)
    ensures IdsAll(a + b) == IdsAll(a) + IdsAll(b)
  {
    if a == [] {
      assert a + b == b;
    } else {
      assert (a + b)[1..] == a[1..] + b;
      IdsAllConcat(a[1..], b);
    }
  }

  lemma IdsAllOne(t: Node)
    ensures IdsAll([t]) == Ids(t)
  {
    assert [t][1..] == [];
  }

  lemma IdsAllInsert(a: seq<Node>, t: Node, b: seq<Node>)
    ensures IdsAll(a + [t] + b) == IdsAll(a + b) + Ids(t)
  {
    hide Ids, IdsAll;
    IdsAllConcat(a + [t], b);
    IdsAllConcat(a, [t]);
    IdsAllConcat(a, b);
    IdsAllOne(t);
  }

  lemma IdsAllRemove(ts: seq<Node>, i: nat)
    requires i < |ts|
    ensures IdsAll(ts) == IdsAll(RemoveAt(ts, i)) + Ids(ts[i])
  {
    hide Ids, IdsAll;
    assert ts == ts[..i] + [ts[i]] + ts[i + 1..];
    IdsAllInsert(ts[..i], ts[i], ts[i + 1..]);
  }

  lemma IdsOfKid(t: Node, k: Node)
    requires k in t.Kids()
    ensures Ids(k) <= IdsAll(t.Kids()) && k.id in IdsAll(t.Kids())
  {
    IdsOfMember(t.Kids(), k);
  }

  lemma IdsOfMember(ts: seq<Node>, k: Node)
    requires k in ts
    ensures Ids(k) <= IdsAll(ts) && k.id in IdsAll(ts)
  {
    var i :| 0 <= i < |ts| && ts[i] == k;
    IdsAllRemove(ts, i);
  }

  lemma IdsOfTwo(ts: seq<Node>, i: nat, j: nat)
    requires i < j < |ts|
    ensures Ids(ts[i]) + Ids(ts[j]) <= IdsAll(ts)
  {
    hide Ids, IdsAll;
    IdsAllRemove(ts, j);
    IdsOfMember(RemoveAt(ts, j), RemoveAt(ts, j)[i]);
  }

  lemma {:induction false} StoredIds(m: Store, t: Node)
    requires Stored(m, t)
    ensures forall i :: i in Ids(t) ==> i in m
    decreases t, 1
  {
    if !t.Leaf? {
      AllStoredIds(m, t.kids);
    }
  }

  lemma {:induction false} AllStoredIds(m: Store, ts: seq<Node>)
    requires AllStored(m, ts)
    ensures forall i :: i in IdsAll(ts) ==> i in m
    decreases ts, 0
  {
    if ts != [] {
      StoredIds(m, ts[0]);
      AllStoredIds(m, ts[1..]);
    }
  }

  /** What a tree denotes depends on its own blocks only. */
  lemma {:induction false} StoredFrame(m: Store, m': Store, t: Node)
    requires Stored(m, t)
    requires forall i :: i in Ids(t) && i in m ==> i in m' && m'[i] == m[i]
    ensures Stored(m', t)
  {
    assert t.id in Ids(t);
    forall k | k in t.Kids()
      ensures Stored(m', k)
    {
      IdsOfKid(t, k);
      StoredFrame(m, m', k);
    }
  }

  lemma AllStoredFrame(m: Store, m': Store, ts: seq<Node>)
    requires AllStored(m, ts)
    requires forall i :: i in IdsAll(ts) && i in m ==> i in m' && m'[i] == m[i]
    ensures AllStored(m', ts)
  {
    forall k | k in ts
      ensures Stored(m', k)
    {
      IdsOfMember(ts, k);
      StoredFrame(m, m', k);
    }
  }

  /** A root id denotes at most one tree: the store decides what lies below it. */
  lemma {:induction false} StoredUnique(m: Store, t: Node, u: Node)
    requires Stored(m, t) && Stored(m, u) && t.id == u.id
    ensures t == u
    decreases t
  {
    assert t.ToBlock() == u.ToBlock();
    assert RootIds(t.Kids()) == t.ToBlock().data.Children() == RootIds(u.Kids());
    forall i | 0 <= i < |t.Kids()|
      ensures t.Kids()[i] == u.Kids()[i]
    {
      assert t.Kids()[i] in t.Kids() && u.Kids()[i] in u.Kids();
      assert RootIds(t.Kids())[i] == RootIds(u.Kids())[i];
      StoredUnique(m, t.Kids()[i], u.Kids()[i]);
    }
    assert t.Kids() == u.Kids();
  }
}
