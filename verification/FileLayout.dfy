/** How the bytes of a file are laid out in leaf blocks under layers of links
  * (lib/src/fs/block_util.cc, `replace_blocks_for_contents` and `add_link_layer`). */
module FileLayout {
  import opened Blocks
  import opened BlockTree

  function Max(a: nat, b: nat): nat { if a < b then b else a }

  function Min(a: nat, b: nat): nat { if a < b then a else b }

  function CeilDiv(n: nat, d: nat): nat
    requires d > 0
  {
    (n + d - 1) / d
  }

  /** `std::string::substr`: a count that runs past the end is cut off. */
  function Substr(s: seq<Byte>, pos: nat, count: nat): seq<Byte>
    requires pos <= |s|
  {
    s[pos..Min(pos + count, |s|)]
  }

  /** How many leaves hold `size` bytes. */
  function NumLeaves(size: nat): (n: nat)
    ensures n == CeilDiv(size, BYTES_PER_BLOCK)
    ensures forall i: nat :: i < n <==> i * BYTES_PER_BLOCK < size
  {
    var n := size / BYTES_PER_BLOCK;
    if n * BYTES_PER_BLOCK != size then n + 1 else n
  }

  /** The data of leaf `i`. The count passed to `substr` is the larger of the leaf's end and the
    * size of the file, not the length of one leaf. */
  function LeafData(contents: seq<Byte>, i: nat): (data: seq<Byte>)
    requires i < NumLeaves(|contents|)
    ensures data == contents[i * BYTES_PER_BLOCK..]
  {
    Substr(contents, i * BYTES_PER_BLOCK, Max((i + 1) * BYTES_PER_BLOCK, |contents|))
  }

  function LeavesUpTo(contents: seq<Byte>, base: BlockId, n: nat): (ts: seq<Node>)
    requires n <= NumLeaves(|contents|)
    ensures |ts| == n
  {
    seq(n, i requires 0 <= i < n => Leaf(base + i, LeafData(contents, i)))
  }

  function Leaves(contents: seq<Byte>, base: BlockId): (ts: seq<Node>)
    ensures |ts| == NumLeaves(|contents|)
  {
    LeavesUpTo(contents, base, NumLeaves(|contents|))
  }

  /** Link `i` of a layer over `ts`: it holds the next few blocks, fewer at the end. */
  function LinkOver(ts: seq<Node>, base: BlockId, i: nat): (link: Node)
    requires i < CeilDiv(|ts|, BRANCHING_FACTOR)
    ensures link.LinkNode? && 1 <= |link.kids| <= BRANCHING_FACTOR
    ensures link.kids <= ts[i * BRANCHING_FACTOR..]
  {
    LinkNode(base + i, ts[i * BRANCHING_FACTOR..Min((i + 1) * BRANCHING_FACTOR, |ts|)])
  }

  function LinksUpTo(ts: seq<Node>, base: BlockId, n: nat): (links: seq<Node>)
    requires n <= CeilDiv(|ts|, BRANCHING_FACTOR)
    ensures |links| == n
  {
    seq(n, i requires 0 <= i < n => LinkOver(ts, base, i))
  }

  function LinkLayer(ts: seq<Node>, base: BlockId): (links: seq<Node>)
    ensures |links| == CeilDiv(|ts|, BRANCHING_FACTOR)
  {
    LinksUpTo(ts, base, CeilDiv(|ts|, BRANCHING_FACTOR))
  }

  function Layers(ts: seq<Node>, depth: nat, base: BlockId): seq<Node>
    decreases depth
  {
    if depth == 0 then ts
    else Layers(LinkLayer(ts, base), depth - 1, base + CeilDiv(|ts|, BRANCHING_FACTOR))
  }

  /** How many links `depth` layers over `n` blocks take. */
  function LinkCount(n: nat, depth: nat): nat
    decreases depth
  {
    if depth == 0 then 0
    else
      var c := CeilDiv(n, BRANCHING_FACTOR);
      c + LinkCount(c, depth - 1)
  }

  /** The number of layers, ceil(log(n) / log(BRANCHING_FACTOR)) without rounding. */
  function LinkDepth(n: nat): nat
    requires n > 0
  {
    if n == 1 then 0 else 1 + LinkDepth(CeilDiv(n, BRANCHING_FACTOR))
  }

  /** The subtrees that hold the contents of a file, with ids from `base` on. */
  function FileKids(contents: seq<Byte>, base: BlockId): seq<Node> {
    if contents == [] then []
    else
      var n := NumLeaves(|contents|);
      Layers(Leaves(contents, base), LinkDepth(n), base + n)
  }

  function FileKidsCount(size: nat): nat {
    if size == 0 then 0
    else
      var n := NumLeaves(size);
      n + LinkCount(n, LinkDepth(n))
  }

  /** The bytes that a file comes to hold when `contents` is written to it: the contents, then again
    * everything behind its first block, and so on. */
  function StoredBytes(contents: seq<Byte>): seq<Byte> {
    if |contents| <= BYTES_PER_BLOCK then contents
    else contents + StoredBytes(contents[BYTES_PER_BLOCK..])
  }

  // ----- a layer of links means what the blocks under it mean

  lemma LinksSnoc(ts: seq<Node>, base: BlockId, n: nat)
    requires n < CeilDiv(|ts|, BRANCHING_FACTOR)
    ensures LinksUpTo(ts, base, n + 1) == LinksUpTo(ts, base, n) + [LinkOver(ts, base, n)]
    ensures ts[..Min((n + 1) * BRANCHING_FACTOR, |ts|)]
         == ts[..n * BRANCHING_FACTOR] + LinkOver(ts, base, n).kids
    ensures n * BRANCHING_FACTOR < |ts| && Min(n * BRANCHING_FACTOR, |ts|) == n * BRANCHING_FACTOR
  {
  }

  lemma {:induction false} FlattenLinks(ts: seq<Node>, base: BlockId, n: nat)
    requires n <= CeilDiv(|ts|, BRANCHING_FACTOR)
    ensures Flatten(LinksUpTo(ts, base, n)) == Flatten(ts[..Min(n * BRANCHING_FACTOR, |ts|)])
  {
    if n > 0 {
      FlattenLinks(ts, base, n - 1);
      LinksSnoc(ts, base, n - 1);
      var link := LinkOver(ts, base, n - 1);
      FlattenConcat(LinksUpTo(ts, base, n - 1), [link]);
      FlattenOne(link);
      FlattenConcat(ts[..(n - 1) * BRANCHING_FACTOR], link.kids);
    }
  }

  lemma {:induction false} IdsOfLinks(ts: seq<Node>, base: BlockId, n: nat, i: BlockId)
    requires n <= CeilDiv(|ts|, BRANCHING_FACTOR)
    ensures IdsAll(LinksUpTo(ts, base, n))[i]
         == IdsAll(ts[..Min(n * BRANCHING_FACTOR, |ts|)])[i] + Range(base, base + n)[i]
  {
    hide LinksUpTo, Ids, Range;
    if n == 0 {
      assert LinksUpTo(ts, base, n) == [] && ts[..0] == [];
    } else {
      IdsOfLinks(ts, base, n - 1, i);
      LinksSnoc(ts, base, n - 1);
      var link := LinkOver(ts, base, n - 1);
      IdsAllConcat(LinksUpTo(ts, base, n - 1), [link]);
      IdsAllOne(link);
      IdsUnfold(link, i);
      IdsAllConcat(ts[..(n - 1) * BRANCHING_FACTOR], link.kids);
    }
  }

  /** A block that can lie below a file: no inode, and nothing irregular below it. */
  ghost predicate IsContent(t: Node, bound: BlockId) {
    !t.Inode? && Shape(t) && Ordered(t) && UniqueNames(t) && t.id < bound
  }

  ghost predicate AreContents(ts: seq<Node>, bound: BlockId) {
    forall t | t in ts :: IsContent(t, bound)
  }

  lemma LayerIsContent(ts: seq<Node>, base: BlockId)
    requires AreContents(ts, base)
    ensures AreContents(LinkLayer(ts, base), base + CeilDiv(|ts|, BRANCHING_FACTOR))
  {
    var links := LinkLayer(ts, base);
    forall i | 0 <= i < |links|
      ensures IsContent(links[i], base + |links|)
    {
      var link := LinkOver(ts, base, i);
      assert links[i] == link;
      forall k | k in link.kids
        ensures IsContent(k, base)
      {
        assert k in ts;
      }
    }
  }

  /** However many layers of links are put over blocks, reading them left to right gives the bytes of
    * the blocks in order, and exactly the new ids come in. */
  lemma {:induction false} LayersMean(ts: seq<Node>, depth: nat, base: BlockId)
    requires AreContents(ts, base)
    ensures var kids := Layers(ts, depth, base);
      var end := base + LinkCount(|ts|, depth);
      && Flatten(kids) == Flatten(ts)
      && AreContents(kids, end)
      && forall i :: IdsAll(kids)[i] == IdsAll(ts)[i] + Range(base, end)[i]
    decreases depth
  {
    hide LinksUpTo, Flatten, IdsAll, AreContents, Range;
    if depth > 0 {
      var c := CeilDiv(|ts|, BRANCHING_FACTOR);
      var layer := LinkLayer(ts, base);
      LayerIsContent(ts, base);
      LayersMean(layer, depth - 1, base + c);
      FlattenLinks(ts, base, c);
      assert ts[..Min(c * BRANCHING_FACTOR, |ts|)] == ts;
      forall i
        ensures IdsAll(layer)[i] == IdsAll(ts)[i] + Range(base, base + c)[i]
      {
        IdsOfLinks(ts, base, c, i);
      }
    }
  }

  // ----- leaves

  lemma LeavesSnoc(contents: seq<Byte>, base: BlockId, n: nat)
    requires n < NumLeaves(|contents|)
    ensures LeavesUpTo(contents, base, n + 1)
         == LeavesUpTo(contents, base, n) + [Leaf(base + n, LeafData(contents, n))]
  {
  }

  lemma {:induction false} IdsOfLeaves(contents: seq<Byte>, base: BlockId, n: nat, i: BlockId)
    requires n <= NumLeaves(|contents|)
    ensures IdsAll(LeavesUpTo(contents, base, n))[i] == Range(base, base + n)[i]
  {
    hide NumLeaves, LeafData, LeavesUpTo, IdsAll, Range;
    if n == 0 {
      FlattenNothing();
    } else {
      IdsOfLeaves(contents, base, n - 1, i);
      LeavesSnoc(contents, base, n - 1);
      var leaf := Leaf(base + (n - 1), LeafData(contents, n - 1));
      IdsAllConcat(LeavesUpTo(contents, base, n - 1), [leaf]);
      IdsAllOne(leaf);
    }
  }

  /** Leaf `n` and those behind it hold what would be stored for the contents from leaf `n` on. */
  lemma {:induction false} FlattenLeavesFrom(contents: seq<Byte>, base: BlockId, n: nat)
    requires n < NumLeaves(|contents|)
    ensures Flatten(Leaves(contents, base)[n..]) == StoredBytes(contents[n * BYTES_PER_BLOCK..])
    decreases NumLeaves(|contents|) - n
  {
    var leaves := Leaves(contents, base);
    var rest := contents[n * BYTES_PER_BLOCK..];
    assert leaves[n..][0] == leaves[n] && leaves[n] == Leaf(base + n, rest);
    assert leaves[n..][1..] == leaves[n + 1..];
    if n + 1 < |leaves| {
      FlattenLeavesFrom(contents, base, n + 1);
      assert rest[BYTES_PER_BLOCK..] == contents[(n + 1) * BYTES_PER_BLOCK..];
    } else {
      assert leaves[n + 1..] == [];
    }
  }

  lemma LeavesAreContents(contents: seq<Byte>, base: BlockId)
    ensures AreContents(Leaves(contents, base), base + NumLeaves(|contents|))
  {
  }

  /** The subtrees built for a write: their bytes, their ids, and their form. */
  lemma FileKidsMean(contents: seq<Byte>, base: BlockId)
    ensures var kids := FileKids(contents, base);
      var end := base + FileKidsCount(|contents|);
      && Flatten(kids) == StoredBytes(contents)
      && AreContents(kids, end)
      && forall i :: IdsAll(kids)[i] == Range(base, end)[i]
  {
    hide Flatten, IdsAll, Leaves, LeavesUpTo, Layers, LinkCount, LinkDepth, Range, IsContent;
    if contents != [] {
      var n := NumLeaves(|contents|);
      var leaves := Leaves(contents, base);
      LeavesAreContents(contents, base);
      LayersMean(leaves, LinkDepth(n), base + n);
      FlattenLeavesFrom(contents, base, 0);
      assert leaves[0..] == leaves && contents[0..] == contents;
      forall i
        ensures IdsAll(leaves)[i] == Range(base, base + n)[i]
      {
        LeavesIds(contents, base, i);
      }
    } else {
      FlattenNothing();
    }
  }

  lemma LeavesIds(contents: seq<Byte>, base: BlockId, i: BlockId)
    ensures IdsAll(Leaves(contents, base))[i] == Range(base, base + NumLeaves(|contents|))[i]
  {
    IdsOfLeaves(contents, base, NumLeaves(|contents|), i);
  }

  lemma FlattenNothing()
    ensures Flatten([]) == [] && IdsAll([]) == multiset{}
  {
  }

  /** The stored bytes always begin with the contents that were written, and are no more than
    * these exactly when they fit in one block. */
  lemma StoredBytesExact(contents: seq<Byte>)
    ensures contents <= StoredBytes(contents)
    ensures StoredBytes(contents) == contents <==> |contents| <= BYTES_PER_BLOCK
  {
    if |contents| > BYTES_PER_BLOCK {
      StoredBytesLength(contents[BYTES_PER_BLOCK..]);
    }
  }

  /** A file of one byte more than a block: its last byte is stored twice. */
  lemma OverlongLeafExample()
    ensures var contents: seq<Byte> := seq(1001, _ => 7);
      StoredBytes(contents) == contents + [7]
  {
    var contents: seq<Byte> := seq(1001, _ => 7);
    assert contents[BYTES_PER_BLOCK..] == [7];
  }

  lemma {:induction false} StoredBytesLength(contents: seq<Byte>)
    ensures |StoredBytes(contents)| >= |contents|
  {
  }

  // ----- leaves cut at the end of each block, as intended

  function CutLeaf(contents: seq<Byte>, i: nat): seq<Byte>
    requires i < NumLeaves(|contents|)
  {
    Substr(contents, i * BYTES_PER_BLOCK, BYTES_PER_BLOCK)
  }

  function CutLeavesFrom(contents: seq<Byte>, i: nat): seq<Byte>
    requires i <= NumLeaves(|contents|)
    decreases NumLeaves(|contents|) - i
  {
    if i == NumLeaves(|contents|) then [] else CutLeaf(contents, i) + CutLeavesFrom(contents, i + 1)
  }

  /** Leaves of at most one block each, read in order, are the contents: the overlong count is what
    * breaks the round trip, not the split. */
  lemma {:induction false} CutLeavesMean(contents: seq<Byte>, i: nat)
    requires i <= NumLeaves(|contents|)
    ensures CutLeavesFrom(contents, i) == contents[Min(i * BYTES_PER_BLOCK, |contents|)..]
    decreases NumLeaves(|contents|) - i
  {
    if i < NumLeaves(|contents|) {
      hide NumLeaves;
      CutLeavesMean(contents, i + 1);
      CutLeafThenRest(contents, i);
    }
  }

  lemma CutLeafThenRest(contents: seq<Byte>, i: nat)
    requires i < NumLeaves(|contents|)
    ensures CutLeaf(contents, i) + contents[Min((i + 1) * BYTES_PER_BLOCK, |contents|)..]
         == contents[Min(i * BYTES_PER_BLOCK, |contents|)..]
  {
    hide NumLeaves;
  }

  // ----- the height of the tree of links

  function Pow(base: nat, exponent: nat): nat {
    if exponent == 0 then 1 else base * Pow(base, exponent - 1)
  }

  /** The depth is the least number of layers that can hold all leaves under one link. */
  lemma {:induction false} LinkDepthIsLeast(n: nat, depth: nat)
    requires n > 0
    ensures LinkDepth(n) <= depth <==> n <= Pow(BRANCHING_FACTOR, depth)
    decreases depth
  {
    if n > 1 && depth > 0 {
      LinkDepthIsLeast(CeilDiv(n, BRANCHING_FACTOR), depth - 1);
    } else if n == 1 {
      PowPositive(depth);
    }
  }

  lemma {:induction false} PowPositive(depth: nat)
    ensures Pow(BRANCHING_FACTOR, depth) >= 1
  {
    if depth > 0 {
      PowPositive(depth - 1);
    }
  }

  /** Four blocks fit under one link, a fifth needs another, and both then hang from a third. */
  lemma FiveLeavesExample()
    ensures LinkDepth(4) == 1 && LinkCount(4, 1) == 1
    ensures LinkDepth(5) == 2 && LinkCount(5, 2) == 3
  {
    assert CeilDiv(4, BRANCHING_FACTOR) == 1 && CeilDiv(5, BRANCHING_FACTOR) == 2 && CeilDiv(2, BRANCHING_FACTOR) == 1;
    assert LinkCount(2, 1) == 1;
  }

  /** A file of any size hangs from one child of its inode, and has fewer links than leaves. */
  lemma {:induction false} OneKidPerFile(ts: seq<Node>, base: BlockId)
    requires ts != []
    ensures |Layers(ts, LinkDepth(|ts|), base)| == 1
    ensures LinkCount(|ts|, LinkDepth(|ts|)) < |ts|
    decreases |ts|
  {
    if |ts| > 1 {
      var c := CeilDiv(|ts|, BRANCHING_FACTOR);
      OneKidPerFile(LinkLayer(ts, base), base + c);
    }
  }
}
