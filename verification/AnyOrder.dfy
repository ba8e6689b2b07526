/** The tree algorithms where responses come in any order (lib/src/block/block_manager/async_response.cc:43-44,
  * lib/src/fs/block_util.cc, lib/src/fs/block_fuse.cc). To an algorithm that asks for the children of one
  * block after another, the tree then looks like one with its children in another order. */
module AnyOrder {
  import opened Blocks
  import opened BlockTree
  import opened FileLayout
  import opened BlockUtil
  import opened FuseLemmas
  import opened AsyncBlockManagers
  import opened PingBlockManagers
  import opened PathSearch

  /** The same blocks, with the children in any order, at every level. */
  ghost predicate SameButOrder(t: Node, u: Node)
    decreases t, 1
  {
    && t.id == u.id
    && match t
       case Leaf(_, data) => u.Leaf? && u.data == data
       case LinkNode(_, kids) => u.LinkNode? && Reordered(kids, u.kids)
       case Inode(_, name, stat, kids) => u.Inode? && u.name == name && u.stat == stat && Reordered(kids, u.kids)
  }

  ghost predicate Reordered(ts: seq<Node>, us: seq<Node>)
    decreases ts, 0
  {
    if ts == [] then us == []
    else exists i | 0 <= i < |us| :: SameButOrder(ts[0], us[i]) && Reordered(ts[1..], RemoveAt(us, i))
  }

  lemma RemovedMultiset<T>(s: seq<T>, i: nat)
    requires i < |s|
    ensures multiset(s) == multiset(RemoveAt(s, i)) + multiset{s[i]}
  {
    assert s == s[..i] + [s[i]] + s[i + 1..];
  }

  lemma SameMultisetRest<T>(s: seq<T>, p: seq<T>, i: nat)
    requires s != [] && multiset(s) == multiset(p) && i < |p| && p[i] == s[0]
    ensures multiset(s[1..]) == multiset(RemoveAt(p, i))
  {
    RemovedMultiset(p, i);
    assert s == [s[0]] + s[1..];
    var a, b := multiset(s[1..]), multiset(RemoveAt(p, i));
    assert multiset{s[0]} + a == b + multiset{s[0]};
    forall x
      ensures a[x] == b[x]
    {
      assert (multiset{s[0]} + a)[x] == (b + multiset{s[0]})[x];
    }
  }

  /** Blocks in another order, each with its children in another order. */
  lemma {:induction false} PermutedAndBelow(ts: seq<Node>, ps: seq<Node>, us: seq<Node>)
    requires multiset(ts) == multiset(ps) && |ps| == |us|
    requires forall k :: 0 <= k < |ps| ==> SameButOrder(ps[k], us[k])
    ensures Reordered(ts, us)
    decreases |ts|
  {
    hide SameButOrder;
    if ts == [] {
      assert |multiset(ps)| == 0;
    } else {
      assert ts[0] in multiset(ps);
      var i :| 0 <= i < |ps| && ps[i] == ts[0];
      SameMultisetRest(ts, ps, i);
      PermutedAndBelow(ts[1..], RemoveAt(ps, i), RemoveAt(us, i));
    }
  }

  lemma {:induction false} SameItself(t: Node)
    ensures SameButOrder(t, t)
    decreases t
  {
    forall k | k in t.Kids()
      ensures SameButOrder(k, k)
    {
      SameItself(k);
    }
    PermutedAndBelow(t.Kids(), t.Kids(), t.Kids());
  }

  lemma Permuted(ts: seq<Node>, us: seq<Node>)
    requires multiset(ts) == multiset(us)
    ensures Reordered(ts, us)
  {
    forall k | 0 <= k < |us|
      ensures SameButOrder(us[k], us[k])
    {
      SameItself(us[k]);
    }
    PermutedAndBelow(ts, us, us);
  }

  lemma {:induction false} Partner(ts: seq<Node>, us: seq<Node>, j: nat) returns (k: nat)
    requires Reordered(ts, us) && j < |us|
    ensures k < |ts| && SameButOrder(ts[k], us[j])
    decreases |ts|
  {
    hide SameButOrder;
    var i :| 0 <= i < |us| && SameButOrder(ts[0], us[i]) && Reordered(ts[1..], RemoveAt(us, i));
    if i == j {
      k := 0;
    } else {
      var k' := Partner(ts[1..], RemoveAt(us, i), if j < i then j else j - 1);
      k := k' + 1;
    }
  }

  lemma {:induction false} PartnerOf(ts: seq<Node>, us: seq<Node>, k: nat) returns (j: nat)
    requires Reordered(ts, us) && k < |ts|
    ensures j < |us| && SameButOrder(ts[k], us[j])
    decreases |ts|
  {
    hide SameButOrder;
    var i :| 0 <= i < |us| && SameButOrder(ts[0], us[i]) && Reordered(ts[1..], RemoveAt(us, i));
    if k == 0 {
      j := i;
    } else {
      var j' := PartnerOf(ts[1..], RemoveAt(us, i), k - 1);
      j := if j' < i then j' else j' + 1;
    }
  }

  // ----- what does not depend on the order

  /** The ids below are the same, so the recursive free frees the same blocks. */
  lemma {:induction false} SameIds(t: Node, u: Node)
    requires SameButOrder(t, u)
    ensures Ids(t) == Ids(u)
    decreases t, 1
  {
    if !t.Leaf? {
      SameIdsAll(t.kids, u.kids);
    }
  }

  lemma {:induction false} SameIdsAll(ts: seq<Node>, us: seq<Node>)
    requires Reordered(ts, us)
    ensures IdsAll(ts) == IdsAll(us)
    decreases ts, 0
  {
    if ts != [] {
      var i :| 0 <= i < |us| && SameButOrder(ts[0], us[i]) && Reordered(ts[1..], RemoveAt(us, i));
      hide SameButOrder;
      SameIds(ts[0], us[i]);
      SameIdsAll(ts[1..], RemoveAt(us, i));
      IdsAllRemove(us, i);
    }
  }

  /** Where sibling names are distinct, a name leads to the same block. */
  lemma SameChild(ts: seq<Node>, us: seq<Node>, name: string)
    requires Reordered(ts, us) && DistinctNames(ts)
    ensures var i, j := ChildIndex(ts, name), ChildIndex(us, name);
      && (i == |ts| <==> j == |us|)
      && (i < |ts| ==> j < |us| && SameButOrder(ts[i], us[j]))
  {
    hide ChildIndex, Reordered;
    var i, j := ChildIndex(ts, name), ChildIndex(us, name);
    if i < |ts| {
      var j' := PartnerOf(ts, us, i);
      assert us[j'].IsNamed(name);
    }
    if j < |us| {
      var k := Partner(ts, us, j);
      assert ts[k].IsNamed(name);
      ChildIndexIs(ts, k, name);
    }
  }

  lemma {:induction false} SameNamesBelow(t: Node, u: Node, names: seq<string>)
    requires SameButOrder(t, u) && UniqueNames(t)
    ensures Find(t, names).Some? <==> Find(u, names).Some?
    ensures Find(t, names).Some? ==> SameButOrder(Find(t, names).value, Find(u, names).value)
    decreases |names|
  {
    hide Find, ChildIndex;
    if names == [] {
      FindHere(t);
      FindHere(u);
    } else {
      FindStep(t, names);
      FindStep(u, names);
      Permuted([], []);
      SameChild(t.Kids(), u.Kids(), names[0]);
      var i, j := ChildIndex(t.Kids(), names[0]), ChildIndex(u.Kids(), names[0]);
      if i < |t.Kids()| {
        assert t.Kids()[i] in t.Kids();
        SameNamesBelow(t.Kids()[i], u.Kids()[j], names[1..]);
      }
    }
  }

  // ----- when bytes do not depend on the order

  /** Of each two pieces of a file, either may come first, at every level. */
  ghost predicate Commute(ts: seq<Node>) {
    && (forall i, j :: 0 <= i < j < |ts| ==> Swappable(Bytes(ts[i]), Bytes(ts[j])))
    && forall k | k in ts :: k.LinkNode? ==> Commute(k.kids)
  }

  predicate Swappable(a: seq<Byte>, b: seq<Byte>) {
    a + b == b + a
  }

  ghost predicate AlwaysReads(ts: seq<Node>) {
    forall us | Reordered(ts, us) :: Flatten(us) == Flatten(ts)
  }

  lemma SwapPast(x: seq<Byte>, a: seq<Byte>, b: seq<Byte>)
    requires Swappable(x, a) && Swappable(x, b)
    ensures Swappable(x, a + b)
  {
    calc {
      x + (a + b);
      x + a + b;
      a + x + b;
      a + (x + b);
      a + (b + x);
      a + b + x;
    }
  }

  lemma {:induction false} SwapPastAll(x: seq<Byte>, ts: seq<Node>)
    requires forall k :: 0 <= k < |ts| ==> Swappable(x, Bytes(ts[k]))
    ensures Swappable(x, Flatten(ts))
  {
    if ts == [] {
      assert x + [] == x == [] + x;
    } else {
      SwapPastAll(x, ts[1..]);
      SwapPast(x, Bytes(ts[0]), Flatten(ts[1..]));
    }
  }

  lemma {:induction false} CommutingBytes(t: Node, u: Node)
    requires SameButOrder(t, u) && (t.LinkNode? ==> Commute(t.kids))
    ensures Bytes(t) == Bytes(u)
    decreases t, 1
  {
    hide Commute;
    if t.LinkNode? {
      CommutingReads(t.kids, u.kids);
    }
  }

  lemma {:induction false} CommutingReads(ts: seq<Node>, us: seq<Node>)
    requires Reordered(ts, us) && Commute(ts)
    ensures Flatten(us) == Flatten(ts)
    decreases ts, 0
  {
    if ts != [] {
      var i :| 0 <= i < |us| && SameButOrder(ts[0], us[i]) && Reordered(ts[1..], RemoveAt(us, i));
      hide SameButOrder, Reordered;
      var rest := RemoveAt(us, i);
      var x := Bytes(ts[0]);
      CommutingBytes(ts[0], us[i]);
      CommuteTail(ts);
      CommutingReads(ts[1..], rest);
      forall j | 0 <= j < i
        ensures Swappable(x, Bytes(us[j]))
      {
        var k := Partner(ts[1..], rest, j);
        assert ts[1..][k] == ts[k + 1] && ts[k + 1] in ts;
        CommutingBytes(ts[k + 1], us[j]);
        assert Swappable(Bytes(ts[0]), Bytes(ts[k + 1]));
      }
      SwapPastAll(x, us[..i]);
      MovedFront(us, i);
    }
  }

  lemma CommuteTail(ts: seq<Node>)
    requires ts != [] && Commute(ts)
    ensures Commute(ts[1..])
  {
  }

  lemma MovedFront(us: seq<Node>, i: nat)
    requires i < |us| && Swappable(Bytes(us[i]), Flatten(us[..i]))
    ensures Flatten(us) == Bytes(us[i]) + Flatten(RemoveAt(us, i))
  {
    hide Flatten, Bytes;
    var a, b := us[..i], us[i + 1..];
    Parts(us, i);
    FlattenInsert(a, us[i], b);
    FlattenConcat(a, b);
    hide Swappable;
    SwapFirst(Flatten(a), Bytes(us[i]), Flatten(b));
  }

  lemma Parts<T>(s: seq<T>, i: nat)
    requires i < |s|
    ensures s == s[..i] + [s[i]] + s[i + 1..] && RemoveAt(s, i) == s[..i] + s[i + 1..]
  {
  }

  lemma SwapFirst(a: seq<Byte>, x: seq<Byte>, b: seq<Byte>)
    requires Swappable(x, a)
    ensures a + x + b == x + (a + b)
  {
    assert a + x + b == x + a + b;
  }

  /** Two pieces that can be read in either order before the same rest are the same either way. */
  lemma SwappedFront(a: Node, b: Node, rest: seq<Node>)
    requires Flatten([a, b] + rest) == Flatten([b, a] + rest)
    ensures Swappable(Bytes(a), Bytes(b))
  {
    hide Flatten, Bytes;
    TwoFirst(a, b, rest);
    TwoFirst(b, a, rest);
    var ab, ba := Bytes(a) + Bytes(b), Bytes(b) + Bytes(a);
    assert (ab + Flatten(rest))[..|ab|] == ab && (ba + Flatten(rest))[..|ab|] == ba;
  }

  lemma TwoFirst(a: Node, b: Node, rest: seq<Node>)
    ensures Flatten([a, b] + rest) == Bytes(a) + Bytes(b) + Flatten(rest)
  {
    hide Flatten, Bytes;
    assert [a, b] == [a] + [b];
    FlattenConcat([a, b], rest);
    FlattenConcat([a], [b]);
    FlattenOne(a);
    FlattenOne(b);
  }

  lemma ReadsPairs(ts: seq<Node>, i: nat, j: nat)
    requires AlwaysReads(ts) && i < j < |ts|
    ensures Swappable(Bytes(ts[i]), Bytes(ts[j]))
  {
    hide Flatten, Bytes, Swappable, Reordered;
    var rest := RemoveAt(RemoveAt(ts, j), i);
    PairFirst(ts, i, j);
    Permuted(ts, [ts[i], ts[j]] + rest);
    Permuted(ts, [ts[j], ts[i]] + rest);
    SwappedFront(ts[i], ts[j], rest);
  }

  lemma PairFirst(ts: seq<Node>, i: nat, j: nat)
    requires i < j < |ts|
    ensures var rest := RemoveAt(RemoveAt(ts, j), i);
      multiset([ts[i], ts[j]] + rest) == multiset(ts) == multiset([ts[j], ts[i]] + rest)
  {
    RemovedMultiset(ts, j);
    RemovedMultiset(RemoveAt(ts, j), i);
  }

  lemma ReadsBelow(ts: seq<Node>, k: nat)
    requires AlwaysReads(ts) && k < |ts| && ts[k].LinkNode?
    ensures AlwaysReads(ts[k].kids)
  {
    hide Flatten;
    var t := ts[k];
    forall below | Reordered(t.kids, below)
      ensures Flatten(below) == Flatten(t.kids)
    {
      var u := LinkNode(t.id, below);
      var us := ts[k := u];
      OneReordered(ts, k, u);
      assert ts == ts[..k] + [t] + ts[k + 1..] && us == ts[..k] + [u] + ts[k + 1..];
      FlattenInsert(ts[..k], t, ts[k + 1..]);
      FlattenInsert(ts[..k], u, ts[k + 1..]);
      SameMiddle(Flatten(ts[..k]), Bytes(t), Bytes(u), Flatten(ts[k + 1..]));
    }
  }

  lemma OneReordered(ts: seq<Node>, k: nat, u: Node)
    requires k < |ts| && SameButOrder(ts[k], u)
    ensures Reordered(ts, ts[k := u])
  {
    hide SameButOrder;
    forall j | 0 <= j < |ts|
      ensures SameButOrder(ts[j], ts[k := u][j])
    {
      SameItself(ts[j]);
    }
    PermutedAndBelow(ts, ts, ts[k := u]);
  }

  lemma SameMiddle(a: seq<Byte>, x: seq<Byte>, y: seq<Byte>, b: seq<Byte>)
    requires a + x + b == a + y + b
    ensures x == y
  {
    assert |x| == |y|;
    assert (a + x + b)[|a|..|a| + |x|] == x && (a + y + b)[|a|..|a| + |x|] == y;
  }

  /** A file reads as it is stored in whatever order responses come exactly if, at every level, each two
    * pieces can be swapped. */
  lemma {:induction false} AlwaysReadsIff(ts: seq<Node>)
    ensures AlwaysReads(ts) <==> Commute(ts)
    decreases ts
  {
    if Commute(ts) {
      forall us | Reordered(ts, us)
        ensures Flatten(us) == Flatten(ts)
      {
        CommutingReads(ts, us);
      }
    }
    if AlwaysReads(ts) {
      hide AlwaysReads, Swappable, Bytes, Flatten;
      forall i, j | 0 <= i < j < |ts|
        ensures Swappable(Bytes(ts[i]), Bytes(ts[j]))
      {
        ReadsPairs(ts, i, j);
      }
      forall t | t in ts && t.LinkNode?
        ensures Commute(t.kids)
      {
        var k :| 0 <= k < |ts| && ts[k] == t;
        ReadsBelow(ts, k);
        AlwaysReadsIff(t.kids);
      }
    }
  }

  /** So a file that fits in one block always does. */
  lemma OneBlockAlwaysReads(contents: seq<Byte>, base: BlockId)
    requires |contents| <= BYTES_PER_BLOCK
    ensures AlwaysReads(FileKids(contents, base))
  {
    var kids := FileKids(contents, base);
    if contents != [] {
      assert NumLeaves(|contents|) == 1;
      assert kids == Leaves(contents, base) && |kids| == 1;
    }
    AlwaysReadsIff(kids);
  }

  /** Two pieces that are not read as stored in every order. */
  lemma OrderedBytesExample()
    ensures !AlwaysReads([Leaf(1, [1]), Leaf(2, [2])])
  {
    var ts := [Leaf(1, [1]), Leaf(2, [2])];
    assert ([1] + [2])[0] != ([2] + [1])[0];
    AlwaysReadsIff(ts);
    assert !Swappable(Bytes(ts[0]), Bytes(ts[1]));
  }

  // ----- reading over such responses

  /** A manager that answers each request for distinct stored blocks with these blocks in some order. */
  ghost predicate AnswersInSomeOrder(m: Store, respond: seq<BlockId> -> seq<Block>) {
    forall ids: seq<BlockId> | NoRepeats(ids) && (forall i | i in ids :: i in m) ::
      multiset(respond(ids)) == multiset(LookUp(m, ids))
  }

  lemma RootsAreDistinct(ts: seq<Node>)
    requires Distinct(IdsAll(ts))
    ensures NoRepeats(RootIds(ts))
  {
    forall i, j | 0 <= i < j < |ts|
      ensures ts[i].id != ts[j].id
    {
      CountInTwo(ts, i, j, ts[i].id);
      RootInIds(ts[i]);
      RootInIds(ts[j]);
    }
  }

  lemma {:induction false} AsTrees(ts: seq<Node>, response: seq<Block>) returns (ps: seq<Node>)
    requires multiset(response) == multiset(ToBlocks(ts))
    ensures multiset(ps) == multiset(ts) && ToBlocks(ps) == response
    decreases |response|
  {
    if response == [] {
      assert |multiset(ToBlocks(ts))| == |ts|;
      ps := [];
    } else {
      assert response[0] in multiset(ToBlocks(ts));
      var i :| 0 <= i < |ts| && ToBlocks(ts)[i] == response[0];
      RemovedMultiset(ts, i);
      SameMultisetRest(response, ToBlocks(ts), i);
      assert RemoveAt(ToBlocks(ts), i) == ToBlocks(RemoveAt(ts, i));
      var rest := AsTrees(RemoveAt(ts, i), response[1..]);
      ps := [ts[i]] + rest;
      ToBlocksCons(ts[i], rest);
    }
  }

  lemma ToBlocksCons(t: Node, ts: seq<Node>)
    ensures ToBlocks([t] + ts) == [t.ToBlock()] + ToBlocks(ts)
  {
  }

  lemma Responded(m: Store, respond: seq<BlockId> -> seq<Block>, ts: seq<Node>) returns (ps: seq<Node>)
    requires AnswersInSomeOrder(m, respond) && AllStored(m, ts) && Distinct(IdsAll(ts))
    ensures multiset(ps) == multiset(ts) && ToBlocks(ps) == respond(RootIds(ts))
    ensures forall k :: 0 <= k < |ps| ==> ps[k] in ts
  {
    StoredRoots(m, ts);
    RootsAreDistinct(ts);
    assert LookUp(m, RootIds(ts)) == ToBlocks(ts);
    ps := AsTrees(ts, respond(RootIds(ts)));
    forall k | 0 <= k < |ps|
      ensures ps[k] in ts
    {
      assert ps[k] in multiset(ps);
    }
  }

  lemma KidsAreSound(m: Store, ts: seq<Node>, t: Node)
    requires AllStored(m, ts) && Distinct(IdsAll(ts)) && t in ts
    ensures AllStored(m, t.Kids()) && Distinct(IdsAll(t.Kids()))
  {
    MemberIsDistinct(ts, t);
    IdsSplit(t);
    hide Ids, IdsAll;
    forall i | i in IdsAll(t.Kids())
      ensures IdsAll(t.Kids())[i] == 1
    {
      assert Ids(t)[i] == multiset{t.id}[i] + IdsAll(t.Kids())[i];
    }
  }

  lemma MemberIsDistinct(ts: seq<Node>, t: Node)
    requires Distinct(IdsAll(ts)) && t in ts
    ensures Distinct(Ids(t))
  {
    hide Ids, IdsAll;
    IdsOfMember(ts, t);
    forall i | i in Ids(t)
      ensures Ids(t)[i] == 1
    {
      assert 1 <= Ids(t)[i] <= IdsAll(ts)[i];
    }
  }

  /** The program's reading, over such a manager: the bytes are those of the tree with its children in the
    * order in which they came. */
  method GetFileContents(respond: seq<BlockId> -> seq<Block>, ghost m: Store, blocksToCheck: seq<BlockId>,
                         fileBlocks: seq<seq<Byte>>, ghost ts: seq<Node>)
    returns (result: seq<seq<Byte>>, ghost us: seq<Node>)
    requires AnswersInSomeOrder(m, respond) && AllStored(m, ts) && Distinct(IdsAll(ts))
    requires blocksToCheck == RootIds(ts)
    ensures Reordered(ts, us) && Concat(result) == Concat(fileBlocks) + Flatten(us)
    ensures Commute(ts) ==> Concat(result) == Concat(fileBlocks) + Flatten(ts)
    decreases ts
  {
    hide Stored, Flatten, Bytes, Distinct, IdsAll, Ids, AnswersInSomeOrder, Commute, Reordered, AllStored;
    ghost var ps := Responded(m, respond, ts);
    var response := respond(blocksToCheck);
    result, us := fileBlocks, [];
    FlattenNothing();
    for k := 0 to |response|
      invariant |us| == k && forall j :: 0 <= j < k ==> SameButOrder(ps[j], us[j])
      invariant Concat(result) == Concat(fileBlocks) + Flatten(us)
    {
      var data := response[k].data;
      assert response[k] == ps[k].ToBlock() && ps[k] in ts;
      ghost var u := ps[k];
      SameItself(u);
      if data.FileContents? {
        ConcatSnoc(result, data.data);
        result := result + [data.data];
      } else if data.Link? {
        KidsAreSound(m, ts, ps[k]);
        ghost var below;
        result, below := GetFileContents(respond, m, data.children, result, ps[k].kids);
        u := LinkNode(ps[k].id, below);
      }
      FlattenConcat(us, [u]);
      FlattenOne(u);
      BytesUnfold(u);
      us := us + [u];
    }
    PermutedAndBelow(ts, ps, us);
    if Commute(ts) {
      CommutingReads(ts, us);
    }
  }

  lemma BytesUnfold(t: Node)
    ensures Bytes(t) == if t.Leaf? then t.data else if t.LinkNode? then Flatten(t.kids) else []
  {
  }
}
