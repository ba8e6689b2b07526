/** Requests that wait for blocks to arrive (lib/src/block/block_manager/async_response.cc,
  * lib/src/block/block_manager/async_block_manager.cc). */
module AsyncBlockManagers {
  import opened Blocks

  function IdSet(blocks: seq<Block>): set<BlockId> {
    set b | b in blocks :: b.id
  }

  /** The ids of a request, each once. */
  function Asked(ids: seq<BlockId>): set<BlockId> {
    set i | i in ids
  }

  ghost predicate DistinctIds(blocks: seq<Block>) {
    forall i, j :: 0 <= i < j < |blocks| ==> blocks[i].id != blocks[j].id
  }

  class AsyncResponse {
    const request: seq<BlockId>
    var waitingOn: set<BlockId>
    var blocks: seq<Block>
    /** The value of the promise, once it is set. */
    var promise: Option<seq<Block>>
    /** How often the promise was set; a second time would be an error. */
    ghost var timesSet: nat

    /** The ids that have arrived and those waited for make up the request, without overlap, and the
      * promise was set once if nothing is waited for, and otherwise not at all. */
    ghost predicate Valid()
      reads this
    {
      && DistinctIds(blocks)
      && waitingOn + IdSet(blocks) == Asked(request)
      && waitingOn !! IdSet(blocks)
      && promise == (if waitingOn == {} then Some(blocks) else None)
      && timesSet == (if waitingOn == {} then 1 else 0)
    }

    constructor (ids: seq<BlockId>)
      ensures Valid() && request == ids && waitingOn == Asked(ids) && blocks == []
    {
      request := ids;
      waitingOn := Asked(ids);
      blocks := [];
      promise := None;
      timesSet := 0;
      new;
      NotifyIfComplete();
    }

    method NotifyIfComplete()
      requires promise == None && timesSet == 0
      modifies this`promise, this`timesSet
      ensures promise == (if waitingOn == {} then Some(blocks) else None)
      ensures timesSet == if waitingOn == {} then 1 else 0
    {
      if waitingOn == {} {
        promise, timesSet := Some(blocks), timesSet + 1;
      }
    }

    method Update(block: Block)
      requires Valid()
      modifies this
      ensures Valid()
      ensures waitingOn == old(waitingOn) - {block.id}
      ensures blocks == if block.id in old(waitingOn) then old(blocks) + [block] else old(blocks)
    {
      if block.id !in waitingOn {
        return;
      }
      waitingOn := waitingOn - {block.id};
      SnocIds(blocks, block);
      blocks := blocks + [block];
      NotifyIfComplete();
    }
  }

  lemma SnocIds(blocks: seq<Block>, block: Block)
    requires DistinctIds(blocks) && block.id !in IdSet(blocks)
    ensures DistinctIds(blocks + [block]) && IdSet(blocks + [block]) == IdSet(blocks) + {block.id}
  {
    var more := blocks + [block];
    assert forall i :: 0 <= i < |blocks| ==> blocks[i] in blocks && blocks[i].id in IdSet(blocks);
    assert forall b :: b in more <==> b in blocks || b == block;
  }

  class AsyncBlockManager {
    var waiting: map<BlockId, seq<AsyncResponse>>
    /** Every response that was ever handed out. */
    ghost var responses: set<AsyncResponse>

    /** A response waits for an id exactly when it is listed under that id. */
    ghost predicate Valid()
      reads this, responses
    {
      && (forall r | r in responses :: r.Valid())
      && (forall i, r | i in waiting && r in waiting[i] :: r in responses)
      && (forall r, i | r in responses :: i in r.waitingOn <==> i in waiting && r in waiting[i])
    }

    constructor ()
      ensures Valid() && responses == {} && waiting == map[]
    {
      waiting, responses := map[], {};
    }

    /** Hands an arrived block to every response that waits for its id. */
    method Process(block: Block)
      requires Valid()
      modifies this, responses
      ensures Valid() && responses == old(responses)
      ensures forall r | r in responses ::
        && r.waitingOn == old(r.waitingOn) - {block.id}
        && r.blocks == old(r.blocks) + Taken(block, old(r.waitingOn))
    {
      hide AsyncResponse.Valid, IdSet, DistinctIds;
      if block.id !in waiting {
        return;
      }
      var waitingVec := waiting[block.id];
      UpdateAll(waitingVec, block);
      waiting := waiting - {block.id};
    }

    /** Updates responses one by one; a response may be listed twice. */
    method UpdateAll(waitingVec: seq<AsyncResponse>, block: Block)
      requires forall r | r in responses :: r.Valid()
      requires forall r | r in responses :: block.id in r.waitingOn <==> r in waitingVec
      requires forall r | r in waitingVec :: r in responses
      modifies responses
      ensures forall r | r in responses ::
        && r.Valid()
        && r.waitingOn == old(r.waitingOn) - {block.id}
        && r.blocks == old(r.blocks) + Taken(block, old(r.waitingOn))
    {
      hide AsyncResponse.Valid;
      for k := 0 to |waitingVec|
        invariant forall r | r in responses :: r.Valid()
        invariant forall r | r in responses && r in waitingVec[..k] ::
          r.waitingOn == old(r.waitingOn) - {block.id} && r.blocks == old(r.blocks) + [block]
        invariant forall r | r in responses && r !in waitingVec[..k] ::
          r.waitingOn == old(r.waitingOn) && r.blocks == old(r.blocks)
      {
        assert waitingVec[..k + 1] == waitingVec[..k] + [waitingVec[k]];
        assert waitingVec[k] in waitingVec;
        waitingVec[k].Update(block);
      }
      assert waitingVec[..|waitingVec|] == waitingVec;
    }

    /** Registers a new response under each requested id. The caller of `get_blocks` then waits for its
      * promise. */
    method GetBlocks(ids: seq<BlockId>) returns (response: AsyncResponse)
      requires Valid()
      modifies this
      ensures Valid() && fresh(response) && responses == old(responses) + {response}
      ensures response.request == ids
      ensures response.waitingOn == Asked(ids) && response.blocks == []
    {
      response := new AsyncResponse(ids);
      for k := 0 to |ids|
        invariant responses == old(responses) && response !in responses
        invariant response.Valid() && response.blocks == [] && response.request == ids
        invariant response.waitingOn == Asked(ids)
        invariant forall r | r in responses :: r.Valid()
        invariant forall i, r | i in waiting && r in waiting[i] :: r in responses || r == response
        invariant forall r, i | r in responses :: i in r.waitingOn <==> i in waiting && r in waiting[i]
        invariant forall i :: i in ids[..k] <==> i in waiting && response in waiting[i]
      {
        var listed := if ids[k] in waiting then waiting[ids[k]] else [];
        waiting := waiting[ids[k] := listed + [response]];
        assert ids[..k + 1] == ids[..k] + [ids[k]];
      }
      assert ids[..|ids|] == ids;
      responses := responses + {response};
    }

    /** Blocks that arrive one after the other: a response collects the first block that arrives of each id
      * it waits for, in the order of arrival, and is complete exactly when each has arrived. */
    method ProcessAll(arriving: seq<Block>)
      requires Valid()
      modifies this, responses
      ensures Valid() && responses == old(responses)
      ensures forall r | r in responses ::
        && r.waitingOn == old(r.waitingOn) - IdSet(arriving)
        && r.blocks == old(r.blocks) + Firsts(arriving, old(r.waitingOn))
        && r.promise == if old(r.waitingOn) <= IdSet(arriving) then Some(r.blocks) else None
      decreases |arriving|
    {
      hide Firsts;
      if arriving == [] {
        NothingArrives();
        return;
      }
      hide AsyncBlockManager.Valid, Taken, IdSet;
      Process(arriving[0]);
      ProcessAll(arriving[1..]);
      forall r | r in responses
        ensures r.waitingOn == old(r.waitingOn) - IdSet(arriving)
        ensures r.blocks == old(r.blocks) + Firsts(arriving, old(r.waitingOn))
        ensures old(r.waitingOn) - {arriving[0].id} <= IdSet(arriving[1..]) <==> old(r.waitingOn) <= IdSet(arriving)
      {
        AfterArrival(arriving, old(r.waitingOn), old(r.blocks));
      }
    }
  }

  // ----- the order of responses

  /** What a response takes of an arriving block. */
  function Taken(block: Block, waitingOn: set<BlockId>): seq<Block> {
    if block.id in waitingOn then [block] else []
  }

  /** The first block of each id waited for, in the order of arrival. */
  function Firsts(arriving: seq<Block>, waitingOn: set<BlockId>): seq<Block>
    decreases |arriving|
  {
    if arriving == [] then []
    else Taken(arriving[0], waitingOn) + Firsts(arriving[1..], waitingOn - {arriving[0].id})
  }

  lemma NothingArrives()
    ensures IdSet([]) == {} && forall waitingOn :: Firsts([], waitingOn) == []
  {
  }

  lemma AfterArrival(arriving: seq<Block>, waitingOn: set<BlockId>, before: seq<Block>)
    requires arriving != []
    ensures var b, rest := arriving[0], arriving[1..];
      var left := waitingOn - {b.id};
      && before + Taken(b, waitingOn) + Firsts(rest, left) == before + Firsts(arriving, waitingOn)
      && left - IdSet(rest) == waitingOn - IdSet(arriving)
      && (left <= IdSet(rest) <==> waitingOn <= IdSet(arriving))
  {
    var b, rest := arriving[0], arriving[1..];
    FirstsUnfold(arriving, waitingOn);
    IdSetCons(arriving);
    hide IdSet, Taken, Firsts;
    SetLess(waitingOn, b.id, IdSet(rest));
    AppendAssoc(before, Taken(b, waitingOn), Firsts(rest, waitingOn - {b.id}));
  }

  lemma FirstsUnfold(arriving: seq<Block>, waitingOn: set<BlockId>)
    requires arriving != []
    ensures Firsts(arriving, waitingOn)
         == Taken(arriving[0], waitingOn) + Firsts(arriving[1..], waitingOn - {arriving[0].id})
  {
  }

  lemma AppendAssoc(a: seq<Block>, b: seq<Block>, c: seq<Block>)
    ensures a + b + c == a + (b + c)
  {
  }

  lemma SetLess(all: set<BlockId>, i: BlockId, others: set<BlockId>)
    ensures all - {i} - others == all - ({i} + others)
    ensures all - {i} <= others <==> all <= {i} + others
  {
    if all - {i} <= others {
      forall x | x in all
        ensures x in {i} + others
      {
        assert x != i ==> x in all - {i};
      }
    }
  }

  lemma IdSetCons(blocks: seq<Block>)
    requires blocks != []
    ensures IdSet(blocks) == {blocks[0].id} + IdSet(blocks[1..])
  {
    assert forall x :: x in blocks <==> x == blocks[0] || x in blocks[1..];
  }

  /** The place at which the first block with an id arrives. */
  function FirstAt(arriving: seq<Block>, i: BlockId): (at: nat)
    ensures at <= |arriving|
    ensures at < |arriving| ==> arriving[at].id == i
    ensures forall k :: 0 <= k < at ==> arriving[k].id != i
  {
    if arriving == [] || arriving[0].id == i then 0 else 1 + FirstAt(arriving[1..], i)
  }

  /** Each id arrives before those that the request names after it. No id can then occur twice. */
  ghost predicate InOrder(arriving: seq<Block>, ids: seq<BlockId>) {
    forall j, k :: 0 <= j < k < |ids| ==> FirstAt(arriving, ids[j]) < FirstAt(arriving, ids[k])
  }

  /** The blocks of a map, in the order of a request. */
  function LookUp(m: Store, ids: seq<BlockId>): (blocks: seq<Block>)
    requires forall i | i in ids :: i in m
  {
    seq(|ids|, k requires 0 <= k < |ids| => m[ids[k]])
  }

  /** Blocks that can arrive where map `m` was sent out, and that complete a request. */
  ghost predicate Completes(m: Store, ids: seq<BlockId>, arriving: seq<Block>) {
    && (forall b | b in arriving :: b.id in m && m[b.id] == b)
    && (forall i | i in ids :: i in m && m[i].id == i && i in IdSet(arriving))
  }

  lemma {:induction false} FirstsAreWaitedFor(arriving: seq<Block>, waitingOn: set<BlockId>)
    ensures forall b | b in Firsts(arriving, waitingOn) :: b.id in waitingOn
    decreases |arriving|
  {
    if arriving != [] {
      FirstsAreWaitedFor(arriving[1..], waitingOn - {arriving[0].id});
    }
  }

  lemma FirstsStep(arriving: seq<Block>, waitingOn: set<BlockId>)
    requires arriving != []
    ensures var b, rest := arriving[0], arriving[1..];
      Firsts(arriving, waitingOn)
        == if b.id in waitingOn then [b] + Firsts(rest, waitingOn - {b.id}) else Firsts(rest, waitingOn)
  {
    if arriving[0].id !in waitingOn {
      assert waitingOn - {arriving[0].id} == waitingOn;
      assert [] + Firsts(arriving[1..], waitingOn) == Firsts(arriving[1..], waitingOn);
    }
  }

  /** The response to a request is what a map would return, in the order of the request, exactly if the
    * blocks first arrive in the order in which the request names them. */
  lemma {:induction false} ResponseIsLookUpIff(m: Store, ids: seq<BlockId>, arriving: seq<Block>)
    requires Completes(m, ids, arriving)
    ensures Firsts(arriving, Asked(ids)) == LookUp(m, ids) <==> InOrder(arriving, ids)
    decreases |arriving|
  {
    hide Firsts, FirstAt, InOrder, Completes, LookUp;
    NonEmptyArrivals(m, ids, arriving);
    if ids == [] {
      NothingAskedFor(m, ids, arriving);
    } else {
      var b, rest := arriving[0], arriving[1..];
      FirstsStep(arriving, Asked(ids));
      if b.id !in ids {
        LaterCompletes(m, ids, arriving);
        ResponseIsLookUpIff(m, ids, rest);
        OrderOfLater(arriving, ids);
      } else if b.id != ids[0] {
        WrongFirst(m, ids, arriving);
      } else if b.id in ids[1..] {
        RepeatedFirst(m, ids, arriving);
      } else {
        LookUpStep(m, ids, b);
        assert Asked(ids) - {b.id} == Asked(ids[1..]);
        RestCompletes(m, ids, arriving);
        LaterCompletes(m, ids[1..], arriving);
        ResponseIsLookUpIff(m, ids[1..], rest);
        OrderOfRest(arriving, ids);
        SameCons(b, Firsts(rest, Asked(ids[1..])), LookUp(m, ids[1..]));
      }
    }
  }

  lemma SameCons(b: Block, s: seq<Block>, t: seq<Block>)
    ensures [b] + s == [b] + t <==> s == t
  {
    assert ([b] + s)[1..] == s && ([b] + t)[1..] == t;
  }

  lemma NonEmptyArrivals(m: Store, ids: seq<BlockId>, arriving: seq<Block>)
    requires Completes(m, ids, arriving)
    ensures ids != [] ==> arriving != []
    ensures forall i | i in ids :: i in m && m[i].id == i
    ensures arriving != [] ==> arriving[0].id in m && m[arriving[0].id] == arriving[0]
  {
    if ids != [] {
      assert ids[0] in IdSet(arriving);
    }
  }

  lemma NothingAskedFor(m: Store, ids: seq<BlockId>, arriving: seq<Block>)
    requires ids == []
    ensures Firsts(arriving, Asked(ids)) == LookUp(m, ids) == []
    ensures InOrder(arriving, ids)
  {
    assert Asked(ids) == {};
    NothingWaitedFor(arriving);
    assert |LookUp(m, ids)| == 0;
  }

  lemma LookUpStep(m: Store, ids: seq<BlockId>, b: Block)
    requires ids != [] && (forall i | i in ids :: i in m) && m[ids[0]] == b
    ensures forall i | i in ids[1..] :: i in m
    ensures LookUp(m, ids) == [b] + LookUp(m, ids[1..])
  {
  }

  lemma RestCompletes(m: Store, ids: seq<BlockId>, arriving: seq<Block>)
    requires ids != [] && Completes(m, ids, arriving)
    ensures Completes(m, ids[1..], arriving)
  {
  }

  lemma OrderOfLater(arriving: seq<Block>, ids: seq<BlockId>)
    requires arriving != [] && arriving[0].id !in ids
    ensures InOrder(arriving, ids) <==> InOrder(arriving[1..], ids)
  {
    assert forall k :: 0 <= k < |ids| ==> ids[k] in ids;
    assert forall k :: 0 <= k < |ids| ==> FirstAt(arriving, ids[k]) == 1 + FirstAt(arriving[1..], ids[k]);
  }

  lemma WrongFirst(m: Store, ids: seq<BlockId>, arriving: seq<Block>)
    requires ids != [] && arriving != [] && arriving[0].id in ids && arriving[0].id != ids[0]
    requires forall i | i in ids :: i in m && m[i].id == i
    ensures Firsts(arriving, Asked(ids)) != LookUp(m, ids) && !InOrder(arriving, ids)
  {
    FirstsStep(arriving, Asked(ids));
    var k :| 0 <= k < |ids| && ids[k] == arriving[0].id;
    assert FirstAt(arriving, ids[k]) == 0;
    assert !(FirstAt(arriving, ids[0]) < FirstAt(arriving, ids[k]));
    assert LookUp(m, ids)[0] == m[ids[0]];
  }

  lemma {:induction false} NothingWaitedFor(arriving: seq<Block>)
    ensures Firsts(arriving, {}) == []
    decreases |arriving|
  {
    if arriving != [] {
      assert {} - {arriving[0].id} == {};
      NothingWaitedFor(arriving[1..]);
    }
  }

  lemma LaterCompletes(m: Store, ids: seq<BlockId>, arriving: seq<Block>)
    requires arriving != [] && Completes(m, ids, arriving) && arriving[0].id !in ids
    ensures Completes(m, ids, arriving[1..])
  {
    forall i | i in ids
      ensures i in IdSet(arriving[1..])
    {
      var b :| b in arriving && b.id == i;
      assert b in arriving[1..];
    }
  }

  lemma RepeatedFirst(m: Store, ids: seq<BlockId>, arriving: seq<Block>)
    requires Completes(m, ids, arriving) && arriving != [] && ids != []
    requires ids[0] == arriving[0].id && ids[0] in ids[1..]
    ensures !InOrder(arriving, ids) && Firsts(arriving, Asked(ids)) != LookUp(m, ids)
  {
    var all := Asked(ids);
    var k :| 0 <= k < |ids| - 1 && ids[1..][k] == ids[0];
    assert ids[k + 1] == ids[0];
    assert FirstAt(arriving, ids[0]) == 0 == FirstAt(arriving, ids[k + 1]);
    FirstsStep(arriving, all);
    var rest := Firsts(arriving[1..], all - {ids[0]});
    FirstsAreWaitedFor(arriving[1..], all - {ids[0]});
    assert forall j | 0 <= j < |rest| :: rest[j] in rest && rest[j].id != ids[0];
    assert LookUp(m, ids)[k + 1] == m[ids[0]];
  }

  lemma OrderOfRest(arriving: seq<Block>, ids: seq<BlockId>)
    requires arriving != [] && ids != [] && ids[0] == arriving[0].id && ids[0] !in ids[1..]
    ensures InOrder(arriving, ids) <==> InOrder(arriving[1..], ids[1..])
  {
    var rest, tail := arriving[1..], ids[1..];
    forall k | 0 <= k < |tail|
      ensures ids[k + 1] == tail[k] && FirstAt(arriving, ids[k + 1]) == 1 + FirstAt(rest, tail[k])
    {
      assert tail[k] in tail;
    }
    assert FirstAt(arriving, ids[0]) == 0;
    hide FirstAt;
    if InOrder(rest, tail) {
      forall j, k | 0 <= j < k < |ids|
        ensures FirstAt(arriving, ids[j]) < FirstAt(arriving, ids[k])
      {
        assert FirstAt(arriving, ids[k - 1 + 1]) == 1 + FirstAt(rest, tail[k - 1]);
        if j > 0 {
          assert FirstAt(arriving, ids[j - 1 + 1]) == 1 + FirstAt(rest, tail[j - 1]);
        }
      }
    }
    if InOrder(arriving, ids) {
      forall j, k | 0 <= j < k < |tail|
        ensures FirstAt(rest, tail[j]) < FirstAt(rest, tail[k])
      {
        assert FirstAt(arriving, ids[j + 1]) < FirstAt(arriving, ids[k + 1]);
      }
    }
  }

  /** A request, and then arrivals that complete it. */
  method AskAndWait(mgr: AsyncBlockManager, m: Store, ids: seq<BlockId>, arriving: seq<Block>)
    returns (response: AsyncResponse)
    requires mgr.Valid() && Completes(m, ids, arriving)
    modifies mgr, mgr.responses
    ensures mgr.Valid() && response.promise == Some(Firsts(arriving, Asked(ids)))
    ensures response.promise == Some(LookUp(m, ids)) <==> InOrder(arriving, ids)
  {
    response := mgr.GetBlocks(ids);
    mgr.ProcessAll(arriving);
    hide Firsts, InOrder, LookUp, AsyncBlockManager.Valid;
    ResponseIsLookUpIff(m, ids, arriving);
    assert [] + Firsts(arriving, Asked(ids)) == Firsts(arriving, Asked(ids));
  }

  /** A caller that needs the order of the request, whatever order blocks arrive in, may ask for one block
    * at most. */
  lemma EveryOrderIff(m: Store, ids: seq<BlockId>)
    requires forall i | i in ids :: i in m && m[i].id == i
    ensures (forall arriving | Completes(m, ids, arriving) :: Firsts(arriving, Asked(ids)) == LookUp(m, ids))
       <==> |ids| <= 1
  {
    if |ids| <= 1 {
      forall arriving | Completes(m, ids, arriving)
        ensures Firsts(arriving, Asked(ids)) == LookUp(m, ids)
      {
        ResponseIsLookUpIff(m, ids, arriving);
      }
    } else {
      var arriving := [m[ids[1]]] + LookUp(m, ids);
      forall i | i in ids
        ensures i in IdSet(arriving)
      {
        var k :| 0 <= k < |ids| && ids[k] == i;
        assert arriving[k + 1] == m[i];
        assert m[i] in arriving;
      }
      assert Completes(m, ids, arriving);
      assert FirstAt(arriving, ids[1]) == 0;
      ResponseIsLookUpIff(m, ids, arriving);
    }
  }

  /** Two blocks of a file that arrive the other way round. */
  lemma OrderExample()
    ensures var a, b := Block(1, FileContents([1])), Block(2, FileContents([2]));
      var m: Store := map[1 := a, 2 := b];
      Firsts([b, a], {1, 2}) == [b, a] && LookUp(m, [1, 2]) == [a, b]
  {
    var a, b := Block(1, FileContents([1])), Block(2, FileContents([2]));
    FirstsStep([b, a], {1, 2});
    FirstsStep([a], {1, 2} - {2});
    NothingWaitedFor([]);
    assert [b, a][1..] == [a] && [a][1..] == [];
    assert Firsts([], {1, 2} - {2} - {1}) == [];
  }
}
