/** The block manager whose storage is the network (lib/src/block/block_manager/ping/ping_block_manager.cc,
  * ping_block_service.cc, track_freed_service.cc). It answers requests like a map from ids to blocks, up
  * to order. */
module PingBlockManagers {
  import opened Blocks
  import opened AsyncBlockManagers
  import opened PingCirculation

  /** A ping that came back; `block` stands for the decoded body. */
  datatype EchoReply = EchoReply(identifier: nat, sequenceNumber: nat, block: Block)

  class TrackFreedService {
    var freedIds: set<BlockId>

    constructor ()
      ensures freedIds == {}
    {
      freedIds := {};
    }

    method FreeBlock(id: BlockId)
      modifies this
      ensures freedIds == old(freedIds) + {id}
    {
      freedIds := freedIds + {id};
    }

    /** Whether to send a block again. The answer "no" is given once for each free. */
    method ShouldRecycle(id: BlockId) returns (recycle: bool)
      modifies this
      ensures recycle <==> id !in old(freedIds)
      ensures freedIds == old(freedIds) - {id}
    {
      if id !in freedIds {
        return true;
      }
      freedIds := freedIds - {id};
      return false;
    }
  }

  // ----- what a map lookup returns

  ghost predicate NoRepeats<T>(s: seq<T>) {
    forall i, j :: 0 <= i < j < |s| ==> s[i] != s[j]
  }

  /** Exactly one block for each requested id, and the one that was created with that id. */
  ghost predicate Answers(m: Store, ids: seq<BlockId>, blocks: seq<Block>) {
    && DistinctIds(blocks)
    && IdSet(blocks) == Asked(ids)
    && forall b | b in blocks :: b.id in m && m[b.id] == b
  }

  lemma {:induction false} CountsOnce<T>(s: seq<T>, x: T)
    requires NoRepeats(s)
    ensures multiset(s)[x] == if x in s then 1 else 0
  {
    if s != [] {
      assert s == [s[0]] + s[1..];
      CountsOnce(s[1..], x);
    }
  }

  lemma {:induction false} Cardinality<T>(s: seq<T>, all: set<T>)
    requires forall x :: x in all <==> x in s
    ensures |all| <= |s|
    ensures |all| == |s| <==> NoRepeats(s)
    decreases |s|
  {
    if s == [] {
      assert all == {};
    } else {
      var first, rest := s[0], s[1..];
      assert forall x :: x in s <==> x == first || x in rest;
      RepeatsOfCons(s);
      if first in rest {
        Cardinality(rest, all);
      } else {
        Cardinality(rest, all - {first});
      }
    }
  }

  lemma RepeatsOfCons<T>(s: seq<T>)
    requires s != []
    ensures NoRepeats(s) <==> s[0] !in s[1..] && NoRepeats(s[1..])
  {
    var rest := s[1..];
    assert forall j :: 0 <= j < |rest| ==> rest[j] == s[j + 1];
    assert forall j :: 0 < j < |s| ==> s[j] == rest[j - 1];
    if s[0] in rest {
      var j :| 0 <= j < |rest| && rest[j] == s[0];
      assert s[j + 1] == s[0];
    }
  }

  /** An answer is a permutation of what a map lookup returns exactly when no id is requested twice. */
  lemma AnswerIsLookUp(m: Store, ids: seq<BlockId>, blocks: seq<Block>)
    requires Answers(m, ids, blocks) && forall i | i in m :: m[i].id == i
    ensures forall i | i in ids :: i in m
    ensures multiset(blocks) == multiset(LookUp(m, ids)) <==> NoRepeats(ids)
  {
    forall i | i in ids
      ensures i in m
    {
      assert i in IdSet(blocks);
    }
    var found := LookUp(m, ids);
    if NoRepeats(ids) {
      AnswerIsPermutation(m, ids, blocks);
    } else {
      Cardinality(ids, IdSet(blocks));
      DistinctBlocks(blocks);
      assert |blocks| < |ids|;
      assert |multiset(found)| == |ids| && |multiset(blocks)| == |blocks|;
    }
  }

  lemma DistinctBlocks(blocks: seq<Block>)
    requires DistinctIds(blocks)
    ensures |IdSet(blocks)| == |blocks|
  {
    var ids := seq(|blocks|, k requires 0 <= k < |blocks| => blocks[k].id);
    assert forall k :: 0 <= k < |blocks| ==> blocks[k] in blocks && ids[k] == blocks[k].id;
    Cardinality(ids, IdSet(blocks));
  }

  lemma AnswerIsPermutation(m: Store, ids: seq<BlockId>, blocks: seq<Block>)
    requires Answers(m, ids, blocks) && NoRepeats(ids)
    requires forall i | i in m :: m[i].id == i
    requires forall i | i in ids :: i in m
    ensures multiset(blocks) == multiset(LookUp(m, ids))
  {
    var found := LookUp(m, ids);
    assert NoRepeats(blocks);
    assert NoRepeats(found);
    forall b
      ensures multiset(blocks)[b] == multiset(found)[b]
    {
      CountsOnce(blocks, b);
      CountsOnce(found, b);
      if b in blocks {
        assert b.id in IdSet(blocks);
        var k :| 0 <= k < |ids| && ids[k] == b.id;
        assert found[k] == b;
      }
      if b in found {
        var k :| 0 <= k < |found| && found[k] == b;
        assert ids[k] in ids;
        assert b.id in IdSet(blocks);
      }
    }
  }

  lemma IsGenuine(s: Net, b: Block)
    requires Inv(s) && Enabled(s, Arrive(b))
    ensures Genuine(s, b)
  {
    hide Law;
  }

  class PingBlockManager {
    const fsId: nat
    const serviceId: nat
    const service: TrackFreedService
    const async: AsyncBlockManager
    var nextId: BlockId
    /** The network, and what has happened on it. */
    ghost var net: Net

    ghost predicate Valid()
      reads this, service, async, async.responses
    {
      && async.Valid()
      && Inv(net) && net.freedIds == service.freedIds
      && (forall i | i in net.sent :: i < nextId)
      && (forall r | r in async.responses :: forall b | b in r.blocks :: Genuine(net, b))
    }

    constructor (fsId: nat, serviceId: nat)
      ensures Valid() && fresh(service) && fresh(async)
      ensures this.fsId == fsId && this.serviceId == serviceId && net == EMPTY_NET && async.responses == {}
    {
      this.fsId, this.serviceId := fsId, serviceId;
      service := new TrackFreedService();
      async := new AsyncBlockManager();
      nextId, net := 1, EMPTY_NET;
    }

    /** A new block is stored by sending it out. */
    method CreateBlock(data: BlockData) returns (block: Block)
      requires Valid()
      modifies this
      ensures Valid() && block == Block(old(nextId), data) && nextId == old(nextId) + 1
      ensures Enabled(old(net), Register(block)) && net == Next(old(net), Register(block))
      ensures block.id !in old(net).sent
    {
      hide Inv, Next, AsyncBlockManager.Valid;
      block := Block(nextId, data);
      nextId := nextId + 1;
      NextFields(net, Register(block));
      NextGenuine(net, Register(block));
      NextKeepsInv(net, Register(block));
      net := Next(net, Register(block));
    }

    method FreeBlock(id: BlockId)
      requires Valid()
      modifies this, service
      ensures Valid() && net == Next(old(net), Free(id)) && nextId == old(nextId)
    {
      hide Inv, Next, AsyncBlockManager.Valid;
      service.FreeBlock(id);
      NextFields(net, Free(id));
      NextGenuine(net, Free(id));
      NextKeepsInv(net, Free(id));
      net := Next(net, Free(id));
    }

    method GetBlocks(ids: seq<BlockId>) returns (response: AsyncResponse)
      requires Valid()
      modifies async
      ensures Valid() && fresh(response) && async.responses == old(async.responses) + {response}
      ensures response.request == ids
      ensures response.waitingOn == Asked(ids)
    {
      response := async.GetBlocks(ids);
    }

    /** The first half of handling a reply: a reply of another sender is ignored; the block of one of our
      * own is published to all who wait for it, whether or not it has been freed. */
    method Receive(reply: EchoReply) returns (ours: bool)
      requires Valid()
      requires reply.identifier == fsId && reply.sequenceNumber == serviceId ==> Enabled(net, Arrive(reply.block))
      modifies this, async, async.responses
      ensures Valid() && async.responses == old(async.responses) && nextId == old(nextId)
      ensures ours <==> reply.identifier == fsId && reply.sequenceNumber == serviceId
      ensures net == if ours then Next(old(net), Arrive(reply.block)) else old(net)
      ensures forall r | r in async.responses ::
        && r.waitingOn == (if ours then old(r.waitingOn) - {reply.block.id} else old(r.waitingOn))
        && r.blocks == if ours then old(r.blocks) + Taken(reply.block, old(r.waitingOn)) else old(r.blocks)
    {
      hide Inv, Next, AsyncResponse.Valid;
      if reply.identifier != fsId {
        return false;
      }
      if reply.sequenceNumber != serviceId {
        return false;
      }
      NextKeepsInv(net, Arrive(reply.block));
      NextFields(net, Arrive(reply.block));
      NextGenuine(net, Arrive(reply.block));
      IsGenuine(net, reply.block);
      async.Process(reply.block);
      net := Next(net, Arrive(reply.block));
      return true;
    }

    /** The second half: the block is sent out again unless it was freed. Frees and requests may come
      * between the halves. */
    method RecycleOrDrop(block: Block) returns (again: bool)
      requires Valid() && Enabled(net, Recycle(block))
      modifies this, service
      ensures Valid() && nextId == old(nextId)
      ensures net == Next(old(net), Recycle(block))
      ensures again <==> block.id !in old(service.freedIds)
    {
      hide Inv, Next, AsyncBlockManager.Valid;
      NextFields(net, Recycle(block));
      NextGenuine(net, Recycle(block));
      again := service.ShouldRecycle(block.id);
      NextKeepsInv(net, Recycle(block));
      net := Next(net, Recycle(block));
    }

    /** Every completed request holds exactly one block for each id asked for, with the data it was
      * created with: the blocks a map would return, in some order. */
    lemma CompletedRequestsAnswer(r: AsyncResponse)
      requires Valid() && r in async.responses && r.promise.Some?
      ensures Answers(net.sent, r.request, r.promise.value)
      ensures forall i | i in r.request :: i in net.sent
      ensures multiset(r.promise.value) == multiset(LookUp(net.sent, r.request)) <==> NoRepeats(r.request)
    {
      assert r.Valid();
      assert r.waitingOn == {} && r.promise.value == r.blocks;
      AnswerIsLookUp(net.sent, r.request, r.blocks);
    }
  }
}
