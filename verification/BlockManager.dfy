/** The in-memory block manager with its id counter (lib/src/block/block_manager/memory_block_manager.cc,
  * lib/src/block/block_manager/id_supplier/counter_supplier.cc). */
module BlockManager {
  import opened Blocks

  /** A store without the blocks whose ids are in `gone`. */
  ghost function Without(m: Store, gone: multiset<BlockId>): Store {
    map i | i in m && i !in gone :: m[i]
  }

  lemma WithoutTwice(m: Store, a: multiset<BlockId>, b: multiset<BlockId>)
    ensures Without(Without(m, a), b) == Without(m, a + b)
  {
  }

  /** `m'` is `m` and new blocks with the ids `lo`, ..., `hi - 1`. */
  ghost predicate Grew(m: Store, m': Store, lo: BlockId, hi: BlockId) {
    && lo <= hi
    && (forall i :: i in m ==> i in m' && m'[i] == m[i])
    && (forall i :: i in m' <==> i in m || lo <= i < hi)
  }

  lemma GrewMore(m: Store, m1: Store, m2: Store, lo: BlockId, mid: BlockId, hi: BlockId)
    requires Grew(m, m1, lo, mid) && Grew(m1, m2, mid, hi)
    ensures Grew(m, m2, lo, hi)
  {
  }

  ghost function Count(m: Store, i: BlockId): nat {
    if i in m then 1 else 0
  }

  /** Each id that was handed out is either stored or was freed exactly once. */
  ghost predicate Conserves(m: Store, freed: multiset<BlockId>, next: BlockId) {
    forall i :: Count(m, i) + freed[i] == Range(1, next)[i]
  }

  class MemoryBlockManager {
    var blocks: Store
    var nextId: BlockId
    /** Every call of `FreeBlock` so far. */
    ghost var freed: multiset<BlockId>

    ghost predicate Valid()
      reads this
    {
      && 1 <= nextId
      && forall i | i in blocks :: blocks[i].id == i && 1 <= i < nextId
    }

    ghost predicate Conserved()
      reads this
    {
      Conserves(blocks, freed, nextId)
    }

    constructor ()
      ensures Valid() && Conserved()
      ensures blocks == map[] && nextId == 1 && freed == multiset{}
    {
      blocks, nextId, freed := map[], 1, multiset{};
    }

    method CreateBlock(data: BlockData) returns (block: Block)
      requires Valid()
      modifies this
      ensures Valid()
      ensures block == Block(old(nextId), data)
      ensures blocks == old(blocks)[block.id := block]
      ensures nextId == old(nextId) + 1 && freed == old(freed)
      ensures Grew(old(blocks), blocks, old(nextId), nextId)
    {
      block := Block(nextId, data);
      nextId := nextId + 1;
      blocks := blocks[block.id := block];
    }

    method FreeBlock(id: BlockId)
      requires Valid()
      modifies this
      ensures Valid()
      ensures blocks == Without(old(blocks), multiset{id})
      ensures nextId == old(nextId) && freed == old(freed) + multiset{id}
    {
      blocks := blocks - {id};
      freed := freed + multiset{id};
    }

    /** The blocks in the order of the request. A missing id would yield a null block, so callers ask
      * for stored ids only. */
    method GetBlocks(ids: seq<BlockId>) returns (response: seq<Block>)
      requires forall i | i in ids :: i in blocks
      ensures |response| == |ids|
      ensures forall k :: 0 <= k < |ids| ==> response[k] == blocks[ids[k]]
    {
      response := [];
      for k := 0 to |ids|
        invariant |response| == k
        invariant forall j :: 0 <= j < k ==> response[j] == blocks[ids[j]]
      {
        response := response + [blocks[ids[k]]];
      }
    }
  }
}
