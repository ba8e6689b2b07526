/** Blocks stored as pings in flight, as a state machine
  * (lib/src/block/block_manager/ping/ping_block_service.cc, track_freed_service.cc). The network loses
  * and duplicates nothing: each ping sent comes back once. */
module PingCirculation {
  import opened Blocks

  /** `flying` are the pings on the network and `held` those that came back and were published, but not
    * yet checked for being freed. The last three fields count what has happened so far, by id. */
  datatype Net = Net(sent: Store, flying: multiset<Block>, held: multiset<Block>, freedIds: set<BlockId>,
                     registered: multiset<BlockId>, dropped: multiset<BlockId>, frees: multiset<BlockId>)

  datatype Event =
    | Register(block: Block)
    | Arrive(block: Block)
    | Recycle(block: Block)
    | Free(id: BlockId)

  const EMPTY_NET := Net(map[], multiset{}, multiset{}, {}, multiset{}, multiset{}, multiset{})

  /** What can happen next. A block may be registered more than once, but an id names one block only. */
  predicate Enabled(s: Net, e: Event) {
    match e
    case Register(b) => b.id in s.sent ==> s.sent[b.id] == b
    case Arrive(b) => b in s.flying
    case Recycle(b) => b in s.held
    case Free(_) => true
  }

  function Next(s: Net, e: Event): Net {
    match e
    case Register(b) => Registered(s, b)
    case Arrive(b) => Arrived(s, b)
    case Recycle(b) => if b.id in s.freedIds then Dropped(s, b) else SentAgain(s, b)
    case Free(id) => Freed(s, id)
  }

  function Registered(s: Net, b: Block): Net {
    Net(s.sent[b.id := b], s.flying + multiset{b}, s.held, s.freedIds,
        s.registered + multiset{b.id}, s.dropped, s.frees)
  }

  function Arrived(s: Net, b: Block): Net {
    Net(s.sent, s.flying - multiset{b}, s.held + multiset{b}, s.freedIds, s.registered, s.dropped, s.frees)
  }

  function Dropped(s: Net, b: Block): Net {
    Net(s.sent, s.flying, s.held - multiset{b}, s.freedIds - {b.id},
        s.registered, s.dropped + multiset{b.id}, s.frees)
  }

  function SentAgain(s: Net, b: Block): Net {
    Net(s.sent, s.flying + multiset{b}, s.held - multiset{b}, s.freedIds, s.registered, s.dropped, s.frees)
  }

  function Freed(s: Net, id: BlockId): Net {
    Net(s.sent, s.flying, s.held, s.freedIds + {id}, s.registered, s.dropped, s.frees + multiset{id})
  }

  /** How many pings carry the block with an id. */
  function Copies(s: Net, i: BlockId): nat {
    if i in s.sent then s.flying[s.sent[i]] + s.held[s.sent[i]] else 0
  }

  function Bit(b: bool): nat { if b then 1 else 0 }

  ghost predicate Genuine(s: Net, b: Block) {
    b.id in s.sent && s.sent[b.id] == b
  }

  ghost predicate GenuineBlocks(sent: Store, blocks: multiset<Block>) {
    forall b | b in blocks :: b.id in sent && sent[b.id] == b
  }

  ghost predicate AllGenuine(s: Net) {
    && GenuineBlocks(s.sent, s.flying)
    && GenuineBlocks(s.sent, s.held)
    && (forall i | i in s.sent :: s.sent[i].id == i)
  }

  /** For each id, copies in flight and drops make up the registrations, and no drop lacks a free of its own. */
  ghost predicate Law(s: Net, i: BlockId) {
    && Copies(s, i) + s.dropped[i] == s.registered[i]
    && s.dropped[i] + Bit(i in s.freedIds) <= s.frees[i]
  }

  ghost predicate Inv(s: Net) {
    AllGenuine(s) && forall i :: Law(s, i)
  }

  lemma MoreGenuine(sent: Store, blocks: multiset<Block>, b: Block)
    requires GenuineBlocks(sent, blocks)
    ensures b.id in sent && sent[b.id] == b ==> GenuineBlocks(sent, blocks + multiset{b})
    ensures GenuineBlocks(sent, blocks - multiset{b})
    ensures b.id !in sent || sent[b.id] == b ==> GenuineBlocks(sent[b.id := b], blocks)
  {
  }

  lemma RegisterKeepsGenuine(s: Net, b: Block)
    requires AllGenuine(s) && Enabled(s, Register(b))
    ensures AllGenuine(Next(s, Register(b)))
  {
    hide GenuineBlocks;
    MoreGenuine(s.sent, s.flying, b);
    MoreGenuine(s.sent, s.held, b);
    MoreGenuine(s.sent[b.id := b], s.flying, b);
  }

  lemma MovesKeepGenuine(s: Net, e: Event)
    requires AllGenuine(s) && (e.Arrive? || e.Recycle?) && Enabled(s, e)
    ensures AllGenuine(Next(s, e))
  {
    assert Genuine(s, e.block);
    hide GenuineBlocks;
    MoreGenuine(s.sent, s.flying, e.block);
    MoreGenuine(s.sent, s.held, e.block);
  }

  lemma NextKeepsGenuine(s: Net, e: Event)
    requires AllGenuine(s) && Enabled(s, e)
    ensures AllGenuine(Next(s, e))
  {
    hide GenuineBlocks;
    match e
    case Register(b) => RegisterKeepsGenuine(s, b);
    case Arrive(_) => MovesKeepGenuine(s, e);
    case Recycle(_) => MovesKeepGenuine(s, e);
    case Free(_) =>
  }

  lemma NextKeepsLaw(s: Net, e: Event, i: BlockId)
    requires AllGenuine(s) && Law(s, i) && Enabled(s, e)
    ensures Law(Next(s, e), i)
  {
    match e
    case Register(b) => RegisterKeepsLaw(s, b, i);
    case Arrive(b) => ArriveKeepsLaw(s, b, i);
    case Recycle(b) => RecycleKeepsLaw(s, b, i);
    case Free(_) =>
  }

  lemma ArriveKeepsLaw(s: Net, b: Block, i: BlockId)
    requires AllGenuine(s) && Law(s, i) && b in s.flying
    ensures Law(Arrived(s, b), i)
  {
    assert Genuine(s, b);
    hide GenuineBlocks;
  }

  lemma RecycleKeepsLaw(s: Net, b: Block, i: BlockId)
    requires AllGenuine(s) && Law(s, i) && b in s.held
    ensures b.id in s.freedIds ==> Law(Dropped(s, b), i)
    ensures b.id !in s.freedIds ==> Law(SentAgain(s, b), i)
  {
    assert Genuine(s, b);
    hide GenuineBlocks;
  }

  lemma RegisterKeepsLaw(s: Net, b: Block, i: BlockId)
    requires AllGenuine(s) && Law(s, i) && Enabled(s, Register(b))
    ensures Law(Next(s, Register(b)), i)
  {
    if b.id == i && i !in s.sent {
      assert b !in s.flying && b !in s.held;
    }
  }

  lemma NextKeepsInv(s: Net, e: Event)
    requires Inv(s) && Enabled(s, e)
    ensures Inv(Next(s, e))
  {
    hide AllGenuine, Law, Enabled, Next;
    NextKeepsGenuine(s, e);
    forall i
      ensures Law(Next(s, e), i)
    {
      assert Law(s, i);
      NextKeepsLaw(s, e, i);
    }
  }

  /** What an event does to the sent blocks and the freed ids. */
  lemma NextFields(s: Net, e: Event)
    ensures var s' := Next(s, e);
      && s'.sent == (if e.Register? then s.sent[e.block.id := e.block] else s.sent)
      && s'.freedIds == (if e.Free? then s.freedIds + {e.id}
                         else if e.Recycle? then s.freedIds - {e.block.id} else s.freedIds)
  {
    match e
    case Register(_) =>
    case Arrive(_) =>
    case Recycle(b) =>
      if b.id !in s.freedIds {
        NotThere(s.freedIds, b.id);
      }
    case Free(_) =>
  }

  lemma NotThere(ids: set<BlockId>, id: BlockId)
    requires id !in ids
    ensures ids - {id} == ids
  {
  }

  lemma NextGenuine(s: Net, e: Event)
    requires Enabled(s, e)
    ensures forall b | Genuine(s, b) :: Genuine(Next(s, e), b)
  {
    hide Next;
    NextFields(s, e);
  }

  // ----- whole runs

  function RunNet(s: Net, events: seq<Event>): Net
    decreases |events|
  {
    if events == [] then s else RunNet(Next(s, events[0]), events[1..])
  }

  predicate AllEnabled(s: Net, events: seq<Event>)
    decreases |events|
  {
    events == [] || (Enabled(s, events[0]) && AllEnabled(Next(s, events[0]), events[1..]))
  }

  function Registrations(events: seq<Event>, i: BlockId): nat {
    if events == [] then 0
    else Bit(events[0].Register? && events[0].block.id == i) + Registrations(events[1..], i)
  }

  function Frees(events: seq<Event>, i: BlockId): nat {
    if events == [] then 0 else Bit(events[0] == Free(i)) + Frees(events[1..], i)
  }

  /** The recycle checks of a block that find it freed. */
  function Drops(s: Net, events: seq<Event>, i: BlockId): nat
    decreases |events|
  {
    if events == [] then 0
    else
      var found := events[0].Recycle? && events[0].block.id == i && i in s.freedIds;
      Bit(found) + Drops(Next(s, events[0]), events[1..], i)
  }

  lemma NextCounts(s: Net, e: Event, i: BlockId)
    ensures var s' := Next(s, e);
      && s'.registered[i] == s.registered[i] + Bit(e.Register? && e.block.id == i)
      && s'.frees[i] == s.frees[i] + Bit(e == Free(i))
      && s'.dropped[i] == s.dropped[i] + Bit(e.Recycle? && e.block.id == i && i in s.freedIds)
  {
  }

  lemma {:induction false} RunCounts(s: Net, events: seq<Event>, i: BlockId)
    requires Inv(s) && AllEnabled(s, events)
    ensures var last := RunNet(s, events);
      && Inv(last)
      && last.registered[i] == s.registered[i] + Registrations(events, i)
      && last.frees[i] == s.frees[i] + Frees(events, i)
      && last.dropped[i] == s.dropped[i] + Drops(s, events, i)
    decreases |events|
  {
    hide Inv, Enabled, Next, Bit;
    if events != [] {
      NextKeepsInv(s, events[0]);
      NextCounts(s, events[0], i);
      RunCounts(Next(s, events[0]), events[1..], i);
    }
  }

  /** Conservation over every run from an empty network: a block is in flight as often as it was
    * registered, less the recycle checks that found it freed, of which there are no more than frees. */
  lemma CopiesAreConserved(events: seq<Event>, i: BlockId)
    requires AllEnabled(EMPTY_NET, events)
    ensures var last := RunNet(EMPTY_NET, events);
      && Copies(last, i) + Drops(EMPTY_NET, events, i) == Registrations(events, i)
      && Drops(EMPTY_NET, events, i) + Bit(i in last.freedIds) <= Frees(events, i)
  {
    hide Registrations, Frees, Drops, RunNet, AllEnabled, AllGenuine;
    EmptyInv();
    RunCounts(EMPTY_NET, events, i);
    assert Law(RunNet(EMPTY_NET, events), i);
  }

  lemma EmptyInv()
    ensures Inv(EMPTY_NET)
  {
  }

  /** A block that was registered once and freed at most once is in flight in exactly one copy until the
    * first recycle check that sees the free, and in none after it. */
  lemma OneCopyUntilFreed(events: seq<Event>, i: BlockId)
    requires AllEnabled(EMPTY_NET, events)
    requires Registrations(events, i) == 1 && Frees(events, i) <= 1
    ensures Copies(RunNet(EMPTY_NET, events), i) == 1 - Drops(EMPTY_NET, events, i)
    ensures Frees(events, i) == 0 ==> Copies(RunNet(EMPTY_NET, events), i) == 1
  {
    CopiesAreConserved(events, i);
  }

  /** A free is never lost: as long as no drop has answered it, the next recycle check of the block drops it. */
  lemma {:induction false} FreeIsRemembered(s: Net, events: seq<Event>, i: BlockId)
    requires i in s.freedIds && Drops(s, events, i) == 0
    ensures i in RunNet(s, events).freedIds
    decreases |events|
  {
    if events != [] {
      FreeIsRemembered(Next(s, events[0]), events[1..], i);
    }
  }

  // ----- blocks that go on being sent

  /** The recycle checks of a block that find it not freed, and send it out again. */
  function Resent(s: Net, events: seq<Event>, i: BlockId): nat
    decreases |events|
  {
    if events == [] then 0
    else
      var found := events[0].Recycle? && events[0].block.id == i && i !in s.freedIds;
      Bit(found) + Resent(Next(s, events[0]), events[1..], i)
  }

  lemma NextInFlight(s: Net, e: Event, i: BlockId)
    requires AllGenuine(s) && Enabled(s, e)
    ensures InFlight(Next(s, e), i) + Bit(e.Arrive? && e.block.id == i)
         == InFlight(s, i) + Bit(e.Register? && e.block.id == i)
          + Bit(e.Recycle? && e.block.id == i && i !in s.freedIds)
  {
    match e
    case Arrive(b) => ArriveWhileFreed(s, b, i);
    case Recycle(b) => RecycleInFlight(s, b, i);
    case Register(b) => RegisterWhileFreed(s, b, i);
    case Free(_) =>
  }

  lemma RecycleInFlight(s: Net, b: Block, i: BlockId)
    requires AllGenuine(s) && b in s.held
    ensures InFlight(Next(s, Recycle(b)), i) == InFlight(s, i) + Bit(b.id == i && i !in s.freedIds)
  {
    assert Genuine(s, b);
    if i in s.sent {
      assert s.sent[i].id == i;
    }
    hide AllGenuine;
  }

  /** A block that comes back and is not freed goes out again: over every run, each sending of a block, first or
    * again, is on the network or was published. */
  lemma {:induction false} SendingsAreConserved(s: Net, events: seq<Event>, i: BlockId)
    requires Inv(s) && AllEnabled(s, events)
    ensures InFlight(RunNet(s, events), i) + Published(events, i)
         == InFlight(s, i) + Registrations(events, i) + Resent(s, events, i)
    decreases |events|
  {
    hide Enabled, Next, Law, AllGenuine, InFlight, Bit;
    if events != [] {
      NextKeepsInv(s, events[0]);
      NextInFlight(s, events[0], i);
      SendingsAreConserved(Next(s, events[0]), events[1..], i);
    }
  }

  /** So a block with a copy that is not freed can always come back to be published: its ping is on the network,
    * or held for a check that sends it out again. */
  lemma StoredBlockComesBack(s: Net, i: BlockId)
    requires Inv(s) && i in s.sent && i !in s.freedIds && Copies(s, i) > 0
    ensures var b := s.sent[i];
      AllEnabled(s, [Arrive(b)]) || AllEnabled(s, [Recycle(b), Arrive(b)])
  {
    var b := s.sent[i];
    assert b.id == i;
    RunCons(s, Arrive(b), []);
    if b !in s.flying {
      var s' := Next(s, Recycle(b));
      RecycleInFlight(s, b, i);
      assert s'.sent == s.sent;
      assert InFlight(s', i) == s'.flying[b] == 1;
      RunCons(s, Recycle(b), [Arrive(b)]);
      RunCons(s', Arrive(b), []);
      assert [Recycle(b)] + [Arrive(b)] == [Recycle(b), Arrive(b)];
    }
    assert [Arrive(b)] + [] == [Arrive(b)];
  }

  // ----- blocks published after they were freed

  /** How often a block is published: once for each arrival, whether or not it was freed. */
  function Published(events: seq<Event>, i: BlockId): nat {
    if events == [] then 0
    else Bit(events[0].Arrive? && events[0].block.id == i) + Published(events[1..], i)
  }

  /** How many pings with a block are on the network, that is, have not come back to be published. */
  function InFlight(s: Net, i: BlockId): nat {
    if i in s.sent then s.flying[s.sent[i]] else 0
  }

  /** Of a block with at most one copy, now or in the `left` registrations to come: a free is remembered, or
    * there is nothing left to be dropped. */
  ghost predicate WillBeDropped(s: Net, i: BlockId, left: nat) {
    && Copies(s, i) + left <= 1
    && (i in s.freedIds || Copies(s, i) + left == 0)
  }

  lemma NextWhileFreed(s: Net, e: Event, i: BlockId, left: nat)
    requires AllGenuine(s) && Enabled(s, e) && WillBeDropped(s, i, Bit(e.Register? && e.block.id == i) + left)
    ensures var s' := Next(s, e);
      && WillBeDropped(s', i, left)
      && InFlight(s', i) + Bit(e.Arrive? && e.block.id == i) == InFlight(s, i) + Bit(e.Register? && e.block.id == i)
  {
    match e
    case Arrive(b) => ArriveWhileFreed(s, b, i);
    case Recycle(b) => RecycleWhileFreed(s, b, i, left);
    case Register(b) => RegisterWhileFreed(s, b, i);
    case Free(_) =>
  }

  lemma RegisterWhileFreed(s: Net, b: Block, i: BlockId)
    requires AllGenuine(s) && Enabled(s, Register(b))
    ensures var s' := Registered(s, b);
      && Copies(s', i) == Copies(s, i) + Bit(b.id == i) && s'.freedIds == s.freedIds
      && InFlight(s', i) == InFlight(s, i) + Bit(b.id == i)
  {
    if b.id !in s.sent {
      assert b !in s.flying && b !in s.held;
    }
    hide AllGenuine;
  }

  lemma ArriveWhileFreed(s: Net, b: Block, i: BlockId)
    requires AllGenuine(s) && b in s.flying
    ensures var s' := Arrived(s, b);
      && Copies(s', i) == Copies(s, i) && s'.freedIds == s.freedIds
      && InFlight(s', i) + Bit(b.id == i) == InFlight(s, i)
  {
    assert Genuine(s, b);
    hide AllGenuine;
  }

  lemma RecycleWhileFreed(s: Net, b: Block, i: BlockId, left: nat)
    requires AllGenuine(s) && b in s.held && WillBeDropped(s, i, left)
    ensures var s' := Next(s, Recycle(b));
      WillBeDropped(s', i, left) && InFlight(s', i) == InFlight(s, i)
  {
    assert Genuine(s, b);
    hide AllGenuine;
    if b.id != i && i in s.sent {
      assert s.sent[i].id == i ==> s.sent[i] != b;
    }
  }

  /** After a block with one copy is freed, it is published just as often as it leaves the network. */
  lemma {:induction false} PublishedWhileFreed(s: Net, events: seq<Event>, i: BlockId)
    requires Inv(s) && AllEnabled(s, events) && WillBeDropped(s, i, Registrations(events, i))
    ensures Published(events, i) + InFlight(RunNet(s, events), i) == InFlight(s, i) + Registrations(events, i)
    decreases |events|
  {
    hide Enabled, Next, WillBeDropped, Law, AllGenuine, InFlight;
    if events != [] {
      NextKeepsInv(s, events[0]);
      NextWhileFreed(s, events[0], i, Registrations(events[1..], i));
      PublishedWhileFreed(Next(s, events[0]), events[1..], i);
    }
  }

  /** Any run in which a block is registered once, and a free of it in that run. After the free the block
    * is published at most once: as often as its only copy leaves the network. Once it is dropped, that is
    * exactly if the copy was on the network at the free (or sent out only then), not already back and held
    * for its recycle check. */
  lemma PublishedAfterFree(before: seq<Event>, after: seq<Event>, i: BlockId)
    requires AllEnabled(EMPTY_NET, before) && AllEnabled(Next(RunNet(EMPTY_NET, before), Free(i)), after)
    requires Registrations(before, i) + Registrations(after, i) == 1
    ensures var atFree := RunNet(EMPTY_NET, before);
      var last := RunNet(Next(atFree, Free(i)), after);
      var copies := InFlight(atFree, i) + Registrations(after, i);
      && copies <= 1
      && Published(after, i) == copies - InFlight(last, i)
      && (Drops(Next(atFree, Free(i)), after, i) > 0 ==> Published(after, i) == copies)
  {
    hide Registrations, RunNet, AllEnabled, AllGenuine, Drops, Published;
    EmptyInv();
    RunCounts(EMPTY_NET, before, i);
    var atFree := RunNet(EMPTY_NET, before);
    var freed := Next(atFree, Free(i));
    assert Law(atFree, i);
    NextKeepsInv(atFree, Free(i));
    PublishedWhileFreed(freed, after, i);
    RunCounts(freed, after, i);
    assert Law(RunNet(freed, after), i);
  }

  /** A block that is freed while it is in flight: the arrival after that publishes it all the same, and the
    * check drops it only then. */
  lemma PublishedAfterFreeExample(b: Block)
    ensures var before, after := [Register(b)], [Arrive(b), Recycle(b)];
      && AllEnabled(EMPTY_NET, before) && AllEnabled(Next(RunNet(EMPTY_NET, before), Free(b.id)), after)
      && Published(after, b.id) == 1
      && Copies(RunNet(Next(RunNet(EMPTY_NET, before), Free(b.id)), after), b.id) == 0
  {
    var flying := Next(EMPTY_NET, Register(b));
    var freed := Next(flying, Free(b.id));
    var held := Next(freed, Arrive(b));
    assert Enabled(freed, Arrive(b)) && Enabled(held, Recycle(b));
    assert Copies(Next(held, Recycle(b)), b.id) == 0;
    hide Enabled, Next, Copies;
    RunCons(EMPTY_NET, Register(b), []);
    RunCons(freed, Arrive(b), [Recycle(b)]);
    RunCons(held, Recycle(b), []);
    assert [Register(b)] + [] == [Register(b)] && [Recycle(b)] + [] == [Recycle(b)];
    assert [Arrive(b)] + [Recycle(b)] == [Arrive(b), Recycle(b)];
  }

  lemma RunCons(s: Net, e: Event, events: seq<Event>)
    ensures var all := [e] + events;
      && RunNet(s, all) == RunNet(Next(s, e), events)
      && (AllEnabled(s, all) <==> Enabled(s, e) && AllEnabled(Next(s, e), events))
      && forall i :: Published(all, i) == Bit(e.Arrive? && e.block.id == i) + Published(events, i)
  {
    hide Next, Enabled;
    assert ([e] + events)[1..] == events;
  }
}
