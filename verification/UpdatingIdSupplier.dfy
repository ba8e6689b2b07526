/** Ids handed out by one node of several (lib/src/block/block_manager/id_supplier/updating_id_suppler.cc).
  * The lowest eight bits name the node; the others count up, and leap over ids heard from other nodes. */
module UpdatingIdSuppliers {
  import opened Blocks

  const TWO_56: nat := 0x100_0000_0000_0000
  const TWO_64: nat := 0x1_0000_0000_0000_0000

  /** The shift to the left loses the bits above 64. */
  function IdOf(high: nat, low: Byte): nat {
    (high * 256 + low) % TWO_64
  }

  datatype Event = Draw | Hear(id: nat)

  /** The high bits after an event. */
  function Next(high: nat, e: Event): nat {
    match e
    case Draw => (high + 1) % TWO_64
    case Hear(id) => if id / 256 > high then id / 256 + 1 else high
  }

  /** The ids drawn in a run, in order. */
  function Drawn(high: nat, low: Byte, events: seq<Event>): seq<nat>
    decreases |events|
  {
    if events == [] then []
    else (if events[0].Draw? then [IdOf(high, low)] else []) + Drawn(Next(high, events[0]), low, events[1..])
  }

  /** No draw of a run comes after the high bits have been used up. */
  predicate Lasts(high: nat, events: seq<Event>)
    decreases |events|
  {
    events != [] ==> (events[0].Draw? ==> high < TWO_56) && Lasts(Next(high, events[0]), events[1..])
  }

  /** The high bits after a run. */
  function After(high: nat, events: seq<Event>): nat
    decreases |events|
  {
    if events == [] then high else After(Next(high, events[0]), events[1..])
  }

  class UpdatingIdSupplier {
    const fixedLowOrderBits: Byte
    var highOrderBits: nat

    ghost predicate Valid()
      reads this
    {
      highOrderBits < TWO_64
    }

    constructor (fixedLowOrderBits: Byte)
      ensures Valid() && this.fixedLowOrderBits == fixedLowOrderBits && highOrderBits == 1
    {
      this.fixedLowOrderBits, highOrderBits := fixedLowOrderBits, 1;
    }

    method NextId() returns (newId: nat)
      requires Valid()
      modifies this
      ensures Valid() && highOrderBits == Next(old(highOrderBits), Draw)
      ensures newId == IdOf(old(highOrderBits), fixedLowOrderBits) && newId % 256 == fixedLowOrderBits
    {
      newId := (highOrderBits * 256 % TWO_64 + fixedLowOrderBits) % TWO_64;
      IdKeeps56Bits(highOrderBits, fixedLowOrderBits);
      ShiftKeeps56Bits(highOrderBits);
      hide IdOf;
      highOrderBits := (highOrderBits + 1) % TWO_64;
    }

    method UpdateIfLessThan(id: nat)
      requires Valid() && id < TWO_64
      modifies this
      ensures Valid() && highOrderBits == Next(old(highOrderBits), Hear(id))
    {
      var justHighOrder := id / 256;
      if justHighOrder > highOrderBits {
        highOrderBits := justHighOrder + 1;
      }
    }
  }

  /** After an id is heard, the next one drawn is above it exactly when the heard one did not have the very
    * high bits that the supplier was about to use, or came from a node with lower low bits. */
  lemma DrawExceedsHeardIff(high: nat, low: Byte, id: nat)
    requires high < TWO_56 && id / 256 < TWO_56 - 1
    ensures IdOf(Next(high, Hear(id)), low) > id <==> id / 256 != high || low > id % 256
  {
  }

  /** After any run, the next id drawn is above everything heard in it, but for ids that have the high bits
    * about to be used and low bits that are not lower. */
  lemma {:induction false} DrawExceedsAllHeardIff(high: nat, low: Byte, events: seq<Event>, k: nat)
    requires Lasts(high, events + [Draw])
    requires k < |events| && events[k].Hear?
    ensures high <= After(high, events) < TWO_56 && events[k].id / 256 <= After(high, events)
    ensures var id, last := events[k].id, After(high, events);
      IdOf(last, low) > id <==> id / 256 != last || low > id % 256
    decreases |events|
  {
    assert (events + [Draw])[1..] == events[1..] + [Draw];
    RunRaises(Next(high, events[0]), events[1..]);
    if k > 0 {
      DrawExceedsAllHeardIff(Next(high, events[0]), low, events[1..], k - 1);
    }
  }

  lemma {:induction false} RunRaises(high: nat, events: seq<Event>)
    requires Lasts(high, events + [Draw])
    ensures high <= After(high, events) < TWO_56
    decreases |events|
  {
    if events != [] {
      assert (events + [Draw])[1..] == events[1..] + [Draw];
      RunRaises(Next(high, events[0]), events[1..]);
    }
  }

  /** Two ids drawn one after the other differ in their high bits by one; and after an id with greater high bits
    * is heard, the next one drawn has the high bits that follow. */
  lemma DrawnInSteps(high: nat, low: Byte, id: nat)
    requires high < TWO_56 - 1 && id / 256 < TWO_56 - 1
    ensures IdOf(Next(high, Draw), low) == IdOf(high, low) + 256
    ensures id / 256 > high ==> IdOf(Next(high, Hear(id)), low) == (id / 256 + 1) * 256 + low
    ensures id / 256 <= high ==> IdOf(Next(high, Hear(id)), low) == high * 256 + low
  {
  }

  /** An id that is heard and not exceeded by the next one drawn. */
  lemma EqualHighBitsExample()
    ensures IdOf(Next(1, Hear(IdOf(1, 200))), 7) < IdOf(1, 200)
  {
  }

  /** One node never draws an id twice: its ids go up as long as the high bits last. */
  lemma {:induction false} DrawnIdsIncrease(high: nat, low: Byte, events: seq<Event>)
    requires Lasts(high, events)
    ensures forall k :: 0 <= k < |Drawn(high, low, events)| ==> high * 256 + low <= Drawn(high, low, events)[k]
    ensures forall j, k :: 0 <= j < k < |Drawn(high, low, events)| ==>
      Drawn(high, low, events)[j] < Drawn(high, low, events)[k]
    decreases |events|
  {
    if events != [] {
      DrawnIdsIncrease(Next(high, events[0]), low, events[1..]);
    }
  }

  lemma {:induction false} DrawnIdsNameTheNode(high: nat, low: Byte, events: seq<Event>)
    ensures forall i :: i in Drawn(high, low, events) ==> i % 256 == low
    decreases |events|
  {
    if events != [] {
      DrawnIdsNameTheNode(Next(high, events[0]), low, events[1..]);
    }
  }

  /** Two nodes with different low bits never draw the same id, whatever either of them hears. */
  lemma NodesDrawApart(low: Byte, events: seq<Event>, otherLow: Byte, otherEvents: seq<Event>)
    requires low != otherLow
    ensures forall i :: !(i in Drawn(1, low, events) && i in Drawn(1, otherLow, otherEvents))
  {
    DrawnIdsNameTheNode(1, low, events);
    DrawnIdsNameTheNode(1, otherLow, otherEvents);
  }

  /** Where the high bits do not last: the id after a draw is higher exactly when the 56 bits that an id
    * has room for do not start over. */
  lemma NextDrawIsHigherIff(high: nat, low: Byte)
    requires high < TWO_64
    ensures IdOf(Next(high, Draw), low) > IdOf(high, low) <==> high % TWO_56 != TWO_56 - 1
  {
    hide IdOf;
    IdKeeps56Bits(high, low);
    IdKeeps56Bits(Next(high, Draw), low);
    var round, bits := high / TWO_56, high % TWO_56;
    if bits == TWO_56 - 1 {
      assert high + 1 == (round + 1) * TWO_56;
    } else {
      assert high + 1 == round * TWO_56 + (bits + 1);
    }
  }

  lemma ShiftKeeps56Bits(high: nat)
    ensures high * 256 % TWO_64 == high % TWO_56 * 256
  {
    var round, bits := high / TWO_56, high % TWO_56;
    assert high * 256 == round * TWO_64 + bits * 256;
  }

  lemma IdKeeps56Bits(high: nat, low: Byte)
    ensures IdOf(high, low) == high % TWO_56 * 256 + low
  {
    var round, bits := high / TWO_56, high % TWO_56;
    assert high * 256 + low == round * TWO_64 + (bits * 256 + low);
  }
}
