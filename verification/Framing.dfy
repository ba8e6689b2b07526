/** Cutting the bytes that arrive into packets (lib/src/ping/ping.cc, ip_v4.cc, icmp_header.cc,
  * data_buffer.cc, lib/include/pingfs/ping/ip_v4_stream.hpp). Header layouts are those of section 3.1 of
  * RFC 791 and of the Echo Reply Message of RFC 792. */
module Framing {
  import opened Blocks

  const MIN_SIZE: nat := 20
  const ICMP_HEADER_SIZE: nat := 8
  const ICMP_PROTOCOL: int := 1
  const ECHO_REPLY_TYPE: int := 0
  const ECHO_REPLY_CODE: int := 0

  datatype EchoResponse = EchoResponse(identifier: nat, sequenceNumber: nat, data: seq<Byte>)

  /** The 16-bit number at a position, high byte first. */
  function Short(s: seq<Byte>, k: nat): nat
    requires k + 1 < |s|
  {
    256 * (s[k] as int) + s[k + 1] as int
  }

  function TotalLength(s: seq<Byte>): nat
    requires |s| >= MIN_SIZE
  {
    Short(s, 2)
  }

  predicate IsIcmp(s: seq<Byte>)
    requires |s| >= MIN_SIZE
  {
    s[9] == ICMP_PROTOCOL
  }

  /** Whether the bytes begin with a whole packet. */
  predicate HasPacket(s: seq<Byte>) {
    |s| >= MIN_SIZE && TotalLength(s) <= |s|
  }

  predicate IsEchoReply(s: seq<Byte>)
    requires |s| >= MIN_SIZE + ICMP_HEADER_SIZE
  {
    s[21] == ECHO_REPLY_CODE && s[20] == ECHO_REPLY_TYPE
  }

  /** A whole packet at the front can be read. The header of an ICMP packet is read from the buffer, even past
    * the end of the packet; only for an echo reply does the packet itself have to be long enough. */
  predicate ReadableHead(s: seq<Byte>) {
    HasPacket(s) && IsIcmp(s) ==>
      && |s| >= MIN_SIZE + ICMP_HEADER_SIZE
      && (IsEchoReply(s) ==> TotalLength(s) >= MIN_SIZE + ICMP_HEADER_SIZE)
  }

  /** A whole packet at the front that is not empty and, for ICMP, has room for both headers itself, so
    * that it is read the same whatever follows. */
  predicate SaneHead(s: seq<Byte>) {
    HasPacket(s) ==>
      TotalLength(s) > 0 && (IsIcmp(s) ==> TotalLength(s) >= MIN_SIZE + ICMP_HEADER_SIZE)
  }

  /** The echo replies that the packet at the front gives rise to: one or none. */
  function HeadReplies(s: seq<Byte>): seq<EchoResponse>
    requires HasPacket(s) && ReadableHead(s)
  {
    if IsIcmp(s) && IsEchoReply(s)
    then [EchoResponse(Short(s, 24), Short(s, 26), s[28..TotalLength(s)])]
    else []
  }

  /** Every packet that is reached can be read and is not empty. */
  predicate Drainable(s: seq<Byte>)
    decreases |s|
  {
    ReadableHead(s) && (HasPacket(s) ==> TotalLength(s) > 0 && Drainable(s[TotalLength(s)..]))
  }

  /** The same, without a look at bytes behind a packet: this does not change when more bytes arrive. */
  predicate Sane(s: seq<Byte>)
    decreases |s|
  {
    SaneHead(s) && (HasPacket(s) ==> Sane(s[TotalLength(s)..]))
  }

  /** The bytes that are left after some calls of `check_notify`. */
  function AfterCalls(s: seq<Byte>, calls: nat): seq<Byte>
    decreases calls
  {
    if calls == 0 || !HasPacket(s) then s else AfterCalls(s[TotalLength(s)..], calls - 1)
  }

  /** Whether the loop comes to an end: after some number of calls no whole packet is left, and each call
    * before saw a packet that can be read. */
  ghost predicate Stops(s: seq<Byte>) {
    exists calls: nat :: StopsAfter(s, calls)
  }

  ghost predicate StopsAfter(s: seq<Byte>, calls: nat) {
    && !HasPacket(AfterCalls(s, calls))
    && forall k: nat :: k < calls ==> ReadableHead(AfterCalls(s, k))
  }

  /** The replies of all whole packets in order, and the bytes that are left, up to a packet that is empty or
    * cannot be read. */
  function Drain(s: seq<Byte>): (seq<EchoResponse>, seq<Byte>)
    decreases |s|
  {
    if !HasPacket(s) || !ReadableHead(s) || TotalLength(s) == 0 then ([], s)
    else
      var (replies, rest) := Drain(s[TotalLength(s)..]);
      (HeadReplies(s) + replies, rest)
  }

  // ----- the receiving side

  /** A cursor over the bytes of a packet. */
  class IpV4Stream {
    const bytes: seq<Byte>
    var pos: nat

    constructor (bytes: seq<Byte>)
      ensures this.bytes == bytes && pos == 0
    {
      this.bytes, pos := bytes, 0;
    }

    method ReadUnsignedShort() returns (value: nat)
      requires pos + 1 < |bytes|
      modifies this
      ensures value == Short(bytes, old(pos)) && pos == old(pos) + 2
    {
      value := 256 * (bytes[pos] as int) + bytes[pos + 1] as int;
      pos := pos + 2;
    }

    method ReadByte() returns (value: Byte)
      requires pos < |bytes|
      modifies this
      ensures value == bytes[old(pos)] && pos == old(pos) + 1
    {
      value := bytes[pos];
      pos := pos + 1;
    }

    /** The header of an IPv4 packet: its total length and its protocol. */
    method ReadIpV4() returns (length: nat, proto: Byte)
      requires pos == 0 && |bytes| >= MIN_SIZE
      modifies this
      ensures length == TotalLength(bytes) && proto == bytes[9] && pos == MIN_SIZE
    {
      var _ := ReadUnsignedShort();
      length := ReadUnsignedShort();
      var _ := ReadUnsignedShort();
      var _ := ReadUnsignedShort();
      var ttl := ReadByte();
      proto := ReadByte();
      var _ := ReadUnsignedShort();
      for k := 0 to 4
        invariant pos == 12 + 2 * k
      {
        var _ := ReadUnsignedShort();
      }
    }

    method ReadIcmpHeader() returns (icmpType: Byte, code: Byte, identifier: nat, sequenceNumber: nat)
      requires pos == MIN_SIZE && |bytes| >= MIN_SIZE + ICMP_HEADER_SIZE
      modifies this
      ensures icmpType == bytes[20] && code == bytes[21]
      ensures identifier == Short(bytes, 24) && sequenceNumber == Short(bytes, 26)
      ensures pos == MIN_SIZE + ICMP_HEADER_SIZE
    {
      icmpType := ReadByte();
      code := ReadByte();
      var checksum := ReadUnsignedShort();
      identifier := ReadUnsignedShort();
      sequenceNumber := ReadUnsignedShort();
    }
  }

  class DataBuffer {
    var data: seq<Byte>

    constructor ()
      ensures data == []
    {
      data := [];
    }

    method Append(more: seq<Byte>)
      modifies this
      ensures data == old(data) + more
    {
      data := data + more;
    }

    method Discard(bytesToRemove: nat)
      modifies this
      ensures data == if bytesToRemove <= |old(data)| then old(data)[bytesToRemove..] else []
    {
      data := if bytesToRemove <= |data| then data[bytesToRemove..] else [];
    }
  }

  class Ping {
    const dataBuffer: DataBuffer
    /** The replies handed to the io service so far, in order. */
    var posted: seq<EchoResponse>

    constructor ()
      ensures fresh(dataBuffer) && dataBuffer.data == [] && posted == []
    {
      dataBuffer := new DataBuffer();
      posted := [];
    }

    /** Takes one packet off the buffer, if a whole one is there. */
    method CheckNotify() returns (consumed: bool)
      requires ReadableHead(dataBuffer.data)
      modifies this, dataBuffer
      ensures dataBuffer.data == AfterCalls(old(dataBuffer.data), 1)
      ensures consumed <==> HasPacket(old(dataBuffer.data))
      ensures dataBuffer.data ==
        if consumed then old(dataBuffer.data)[TotalLength(old(dataBuffer.data))..] else old(dataBuffer.data)
      ensures posted == if consumed then old(posted) + HeadReplies(old(dataBuffer.data)) else old(posted)
    {
      var copy := dataBuffer.data;
      if |copy| < MIN_SIZE {
        return false;
      }
      var stream := new IpV4Stream(copy);
      var length, proto := stream.ReadIpV4();
      if length > |copy| {
        return false;
      }
      dataBuffer.Discard(length);
      if proto != ICMP_PROTOCOL {
        return true;
      }
      var icmpType, code, identifier, sequenceNumber := stream.ReadIcmpHeader();
      if code != ECHO_REPLY_CODE {
        return true;
      }
      if icmpType != ECHO_REPLY_TYPE {
        return true;
      }
      var size := length - MIN_SIZE - ICMP_HEADER_SIZE;
      var data := copy[stream.pos..stream.pos + size];
      posted := posted + [EchoResponse(identifier, sequenceNumber, data)];
      return true;
    }

    /** Takes packets off the buffer until none is left whole. */
    method InternalCheckNotify()
      requires Drainable(dataBuffer.data)
      modifies this, dataBuffer
      ensures (posted, dataBuffer.data) ==
        var (replies, rest) := Drain(old(dataBuffer.data)); (old(posted) + replies, rest)
    {
      ghost var all := Drain(dataBuffer.data);
      var again := true;
      while again
        invariant Drainable(dataBuffer.data)
        invariant old(posted) + all.0 == posted + Drain(dataBuffer.data).0
        invariant all.1 == Drain(dataBuffer.data).1
        invariant !again ==> !HasPacket(dataBuffer.data)
        decreases |dataBuffer.data|, again
      {
        hide HeadReplies, TotalLength, IsIcmp, IsEchoReply;
        DrainStep(dataBuffer.data, posted);
        again := CheckNotify();
        again := again && |dataBuffer.data| != 0;
      }
      assert posted + [] == posted;
    }

    /** Chunks of bytes that arrive one after the other. */
    method ReceiveAll(chunks: seq<seq<Byte>>)
      requires FeedDrains(dataBuffer.data, chunks)
      modifies this, dataBuffer
      ensures var (replies, rest) := Feed(old(dataBuffer.data), chunks);
        posted == old(posted) + replies && dataBuffer.data == rest
      ensures Sane(old(dataBuffer.data) + Flat(chunks)) && !HasPacket(old(dataBuffer.data)) ==>
        var (replies, rest) := Drain(old(dataBuffer.data) + Flat(chunks));
        posted == old(posted) + replies && dataBuffer.data == rest
      decreases |chunks|
    {
      hide Drain, Drainable, Sane, HasPacket;
      if Sane(dataBuffer.data + Flat(chunks)) && !HasPacket(dataBuffer.data) {
        ChunksDoNotMatter(dataBuffer.data, chunks);
      }
      if chunks == [] {
        return;
      }
      dataBuffer.Append(chunks[0]);
      InternalCheckNotify();
      ReceiveAll(chunks[1..]);
    }
  }

  // ----- chunks do not matter

  function Flat(chunks: seq<seq<Byte>>): seq<Byte> {
    if chunks == [] then [] else chunks[0] + Flat(chunks[1..])
  }

  /** What comes of adding each chunk to the buffer and draining it. */
  function Feed(buffer: seq<Byte>, chunks: seq<seq<Byte>>): (seq<EchoResponse>, seq<Byte>)
    decreases |chunks|
  {
    if chunks == [] then ([], buffer)
    else
      var (replies, rest) := Drain(buffer + chunks[0]);
      var (more, last) := Feed(rest, chunks[1..]);
      (replies + more, last)
  }

  /** Each time a chunk was added, the loop comes to an end. */
  predicate FeedDrains(buffer: seq<Byte>, chunks: seq<seq<Byte>>)
    decreases |chunks|
  {
    chunks != [] ==>
      Drainable(buffer + chunks[0]) && FeedDrains(Drain(buffer + chunks[0]).1, chunks[1..])
  }

  lemma FrontIsStable(s: seq<Byte>, more: seq<Byte>)
    requires HasPacket(s)
    ensures HasPacket(s + more) && TotalLength(s + more) == TotalLength(s)
    ensures SaneHead(s + more) <==> SaneHead(s)
    ensures SaneHead(s) ==> HeadReplies(s + more) == HeadReplies(s)
    ensures (s + more)[TotalLength(s)..] == s[TotalLength(s)..] + more
  {
    var all := s + more;
    assert forall k :: 0 <= k < |s| ==> all[k] == s[k];
    if SaneHead(s) && IsIcmp(s) {
      assert all[28..TotalLength(s)] == s[28..TotalLength(s)];
    }
  }

  /** Draining early changes nothing: what is left, with what comes later, drains to the rest. */
  lemma {:induction false} DrainInTwo(s: seq<Byte>, more: seq<Byte>)
    requires Sane(s + more)
    ensures Sane(s) && Sane(Drain(s).1 + more)
    ensures Drain(s + more).0 == Drain(s).0 + Drain(Drain(s).1 + more).0
    ensures Drain(s + more).1 == Drain(Drain(s).1 + more).1
    decreases |s|
  {
    hide HeadReplies, TotalLength, IsIcmp;
    if HasPacket(s) {
      FrontIsStable(s, more);
      DrainInTwo(s[TotalLength(s)..], more);
    }
  }

  lemma FeedSteps(buffer: seq<Byte>, chunks: seq<seq<Byte>>)
    requires Sane(buffer + Flat(chunks))
    ensures chunks == [] ==> Feed(buffer, chunks) == ([], buffer)
    ensures chunks != [] ==>
      && Sane(buffer + chunks[0])
      && var (replies, rest) := Drain(buffer + chunks[0]);
         && Sane(rest + Flat(chunks[1..]))
         && Feed(buffer, chunks) == (replies + Feed(rest, chunks[1..]).0, Feed(rest, chunks[1..]).1)
  {
    hide Drain, Sane;
    if chunks != [] {
      assert buffer + Flat(chunks) == buffer + chunks[0] + Flat(chunks[1..]);
      DrainInTwo(buffer + chunks[0], Flat(chunks[1..]));
    }
  }

  lemma DrainStep(s: seq<Byte>, before: seq<EchoResponse>)
    requires Drainable(s)
    ensures ReadableHead(s)
    ensures HasPacket(s) ==>
      var rest := s[TotalLength(s)..];
      && |rest| < |s| && Drainable(rest)
      && before + Drain(s).0 == before + HeadReplies(s) + Drain(rest).0
      && Drain(s).1 == Drain(rest).1
    ensures !HasPacket(s) ==> Drain(s) == ([], s)
  {
    hide HeadReplies, IsIcmp, IsEchoReply;
  }

  lemma {:induction false} SaneDrains(s: seq<Byte>)
    requires Sane(s)
    ensures Drainable(s)
    decreases |s|
  {
    if HasPacket(s) {
      SaneDrains(s[TotalLength(s)..]);
    }
  }

  /** A sane stream can be fed in any chunks. */
  lemma {:induction false} SaneFeeds(buffer: seq<Byte>, chunks: seq<seq<Byte>>)
    requires Sane(buffer + Flat(chunks))
    ensures FeedDrains(buffer, chunks)
    decreases |chunks|
  {
    hide Drain, Sane, Drainable;
    FeedSteps(buffer, chunks);
    if chunks != [] {
      SaneDrains(buffer + chunks[0]);
      SaneFeeds(Drain(buffer + chunks[0]).1, chunks[1..]);
    }
  }

  /** However a stream of bytes is cut into chunks, draining after each posts the same replies and leaves
    * the same bytes as draining once at the end. */
  lemma {:induction false} ChunksDoNotMatter(buffer: seq<Byte>, chunks: seq<seq<Byte>>)
    requires Sane(buffer + Flat(chunks)) && !HasPacket(buffer)
    ensures Feed(buffer, chunks) == Drain(buffer + Flat(chunks))
    decreases |chunks|
  {
    hide HasPacket, HeadReplies;
    FeedSteps(buffer, chunks);
    if chunks == [] {
      assert buffer + [] == buffer;
    } else {
      var s, more := buffer + chunks[0], Flat(chunks[1..]);
      assert buffer + Flat(chunks) == s + more;
      DrainInTwo(s, more);
      DrainLeavesNone(s);
      ChunksDoNotMatter(Drain(s).1, chunks[1..]);
    }
  }

  lemma {:induction false} DrainLeavesNone(s: seq<Byte>)
    requires Sane(s)
    ensures !HasPacket(Drain(s).1)
    decreases |s|
  {
    if HasPacket(s) {
      DrainLeavesNone(s[TotalLength(s)..]);
    }
  }

  // ----- streams of well-formed packets

  /** A packet without options that is as long as it says. */
  predicate WellFormed(p: seq<Byte>) {
    |p| >= MIN_SIZE && TotalLength(p) == |p| && (IsIcmp(p) ==> |p| >= MIN_SIZE + ICMP_HEADER_SIZE)
  }

  predicate AllWellFormed(packets: seq<seq<Byte>>) {
    forall k | 0 <= k < |packets| :: WellFormed(packets[k])
  }

  function AllReplies(packets: seq<seq<Byte>>): seq<EchoResponse>
    requires AllWellFormed(packets)
  {
    if packets == [] then []
    else
      HeadReplies(packets[0]) + AllReplies(packets[1..])
  }

  lemma {:induction false} PacketsDrain(packets: seq<seq<Byte>>, tail: seq<Byte>)
    requires AllWellFormed(packets) && !HasPacket(tail)
    ensures Sane(Flat(packets) + tail)
    ensures Drain(Flat(packets) + tail) == (AllReplies(packets), tail)
    decreases |packets|
  {
    var s := Flat(packets) + tail;
    if packets == [] {
      assert s == tail;
    } else {
      var p, more := packets[0], Flat(packets[1..]) + tail;
      assert s == p + more;
      FrontIsStable(p, more);
      assert p[|p|..] + more == more;
      PacketsDrain(packets[1..], tail);
    }
  }

  /** Well-formed packets and an incomplete tail, cut into any chunks, post the replies of the packets
    * one by one and leave the tail. */
  lemma PacketsInChunks(packets: seq<seq<Byte>>, tail: seq<Byte>, chunks: seq<seq<Byte>>)
    requires AllWellFormed(packets) && !HasPacket(tail)
    requires Flat(chunks) == Flat(packets) + tail
    ensures FeedDrains([], chunks) && Feed([], chunks) == (AllReplies(packets), tail)
  {
    PacketsDrain(packets, tail);
    assert [] + Flat(chunks) == Flat(chunks);
    SaneFeeds([], chunks);
    ChunksDoNotMatter([], chunks);
  }

  // ----- when the loop ends

  /** The drain loop comes to an end exactly when each packet that it reaches can be read and none is
    * empty. */
  lemma {:induction false} StopsIffDrainable(s: seq<Byte>)
    ensures Stops(s) <==> Drainable(s)
  {
    if Stops(s) {
      var calls: nat :| StopsAfter(s, calls);
      StoppedIsDrainable(s, calls);
    }
    if Drainable(s) {
      DrainableStops(s);
    }
  }

  lemma {:induction false} StoppedIsDrainable(s: seq<Byte>, calls: nat)
    requires StopsAfter(s, calls)
    ensures Drainable(s)
    decreases calls
  {
    hide TotalLength, IsIcmp, ReadableHead;
    assert AfterCalls(s, 0) == s;
    if HasPacket(s) {
      assert calls > 0;
      if TotalLength(s) == 0 {
        EmptyHeadStays(s, calls);
        assert false;
      }
      var rest := s[TotalLength(s)..];
      forall k: nat | k < calls - 1
        ensures ReadableHead(AfterCalls(rest, k))
      {
        assert AfterCalls(s, k + 1) == AfterCalls(rest, k);
      }
      StoppedIsDrainable(rest, calls - 1);
    } else {
      NothingToRead(s);
    }
  }

  lemma NothingToRead(s: seq<Byte>)
    requires !HasPacket(s)
    ensures ReadableHead(s)
  {
  }

  lemma {:induction false} DrainableStops(s: seq<Byte>)
    requires Drainable(s)
    ensures exists calls: nat :: StopsAfter(s, calls)
    decreases |s|
  {
    hide TotalLength, IsIcmp, ReadableHead;
    if !HasPacket(s) {
      assert StopsAfter(s, 0);
    } else {
      var rest := s[TotalLength(s)..];
      DrainableStops(rest);
      var calls: nat :| StopsAfter(rest, calls);
      forall k: nat | k < calls + 1
        ensures ReadableHead(AfterCalls(s, k))
      {
        if k > 0 {
          assert AfterCalls(s, k) == AfterCalls(rest, k - 1);
        }
      }
      assert StopsAfter(s, calls + 1);
    }
  }

  lemma {:induction false} EmptyHeadStays(s: seq<Byte>, calls: nat)
    requires HasPacket(s) && TotalLength(s) == 0
    ensures AfterCalls(s, calls) == s
    decreases calls
  {
    if calls > 0 {
      assert s[TotalLength(s)..] == s;
      EmptyHeadStays(s, calls - 1);
    }
  }

  /** A packet that gives its length as zero and can be read, of another protocol or an ICMP packet that is
    * no echo reply, is taken off as nothing at all, again and again: every number of calls leaves the same
    * bytes, and the loop never ends. */
  lemma ZeroLengthStalls(s: seq<Byte>, calls: nat)
    requires |s| >= MIN_SIZE && TotalLength(s) == 0
    requires IsIcmp(s) ==> |s| >= MIN_SIZE + ICMP_HEADER_SIZE && !IsEchoReply(s)
    ensures AfterCalls(s, calls) == s && ReadableHead(s)
    ensures !Stops(s)
  {
    EmptyHeadStays(s, calls);
    StopsIffDrainable(s);
  }

  /** Twenty bytes on which the loop never ends. */
  lemma ZeroLengthExample()
    ensures !Stops(seq(20, _ => 0))
  {
    ZeroLengthStalls(seq(20, _ => 0), 0);
  }

  /** An ICMP packet of 24 bytes that is no echo reply, with four more bytes behind it: it is read past its
    * end, taken off, and the loop ends. Without the four bytes it cannot be read. */
  lemma ShortIcmpExample(s: seq<Byte>)
    requires |s| == 28 && TotalLength(s) == 24 && IsIcmp(s) && s[21] == 1
    ensures Stops(s) && Drain(s) == ([], s[24..])
    ensures !ReadableHead(s[..24]) && !Stops(s[..24])
  {
    assert !HasPacket(s[24..]);
    assert Drainable(s[24..]);
    StopsIffDrainable(s);
    assert s[24..] == s[TotalLength(s)..];
    DrainStep(s, []);
    DrainStep(s[24..], []);
    assert HeadReplies(s) == [];
    assert [] + Drain(s).0 == Drain(s).0;
    var short := s[..24];
    assert TotalLength(short) == 24 && IsIcmp(short);
    StopsIffDrainable(short);
  }
}
