/** What goes out and what is read back (lib/src/ping/echo_request.cc, lib/src/ping/ping.cc). The host that
  * answers turns the type of an Echo Message into that of an Echo Reply Message (RFC 792), and may compute
  * another checksum. */
module EchoRoundTrip {
  import opened Blocks
  import opened EchoRequests
  import opened Framing

  /** Each byte of the header, at its place. */
  lemma HeaderBytes(checksum: Word, identifier: Word, sequenceNumber: Word, body: seq<Byte>)
    ensures var s := Serialized(checksum, identifier, sequenceNumber, body);
      && |s| == 8 + |body| && s[0] == 8 && s[1] == 0
      && 256 * (s[2] as int) + s[3] == checksum
      && 256 * (s[4] as int) + s[5] == identifier
      && 256 * (s[6] as int) + s[7] == sequenceNumber
      && s[8..] == body
  {
    assert Serialized(checksum, identifier, sequenceNumber, body)[8..] == body;
  }

  /** An answer to a request is cut off the stream as one packet, and gives back the identifier, the sequence
    * number and the body that were sent, whatever its checksum. */
  lemma AnswerIsRead(head: seq<Byte>, checksum: Word, identifier: Word, sequenceNumber: Word, body: seq<Byte>)
    requires |head| == 20 && head[9] == 1
    requires 256 * (head[2] as int) + head[3] == 28 + |body|
    ensures var p := head + Serialized(checksum, identifier, sequenceNumber, body)[0 := 0];
      && WellFormed(p)
      && HeadReplies(p) == [EchoResponse(identifier, sequenceNumber, body)]
  {
    var s := Serialized(checksum, identifier, sequenceNumber, body)[0 := 0];
    var p := head + s;
    HeaderBytes(checksum, identifier, sequenceNumber, body);
    assert forall k :: 0 <= k < 20 ==> p[k] == head[k];
    assert forall k :: 20 <= k < |p| ==> p[k] == s[k - 20];
    assert p[28..] == s[8..] == body;
    assert p[28..|p|] == p[28..];
  }

  /** Nothing but an echo reply gives rise to a response. */
  lemma OnlyRepliesAreRead(p: seq<Byte>)
    requires HasPacket(p) && ReadableHead(p)
    ensures HeadReplies(p) != [] <==> p[9] == 1 && p[20] == 0 && p[21] == 0
    ensures |HeadReplies(p)| <= 1
  {
  }

  /** A block's ping that was sent, answered, cut into any chunks, and read: what is posted is what was sent. */
  lemma AnswerInChunks(head: seq<Byte>, checksum: Word, identifier: Word, sequenceNumber: Word, body: seq<Byte>,
                       chunks: seq<seq<Byte>>)
    requires |head| == 20 && head[9] == 1
    requires 256 * (head[2] as int) + head[3] == 28 + |body|
    requires Flat(chunks) == head + Serialized(checksum, identifier, sequenceNumber, body)[0 := 0]
    ensures Feed([], chunks) == ([EchoResponse(identifier, sequenceNumber, body)], [])
  {
    var p := Flat(chunks);
    AnswerIsRead(head, checksum, identifier, sequenceNumber, body);
    assert Flat([p]) == p + Flat([p][1..]) == p + [] == p;
    assert p + [] == p;
    assert AllReplies([p]) == HeadReplies(p) + AllReplies([p][1..]) == HeadReplies(p);
    PacketsInChunks([p], [], chunks);
  }

  /** In the memory of a host of either byte order, a number in network order is its high byte and then its
    * low byte. */
  lemma NetworkOrderInMemory(w: Word, littleEndian: bool)
    ensures var n := NetworkOrder(w, littleEndian);
      [w / 256, w % 256] == if littleEndian then [n % 256, n / 256] else [n / 256, n % 256]
  {
  }

  /** The last byte of a body of odd length counts as if a zero byte came after it. */
  lemma {:induction false} OddBodyIsPadded(s: seq<Byte>)
    ensures |s| % 2 == 1 ==> WordSum(s + [0]) == WordSum(s)
    decreases |s|
  {
    WordSumSnoc(s, 0);
  }
}
