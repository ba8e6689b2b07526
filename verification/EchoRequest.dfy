/** Echo requests as they go out (lib/src/ping/echo_request.cc): the Echo Message of RFC 792, with the
  * checksum of section 1 of RFC 1071. */
module EchoRequests {
  import opened Blocks

  const TYPE: nat := 8
  const CODE: nat := 0
  const TWO_16: nat := 0x1_0000
  const TWO_32: nat := 0x1_0000_0000

  /** The most bytes of body that fit an IPv4 datagram beside the two headers. */
  const MAX_BODY: nat := 65535 - 20 - 8

  type Word = x: int | 0 <= x < 0x1_0000

  function High(w: Word): Byte { w / 256 }

  function Low(w: Word): Byte { w % 256 }

  function Swapped(w: Word): Word {
    Low(w) * 256 + High(w)
  }

  /** `htons` and `ntohs`, which swap bytes on some hosts. */
  function NetworkOrder(w: Word, littleEndian: bool): Word {
    if littleEndian then Swapped(w) else w
  }

  /** The sum of the 16-bit words of some bytes, the last one padded with zero. */
  function WordSum(s: seq<Byte>): nat {
    if s == [] then 0
    else if |s| == 1 then s[0] * 256
    else s[0] * 256 + s[1] + WordSum(s[2..])
  }

  /** What byte `i` of a body adds to the sum. */
  function ByteWeight(body: seq<Byte>, i: nat): nat
    requires i < |body|
  {
    if i % 2 == 0 then 256 * (body[i] as int) else body[i]
  }

  lemma {:induction false} WordSumSnoc(s: seq<Byte>, b: Byte)
    ensures WordSum(s + [b]) == WordSum(s) + if |s| % 2 == 0 then b * 256 else b
    decreases |s|
  {
    if |s| >= 2 {
      assert (s + [b])[2..] == s[2..] + [b];
      WordSumSnoc(s[2..], b);
    } else if |s| == 1 {
      assert (s + [b])[2..] == [];
    } else {
      assert s + [b] == [b];
    }
  }

  lemma {:induction false} WordSumBound(s: seq<Byte>)
    ensures 2 * WordSum(s) <= 0xFFFF * (|s| + 1)
    decreases |s|
  {
    if |s| >= 2 {
      WordSumBound(s[2..]);
    }
  }

  /** The plain sum of the words of a message without its checksum. */
  function PlainSum(identifier: Word, sequenceNumber: Word, body: seq<Byte>): nat {
    TYPE * 256 + CODE + identifier + sequenceNumber + WordSum(body)
  }

  /** The complement of a 32-bit sum after its carry was added in once, cut to 16 bits. */
  function FoldOnce(sum: nat): Word {
    0xFFFF - (sum + sum / TWO_16) % TWO_32 % TWO_16
  }

  method Checksum(identifier: Word, sequenceNumber: Word, body: seq<Byte>, littleEndian: bool) returns (checksum: Word)
    ensures checksum == NetworkOrder(FoldOnce(PlainSum(identifier, sequenceNumber, body) % TWO_32), littleEndian)
  {
    var sum := TYPE * 256 + CODE + identifier + sequenceNumber;
    for i := 0 to |body|
      invariant 0 <= sum < TWO_32
      invariant sum == PlainSum(identifier, sequenceNumber, body[..i]) % TWO_32
    {
      WordSumSnoc(body[..i], body[i]);
      assert body[..i + 1] == body[..i] + [body[i]];
      AddModulo(PlainSum(identifier, sequenceNumber, body[..i]), ByteWeight(body, i));
      sum := (sum + if i % 2 == 0 then 256 * (body[i] as int) else body[i]) % TWO_32;
    }
    assert body[..|body|] == body;
    sum := (sum + sum / TWO_16) % TWO_32;
    checksum := NetworkOrder(0xFFFF - sum % TWO_16, littleEndian);
  }

  lemma AddModulo(a: nat, b: nat)
    ensures (a % TWO_32 + b) % TWO_32 == (a + b) % TWO_32
  {
  }

  function PutShort(w: Word): seq<Byte> {
    [High(w), Low(w)]
  }

  /** The bytes on the wire. */
  function Serialized(checksum: Word, identifier: Word, sequenceNumber: Word, body: seq<Byte>): seq<Byte> {
    [TYPE, CODE] + PutShort(checksum) + PutShort(identifier) + PutShort(sequenceNumber) + body
  }

  method Serialize(identifier: Word, sequenceNumber: Word, body: seq<Byte>, littleEndian: bool)
    returns (bytes: seq<Byte>)
    ensures bytes == Serialized(FoldOnce(PlainSum(identifier, sequenceNumber, body) % TWO_32),
                                identifier, sequenceNumber, body)
  {
    var checksum := Checksum(identifier, sequenceNumber, body, littleEndian);
    SwapTwice(FoldOnce(PlainSum(identifier, sequenceNumber, body) % TWO_32));
    bytes := [TYPE, CODE];
    bytes := bytes + PutShort(NetworkOrder(checksum, littleEndian));
    bytes := bytes + PutShort(identifier);
    bytes := bytes + PutShort(sequenceNumber);
    bytes := bytes + body;
  }

  lemma SwapTwice(w: Word)
    ensures Swapped(Swapped(w)) == w
  {
  }

  // ----- what a receiver computes

  /** One's complement addition: carries are added in until none is left. */
  function Folded(sum: nat): nat {
    if sum < TWO_16 then sum else Folded(sum / TWO_16 + sum % TWO_16)
  }

  /** Folding changes a sum by a multiple of 65535, and a positive sum never folds to zero. */
  lemma {:induction false} FoldedIsCongruent(sum: nat) returns (q: nat)
    ensures sum == Folded(sum) + 0xFFFF * q
    ensures Folded(sum) < TWO_16 && (sum > 0 ==> Folded(sum) > 0)
  {
    if sum < TWO_16 {
      q := 0;
    } else {
      var rest := FoldedIsCongruent(sum / TWO_16 + sum % TWO_16);
      q := rest + sum / TWO_16;
    }
  }

  lemma {:induction false} WordSumConcat(a: seq<Byte>, b: seq<Byte>)
    requires |a| % 2 == 0
    ensures WordSum(a + b) == WordSum(a) + WordSum(b)
    decreases |a|
  {
    if a == [] {
      assert a + b == b;
    } else {
      assert (a + b)[2..] == a[2..] + b;
      WordSumConcat(a[2..], b);
    }
  }

  lemma WordSumOfWord(w: Word)
    ensures WordSum(PutShort(w)) == w && |PutShort(w)| == 2
  {
    assert PutShort(w)[2..] == [];
  }

  lemma MessageSum(checksum: Word, identifier: Word, sequenceNumber: Word, body: seq<Byte>)
    ensures WordSum(Serialized(checksum, identifier, sequenceNumber, body))
         == PlainSum(identifier, sequenceNumber, body) + checksum
  {
    var start := [TYPE, CODE];
    assert start == PutShort(TYPE * 256 + CODE);
    WordSumOfWord(TYPE * 256 + CODE);
    WordSumOfWord(checksum);
    WordSumOfWord(identifier);
    WordSumOfWord(sequenceNumber);
    hide WordSum, PutShort;
    var a := start + PutShort(checksum);
    var b := a + PutShort(identifier);
    var c := b + PutShort(sequenceNumber);
    WordSumConcat(start, PutShort(checksum));
    WordSumConcat(a, PutShort(identifier));
    WordSumConcat(b, PutShort(sequenceNumber));
    WordSumConcat(c, body);
  }

  /** For every body that fits a datagram, the sum stays below 32 bits. */
  lemma SumFits(identifier: Word, sequenceNumber: Word, body: seq<Byte>)
    requires |body| <= MAX_BODY
    ensures PlainSum(identifier, sequenceNumber, body) + PlainSum(identifier, sequenceNumber, body) / TWO_16 < TWO_32
  {
    WordSumBound(body);
  }

  /** The message that goes out checks at the receiver, whose sum is then all ones, exactly when adding the
    * carry once leaves no further carry. Otherwise the receiver's sum is one. */
  lemma ChecksumValidIff(identifier: Word, sequenceNumber: Word, body: seq<Byte>)
    requires |body| <= MAX_BODY
    ensures var sum := PlainSum(identifier, sequenceNumber, body);
      var message := Serialized(FoldOnce(sum % TWO_32), identifier, sequenceNumber, body);
      var noCarry := sum % TWO_16 + sum / TWO_16 < TWO_16;
      && (Folded(WordSum(message)) == 0xFFFF <==> noCarry)
      && (Folded(WordSum(message)) == 1 <==> !noCarry)
  {
    var sum := PlainSum(identifier, sequenceNumber, body);
    SumFits(identifier, sequenceNumber, body);
    hide PlainSum, Folded;
    MessageSum(FoldOnce(sum % TWO_32), identifier, sequenceNumber, body);
    FoldedTotal(sum);
  }

  lemma FoldedTotal(sum: nat)
    requires 0 < sum && sum + sum / TWO_16 < TWO_32
    ensures var total := sum + FoldOnce(sum % TWO_32);
      if sum % TWO_16 + sum / TWO_16 < TWO_16 then Folded(total) == 0xFFFF else Folded(total) == 1
  {
    hide Folded;
    var hi, lo := sum / TWO_16, sum % TWO_16;
    assert sum % TWO_32 == sum;
    var total := sum + FoldOnce(sum);
    var q := FoldedIsCongruent(total);
    assert sum + hi == TWO_16 * hi + (lo + hi);
    if lo + hi < TWO_16 {
      assert total == 0xFFFF * (hi + 1);
    } else {
      assert total == 0xFFFF * (hi + 2) + 1;
    }
  }

  /** A concrete request, without a body, whose checksum is wrong. */
  lemma ChecksumExample()
    ensures Folded(WordSum(Serialized(FoldOnce(PlainSum(0xFFFF, 0xF800, []) % TWO_32), 0xFFFF, 0xF800, []))) == 1
  {
    assert PlainSum(0xFFFF, 0xF800, []) == 0x1_FFFF;
    ChecksumValidIff(0xFFFF, 0xF800, []);
  }
}
