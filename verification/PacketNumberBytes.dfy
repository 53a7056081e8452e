/**
 From the packet number to the protected header and back: `parsePacketNumber`
 (quic/codec/Decode.cpp) behind header protection and truncation.
 */
module PacketNumberBytes {
  import opened Prelude
  import opened Varint
  import opened PacketNumberCodec
  import HP = HeaderProtection

  /** The bytes of a header as numbers. */
  function Values(bytes: seq<bv8>): (r: seq<byte>)
    ensures |r| == |bytes| && forall i :: 0 <= i < |bytes| ==> r[i] == bytes[i] as byte
  {
    seq(|bytes|, i requires 0 <= i < |bytes| => bytes[i] as byte)
  }

  /** The number's bytes copied to the end of a zeroed 32-bit word, which is then swapped. */
  function LoadTail(bytes: seq<byte>): nat
    requires 1 <= |bytes| <= 4
  {
    Swap(LoadLE(Zeros(4 - |bytes|) + bytes), 4)
  }

  /** Zeros in front do not change a number in network order. */
  lemma {:induction false} LeadingZeros(n: nat, bytes: seq<byte>)
    ensures BigEndian(Zeros(n) + bytes) == BigEndian(bytes)
    decreases |bytes| + n
  {
    if bytes != [] {
      var k := |bytes| - 1;
      LeadingZeros(n, bytes[..k]);
      var all := Zeros(n) + bytes;
      assert all[..|all| - 1] == Zeros(n) + bytes[..k];
    } else if n > 0 {
      LeadingZeros(n - 1, []);
      assert (Zeros(n) + [])[..n - 1] == Zeros(n - 1) + [];
    }
  }

  /** The load and the swap give the number the bytes stand for in network order. */
  lemma LoadTailIsBigEndian(bytes: seq<byte>)
    requires 1 <= |bytes| <= 4
    ensures LoadTail(bytes) == BigEndian(bytes) && BigEndian(bytes) < Window(|bytes|)
  {
    SwapOfLoad(Zeros(4 - |bytes|) + bytes);
    LeadingZeros(4 - |bytes|, bytes);
    ReadWrite(bytes);
    WindowIsPow256(|bytes|);
  }

  /** `parsePacketNumber`: the number and its length, from the first byte and the four bytes at the number's place. */
  function Parse(initialByte: bv8, range: seq<byte>, expected: nat): (r: (nat, nat))
    requires |range| >= 4 && expected <= TWO_TO_62
  {
    var length := HP.PacketNumberLength(initialByte);
    assert LoadTail(range[..length]) < Window(length) by { LoadTailIsBigEndian(range[..length]); }
    (PacketNumberCodec.Decode(LoadTail(range[..length]), length, expected), length)
  }

  lemma WindowIsPow256(length: nat)
    requires 1 <= length <= 4
    ensures Window(length) == Pow256(length)
  {
    Powers();
  }

  /** The bytes of an encoded number, behind a first byte that tells their length, parse to the number sent. */
  lemma ParseEncoded(num: nat, largestAcked: nat, expected: nat, initialByte: bv8, range: seq<byte>)
    requires num < TWO_TO_62 && largestAcked < TWO_TO_62 && expected <= TWO_TO_62 && |range| >= 4
    requires PacketNumberCodec.Encode(num, largestAcked).Ok?
    requires var e := PacketNumberCodec.Encode(num, largestAcked).value;
             && 1 <= e.length <= 4 && HP.PacketNumberLength(initialByte) == e.length
             && range[..e.length] == WriteBE(e.result, e.length)
             && largestAcked <= expected < num + Half(e.length)
    ensures Parse(initialByte, range, expected) == (num, PacketNumberCodec.Encode(num, largestAcked).value.length)
  {
    hide PacketNumberCodec.Encode, PacketNumberCodec.Decode, WriteBE, HP.PacketNumberLength;
    var e := PacketNumberCodec.Encode(num, largestAcked).value;
    EncodeChecks(num, largestAcked);
    WindowIsPow256(e.length);
    WriteRead(e.result, e.length);
    LoadTailIsBigEndian(range[..e.length]);
    PacketNumberCodec.RoundTrip(num, largestAcked, expected);
  }

  /**
   The whole way: a packet whose header carries an encoded number is protected, unprotected and
   parsed, for any mask, and the reader gets the number that was sent.
   */
  method NumberTravels(packet: array<bv8>, headerLen: nat, mask: HP.Bytes -> HP.Bytes,
                       num: nat, largestAcked: nat, expected: nat) returns (r: Option<(nat, nat)>)
    requires 0 < packet.Length && headerLen <= packet.Length && HP.MaskOk(mask)
    requires headerLen >= 1 + HP.PacketNumberLength(packet[0])
    requires packet.Length >= headerLen - HP.PacketNumberLength(packet[0]) + HP.MAX_PACKET_NUM_ENCODING_SIZE + HP.SAMPLE_SIZE
    requires num < TWO_TO_62 && largestAcked < TWO_TO_62 && expected <= TWO_TO_62
    requires PacketNumberCodec.Encode(num, largestAcked).Ok?
    requires var e := PacketNumberCodec.Encode(num, largestAcked).value;
             && 1 <= e.length <= 4 && HP.PacketNumberLength(packet[0]) == e.length
             && Values(packet[headerLen - e.length..headerLen]) == WriteBE(e.result, e.length)
             && largestAcked <= expected < num + Half(e.length)
    modifies packet
    ensures packet[..] == old(packet[..])
    ensures r == Some((num, PacketNumberCodec.Encode(num, largestAcked).value.length))
  {
    hide PacketNumberCodec.Encode, PacketNumberCodec.Decode, WriteBE, HP.PacketNumberLength, Parse;
    var offset := headerLen - HP.PacketNumberLength(packet[0]);
    var ok, length := HP.ProtectThenUnprotect(packet, headerLen, mask);
    var first := packet[0];
    assert packet[0] == packet[..][0] == old(packet[..])[0];
    var range := Values(packet[offset..offset + 4]);
    ghost var n := PacketNumberCodec.Encode(num, largestAcked).value.length;
    assert range[..n] == Values(old(packet[..])[offset..headerLen]);
    ParseEncoded(num, largestAcked, expected, first, range);
    r := Some(Parse(first, range, expected));
  }
}
