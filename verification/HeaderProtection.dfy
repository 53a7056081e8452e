/**
 Header protection (quic/codec/PacketNumberCipher.cpp, `encryptPacketHeader` in
 quic/api/QuicTransportFunctions.cpp and the readers in quic/codec/QuicReadCodec.cpp;
 section 5.4 of RFC 9001). The mask a cipher makes from a sample is any function.
 */
module HeaderProtection {
  import opened Prelude

  type Bytes = seq<bv8>

  const MAX_PACKET_NUM_ENCODING_SIZE: nat := 4
  const SAMPLE_SIZE: nat := 16
  const HEADER_FORM_MASK: bv8 := 0x80
  const PACKET_NUM_LEN_MASK: bv8 := 0x03

  /** The low bits of the first byte that are protected: four in a long header, five in a short one. */
  function TypeBitsMask(initialByte: bv8): bv8 { if initialByte & HEADER_FORM_MASK != 0 then 0x0F else 0x1F }

  /** `parsePacketNumberLength`. */
  function PacketNumberLength(initialByte: bv8): (r: nat)
    ensures 1 <= r <= MAX_PACKET_NUM_ENCODING_SIZE
    ensures initialByte & 0x03 == (match r case 1 => 0x00 case 2 => 0x01 case 3 => 0x02 case _ => 0x03)
  {
    match initialByte & PACKET_NUM_LEN_MASK
    case 0 => 1
    case 1 => 2
    case 2 => 3
    case _ => 4
  }

  function Xor(a: bv8, b: bv8): bv8 { a ^ b }

  function And(a: bv8, b: bv8): bv8 { a & b }

  /** A cipher's mask: at least five bytes for any sample. */
  ghost predicate MaskOk(mask: Bytes -> Bytes) { forall sample :: |mask(sample)| >= MAX_PACKET_NUM_ENCODING_SIZE + 1 }

  /** Both directions change the first byte and as many packet number bytes as `length` says. */
  ghost function Masked(packet: Bytes, offset: nat, m: Bytes, bits: bv8, length: nat): (r: Bytes)
    requires 1 <= offset && offset + length <= |packet| && |m| >= length + 1
    ensures |r| == |packet| && r[0] == Xor(packet[0], And(m[0], bits))
    ensures forall i :: 0 < i < |packet| ==>
              r[i] == if offset <= i < offset + length then Xor(packet[i], m[i - offset + 1]) else packet[i]
  {
    seq(|packet|, i requires 0 <= i < |packet| =>
      if i == 0 then Xor(packet[0], And(m[0], bits))
      else if offset <= i < offset + length then Xor(packet[i], m[i - offset + 1])
      else packet[i])
  }

  /**
   Section 5.4.1 of RFC 9001: the first byte is combined with the first mask byte in its low four bits for a long header and
   its low five for a short one, each byte of the packet number with a mask byte of its own, and nothing else changes.
   */
  ghost predicate Flipped(before: Bytes, after: Bytes, offset: nat, m: Bytes, length: nat) {
    && before != [] && |after| == |before| && |m| >= length + 1
    && after[0] == before[0] ^ (m[0] & if before[0] & 0x80 == 0x80 then 0x0F else 0x1F)
    && forall i :: 0 < i < |before| ==>
         after[i] == if offset <= i < offset + length then before[i] ^ m[i - offset + 1] else before[i]
  }

  lemma MaskedIsFlipped(before: Bytes, offset: nat, m: Bytes, length: nat)
    requires 1 <= offset && offset + length <= |before| && |m| >= length + 1
    ensures Flipped(before, Masked(before, offset, m, TypeBitsMask(before[0]), length), offset, m, length)
  {
    FormBit(before[0]);
    hide Masked;
  }

  lemma FormBit(b: bv8)
    ensures b & 0x80 == 0x80 <==> b & 0x80 != 0
  {
  }

  /** The loop of `cipherHeader` and `decipherHeader` over the packet number bytes, in place. */
  method XorPacketNumber(packet: array<bv8>, offset: nat, m: Bytes, length: nat)
    requires offset + length <= packet.Length && |m| >= length + 1
    modifies packet
    ensures forall i :: 0 <= i < packet.Length ==>
              packet[i] == if offset <= i < offset + length then Xor(old(packet[i]), m[i - offset + 1]) else old(packet[i])
  {
    hide Xor;
    for i := 0 to length
      invariant forall j :: 0 <= j < packet.Length ==>
                  packet[j] == if offset <= j < offset + i then Xor(old(packet[j]), m[j - offset + 1]) else old(packet[j])
    {
      packet[offset + i] := Xor(packet[offset + i], m[i + 1]);
    }
  }

  /**
   `encryptPacketHeader` on a packet laid out in one buffer, the header up to `headerLen` and the
   sealed body behind it: the sample is taken from the body, past the bytes a longer packet
   number would have taken. Too short a body fails a check.
   */
  method Protect(packet: array<bv8>, headerLen: nat, mask: Bytes -> Bytes) returns (ok: bool)
    requires 0 < packet.Length && headerLen <= packet.Length && MaskOk(mask)
    requires headerLen >= 1 + PacketNumberLength(packet[0])
    modifies packet
    ensures ok <==> old(packet.Length >= headerLen - PacketNumberLength(packet[0]) + MAX_PACKET_NUM_ENCODING_SIZE + SAMPLE_SIZE)
    ensures !ok ==> packet[..] == old(packet[..])
    ensures ok ==>
              var length := PacketNumberLength(old(packet[0]));
              var offset := headerLen - length;
              packet[..] == Masked(old(packet[..]), offset, mask(old(packet[offset + 4..offset + 4 + SAMPLE_SIZE])),
                                   TypeBitsMask(old(packet[0])), length)
    ensures ok ==>
              var length := PacketNumberLength(old(packet[0]));
              var offset := headerLen - length;
              Flipped(old(packet[..]), packet[..], offset, mask(old(packet[offset + 4..offset + 4 + 16])), length)
  {
    hide PacketNumberLength, TypeBitsMask, Masked, Xor, And, Flipped;
    var length := PacketNumberLength(packet[0]);
    var sampleBytesToUse := MAX_PACKET_NUM_ENCODING_SIZE - length;
    var bodyLen := packet.Length - headerLen;
    if bodyLen < sampleBytesToUse + SAMPLE_SIZE {
      return false;
    }
    var body := headerLen + sampleBytesToUse;
    var m := mask(packet[body..body + SAMPLE_SIZE]);
    MaskedIsFlipped(packet[..], headerLen - length, m, length);
    packet[0] := Xor(packet[0], And(m[0], TypeBitsMask(packet[0])));
    XorPacketNumber(packet, headerLen - length, m, length);
    assert packet[..] == Masked(old(packet[..]), headerLen - length, m, TypeBitsMask(old(packet[0])), length);
    ok := true;
  }

  /**
   The reader: it knows where the packet number starts, not how long it is; it samples four bytes
   on, unmasks the first byte, and only then learns the length. A packet too short for the sample is dropped.
   */
  method Unprotect(packet: array<bv8>, offset: nat, mask: Bytes -> Bytes) returns (length: Option<nat>)
    requires 1 <= offset && 0 < packet.Length && MaskOk(mask)
    modifies packet
    ensures length.None? <==> packet.Length < offset + MAX_PACKET_NUM_ENCODING_SIZE + SAMPLE_SIZE
    ensures length.None? ==> packet[..] == old(packet[..])
    ensures length.Some? ==>
              && 1 <= length.value <= 4
              && (var m := mask(old(packet[offset + 4..offset + 4 + SAMPLE_SIZE]));
                  var bits := TypeBitsMask(old(packet[0]));
                  && length.value == PacketNumberLength(Xor(old(packet[0]), And(m[0], bits)))
                  && packet[..] == Masked(old(packet[..]), offset, m, bits, length.value)
                  && Flipped(old(packet[..]), packet[..], offset, m, length.value)
                  && length.value == PacketNumberLength(packet[0]))
  {
    hide PacketNumberLength, TypeBitsMask, Masked, Xor, And, Flipped;
    var sampleOffset := offset + MAX_PACKET_NUM_ENCODING_SIZE;
    if packet.Length < sampleOffset + SAMPLE_SIZE {
      return None;
    }
    var m := mask(packet[sampleOffset..sampleOffset + SAMPLE_SIZE]);
    packet[0] := Xor(packet[0], And(m[0], TypeBitsMask(packet[0])));
    var l := PacketNumberLength(packet[0]);
    XorPacketNumber(packet, offset, m, l);
    MaskedIsFlipped(old(packet[..]), offset, m, l);
    assert packet[..] == Masked(old(packet[..]), offset, m, TypeBitsMask(old(packet[0])), l);
    length := Some(l);
  }

  /** Protection never changes the form bit, so the reader masks the same bits as the writer. */
  lemma SameForm(b: bv8, m: bv8)
    ensures TypeBitsMask(Xor(b, And(m, TypeBitsMask(b)))) == TypeBitsMask(b)
  {
  }

  /** What the writer protects the reader restores, length and all, for every packet and every mask. */
  method ProtectThenUnprotect(packet: array<bv8>, headerLen: nat, mask: Bytes -> Bytes) returns (ok: bool, length: Option<nat>)
    requires 0 < packet.Length && headerLen <= packet.Length && MaskOk(mask)
    requires headerLen >= 1 + PacketNumberLength(packet[0])
    modifies packet
    ensures packet[..] == old(packet[..])
    ensures ok <==> old(packet.Length >= headerLen - PacketNumberLength(packet[0]) + MAX_PACKET_NUM_ENCODING_SIZE + SAMPLE_SIZE)
    ensures ok ==> length == Some(PacketNumberLength(old(packet[0])))
  {
    hide PacketNumberLength, TypeBitsMask, Masked, Xor, And;
    ghost var plain := packet[..];
    var offset := headerLen - PacketNumberLength(packet[0]);
    length := None;
    ok := Protect(packet, headerLen, mask);
    if ok {
      ghost var sealed := packet[..];
      Restores(plain, sealed, offset, mask);
      length := Unprotect(packet, offset, mask);
    }
  }

  /** The heart of it, on values: the sample is untouched, and masking twice is the identity. */
  lemma Restores(plain: Bytes, sealed: Bytes, offset: nat, mask: Bytes -> Bytes)
    requires 1 <= offset && offset + 4 + SAMPLE_SIZE <= |plain| && MaskOk(mask)
    requires var length := PacketNumberLength(plain[0]);
             sealed == Masked(plain, offset, mask(plain[offset + 4..offset + 4 + SAMPLE_SIZE]), TypeBitsMask(plain[0]), length)
    ensures sealed[offset + 4..offset + 4 + SAMPLE_SIZE] == plain[offset + 4..offset + 4 + SAMPLE_SIZE]
    ensures var m := mask(plain[offset + 4..offset + 4 + SAMPLE_SIZE]);
            var bits := TypeBitsMask(sealed[0]);
            && Xor(sealed[0], And(m[0], bits)) == plain[0]
            && Masked(sealed, offset, m, bits, PacketNumberLength(plain[0])) == plain
  {
    hide PacketNumberLength, TypeBitsMask, Masked, Xor, And;
    var sample := plain[offset + 4..offset + 4 + SAMPLE_SIZE];
    assert sealed[offset + 4..offset + 4 + SAMPLE_SIZE] == sample;
    var m := mask(sample);
    SameForm(plain[0], m[0]);
    XorTwice(plain[0], And(m[0], TypeBitsMask(plain[0])));
    MaskTwice(plain, offset, m, TypeBitsMask(plain[0]), PacketNumberLength(plain[0]));
  }

  lemma MaskTwice(plain: Bytes, offset: nat, m: Bytes, bits: bv8, length: nat)
    requires 1 <= offset && offset + length <= |plain| && |m| >= length + 1
    ensures Masked(Masked(plain, offset, m, bits, length), offset, m, bits, length) == plain
  {
    hide Masked, Xor, And;
    var sealed := Masked(plain, offset, m, bits, length);
    var again := Masked(sealed, offset, m, bits, length);
    forall i | 0 <= i < |plain| ensures again[i] == plain[i] {
      if i == 0 {
        XorTwice(plain[0], And(m[0], bits));
      } else if offset <= i < offset + length {
        XorTwice(plain[i], m[i - offset + 1]);
      }
    }
  }

  lemma XorTwice(a: bv8, b: bv8)
    ensures Xor(Xor(a, b), b) == a
  {
  }
}
