/**
 The bytes of every frame, written out: section 19 of RFC 9000, the extension frames of
 quic/codec/Types.h, and the layouts of quic/codec/QuicWriteCodec.cpp. The writers produce exactly these bytes.
 */
module WireFormat {
  import opened Prelude
  import opened Varint
  import opened AckFrames
  import opened FrameReaders
  import opened FrameWriters
  import Outstanding
  import AckWriter
  import StreamFrames

  /** A variable-length integer. */
  function Var(v: int): seq<byte> { if 0 <= v <= EIGHT_BYTE_LIMIT then AckWriter.Enc(v) else [] }

  /** The examples of section A.1 of RFC 9000, which fix the byte order and the two bits of length. */
  lemma Samples()
    ensures Decode([0xC2, 0x19, 0x7C, 0x5E, 0xFF, 0x14, 0xE8, 0x8C], 8) == Some((151288809941952652, 8))
    ensures Decode([0x9D, 0x7F, 0x3E, 0x7D], 4) == Some((494878333, 4))
    ensures Decode([0x7B, 0xBD], 2) == Some((15293, 2)) && Decode([0x40, 0x25], 2) == Some((37, 2))
    ensures Decode([0x25], 1) == Some((37, 1))
  {
    hide Decode;
    EightByteSample();
    FourByteSample();
    TwoByteSample(0x7B, 0xBD);
    TwoByteSample(0x40, 0x25);
    assert Decode([0x25], 1) == Some((37, 1)) by { OneByteSample(); }
  }

  lemma OneByteSample()
    ensures Decode([0x25], 1) == Some((37, 1))
  {
  }

  lemma TwoByteSample(a: byte, b: byte)
    requires 0x40 <= a < 0x80
    ensures Decode([a, b], 2) == Some(((a - 0x40) as nat * 0x100 + b as nat, 2))
  {
    var data := [a, b];
    assert Decode(data, 2).Some? && Decode(data, 2).value.1 == 2;
    DecodeMeaning(data, 2);
    hide Decode;
    assert data[..2] == data && [data[0] % 64] + data[1..] == [a - 0x40, b];
    BigEndian2(a - 0x40, b);
  }

  lemma FourByteSample()
    ensures Decode([0x9D, 0x7F, 0x3E, 0x7D], 4) == Some((494878333, 4))
  {
    var data: seq<byte> := [0x9D, 0x7F, 0x3E, 0x7D];
    assert Decode(data, 4).Some? && Decode(data, 4).value.1 == 4;
    DecodeMeaning(data, 4);
    hide Decode;
    assert data[..4] == data && [data[0] % 64] + data[1..] == [0x1D, 0x7F, 0x3E, 0x7D];
    BigEndian4(0x1D, 0x7F, 0x3E, 0x7D);
  }

  lemma EightByteSample()
    ensures Decode([0xC2, 0x19, 0x7C, 0x5E, 0xFF, 0x14, 0xE8, 0x8C], 8) == Some((151288809941952652, 8))
  {
    var data: seq<byte> := [0xC2, 0x19, 0x7C, 0x5E, 0xFF, 0x14, 0xE8, 0x8C];
    assert Decode(data, 8).Some? && Decode(data, 8).value.1 == 8;
    DecodeMeaning(data, 8);
    hide Decode, BigEndian;
    var x: seq<byte> := [0x02, 0x19, 0x7C, 0x5E, 0xFF, 0x14, 0xE8, 0x8C];
    assert data[..8] == data && [data[0] % 64] + data[1..] == x;
    BigEndian8(x);
  }

  /** Every frame that has one writer, byte by byte. */
  function Wire(f: QuicFrame): seq<byte>
    requires Simple(f) && Typed(f)
  {
    match f
    case Ping => [0x01]
    case RstStream(id, error, finalSize, None) => [0x04] + (Var(id) + (Var(error) + Var(finalSize)))
    case RstStream(id, error, finalSize, Some(reliable)) =>
      [0x24] + (Var(id) + (Var(error) + (Var(finalSize) + Var(reliable))))
    case StopSending(id, error) => [0x05] + (Var(id) + Var(error))
    case Crypto(offset, data) => [0x06] + (Var(offset) + (Var(|data|) + data))
    case NewToken(token) => [0x07] + (Var(|token|) + token)
    case MaxData(limit) => [0x10] + Var(limit)
    case MaxStreamData(id, limit) => [0x11] + (Var(id) + Var(limit))
    case MaxStreams(limit, true) => [0x12] + Var(limit)
    case MaxStreams(limit, false) => [0x13] + Var(limit)
    case DataBlocked(limit) => [0x14] + Var(limit)
    case StreamDataBlocked(id, limit) => [0x15] + (Var(id) + Var(limit))
    case StreamsBlocked(limit, true) => [0x16] + Var(limit)
    case StreamsBlocked(limit, false) => [0x17] + Var(limit)
    case NewConnectionId(sequence, retire, id, token) => [0x18] + (Var(sequence) + (Var(retire) + ([|id| as byte] + (id + token))))
    case RetireConnectionId(sequence) => [0x19] + Var(sequence)
    case PathChallenge(word) => [0x1A] + WriteBE(word, 8)
    case PathResponse(word) => [0x1B] + WriteBE(word, 8)
    case ConnectionClose(error, closing, reason) => [0x1C] + (Var(error) + (Var(closing) + (Var(|reason|) + reason)))
    case ApplicationClose(error, reason) => [0x1D] + (Var(error) + (Var(|reason|) + reason))
    case HandshakeDone => [0x1E]
    case Datagram(data) => [0x31] + (Var(|data|) + data)
    case Knob(space, id, blob) => [0x55, 0x50] + (Var(space) + (Var(id) + (Var(|blob|) + blob)))
    case AckFrequency(sequence, tolerance, delay, threshold) =>
      [0x40, 0xAF] + (Var(sequence) + (Var(tolerance) + (Var(delay) + Var(threshold))))
    case ImmediateAck => [0x40, 0xAC]
  }

  // ------------------------------------------------------------------ types and integers

  lemma OneByte(v: nat)
    requires v <= ONE_BYTE_LIMIT
    ensures AckWriter.Enc(v) == [v as byte]
  {
    assert WriteBE(v, 1) == WriteBE(v / 256, 0) + [(v % 256) as byte];
  }

  lemma TwoBytes(v: nat)
    requires ONE_BYTE_LIMIT < v <= TWO_BYTE_LIMIT
    ensures AckWriter.Enc(v) == [(0x40 + v / 256) as byte, (v % 256) as byte]
  {
    var w := v + 0x4000;
    assert WriteBE(w, 2) == WriteBE(w / 256, 1) + [(w % 256) as byte];
    assert WriteBE(w / 256, 1) == WriteBE(w / 256 / 256, 0) + [(w / 256 % 256) as byte];
    assert w / 256 == 0x40 + v / 256 && w % 256 == v % 256;
  }

  lemma TypeBytes(f: QuicFrame)
    requires Simple(f)
    ensures TypeOf(f) <= ONE_BYTE_LIMIT ==> AckWriter.Enc(TypeOf(f)) == [TypeOf(f) as byte]
    ensures f.Knob? ==> AckWriter.Enc(TypeOf(f)) == [0x55, 0x50]
    ensures f.AckFrequency? ==> AckWriter.Enc(TypeOf(f)) == [0x40, 0xAF]
    ensures f.ImmediateAck? ==> AckWriter.Enc(TypeOf(f)) == [0x40, 0xAC]
  {
    if TypeOf(f) <= ONE_BYTE_LIMIT { OneByte(TypeOf(f)); } else { TwoBytes(TypeOf(f)); }
  }

  lemma NoInts()
    ensures EncAll([]) == []
  {
  }

  lemma OneInt(a: nat)
    requires AllFit([a])
    ensures EncAll([a]) == Var(a)
  {
    assert [a][0] == a && [a][1..] == [];
    assert AckWriter.Enc(a) + [] == AckWriter.Enc(a);
  }

  lemma MoreInts(a: nat, v: seq<nat>)
    requires AllFit([a] + v)
    ensures AllFit(v) && EncAll([a] + v) == Var(a) + EncAll(v)
  {
    var w := [a] + v;
    assert w[0] == a && w[1..] == v && forall i :: 0 <= i < |v| ==> v[i] == w[i + 1];
  }

  lemma TwoIntsWire(a: nat, b: nat)
    requires AllFit([a, b])
    ensures EncAll([a, b]) == Var(a) + Var(b)
  {
    hide EncAll, Var;
    assert [a, b] == [a] + [b];
    MoreInts(a, [b]);
    OneInt(b);
  }

  lemma ThreeIntsWire(a: nat, b: nat, c: nat)
    requires AllFit([a, b, c])
    ensures EncAll([a, b, c]) == Var(a) + (Var(b) + Var(c))
  {
    hide EncAll, Var;
    assert [a, b, c] == [a] + [b, c];
    MoreInts(a, [b, c]);
    TwoIntsWire(b, c);
  }

  lemma FourIntsWire(a: nat, b: nat, c: nat, d: nat)
    requires AllFit([a, b, c, d])
    ensures EncAll([a, b, c, d]) == Var(a) + (Var(b) + (Var(c) + Var(d)))
  {
    hide EncAll, Var;
    assert [a, b, c, d] == [a] + [b, c, d];
    MoreInts(a, [b, c, d]);
    ThreeIntsWire(b, c, d);
  }

  // ------------------------------------------------------------------ the frames

  /** One to four integers, as they are written. */
  function Vars(v: seq<nat>): seq<byte> {
    if |v| == 0 then []
    else if |v| == 1 then Var(v[0])
    else if |v| == 2 then Var(v[0]) + Var(v[1])
    else if |v| == 3 then Var(v[0]) + (Var(v[1]) + Var(v[2]))
    else Var(v[0]) + (Var(v[1]) + (Var(v[2]) + Var(v[3])))
  }

  lemma UpToOne(v: seq<nat>)
    requires AllFit(v) && |v| <= 1
    ensures EncAll(v) == Vars(v)
  {
    hide Var;
    if v != [] {
      assert v == [v[0]];
      OneInt(v[0]);
    }
  }

  lemma ExactlyTwo(v: seq<nat>)
    requires AllFit(v) && |v| == 2
    ensures EncAll(v) == Vars(v)
  {
    hide EncAll, Var;
    assert v == [v[0], v[1]];
    TwoIntsWire(v[0], v[1]);
  }

  lemma ExactlyThree(v: seq<nat>)
    requires AllFit(v) && |v| == 3
    ensures EncAll(v) == Vars(v)
  {
    hide EncAll, Var;
    assert v == [v[0], v[1], v[2]];
    ThreeIntsWire(v[0], v[1], v[2]);
  }

  lemma ExactlyFour(v: seq<nat>)
    requires AllFit(v) && |v| == 4
    ensures EncAll(v) == Vars(v)
  {
    hide EncAll, Var;
    assert v == [v[0], v[1], v[2], v[3]];
    FourIntsWire(v[0], v[1], v[2], v[3]);
  }

  lemma UpToFour(v: seq<nat>)
    requires AllFit(v) && |v| <= 4
    ensures EncAll(v) == Vars(v)
  {
    if |v| <= 1 { UpToOne(v); } else if |v| == 2 { ExactlyTwo(v); } else if |v| == 3 { ExactlyThree(v); } else { ExactlyFour(v); }
  }

  /** Frames of integers alone. */
  lemma IntsWire(f: QuicFrame)
    requires Simple(f) && Typed(f) && AllFit(IntsOf(f)) && TailOf(f) == []
    requires !f.Crypto? && !f.NewToken? && !f.Datagram? && !f.Knob? && !f.ConnectionClose? && !f.ApplicationClose?
    ensures Layout(f) == Wire(f)
  {
    hide EncAll, Var, AckWriter.Enc, AllFit;
    TypeBytes(f);
    UpToFour(IntsOf(f));
    assert EncAll(IntsOf(f)) + [] == EncAll(IntsOf(f));
  }

  lemma Regroup(a: seq<byte>, b: seq<byte>, c: seq<byte>, d: seq<byte>)
    ensures a + b + d == a + (b + d)
    ensures a + (b + c) + d == a + (b + (c + d))
  {
  }

  /** Frames with bytes behind the integers. */
  lemma BytesWire(f: QuicFrame)
    requires Simple(f) && Typed(f) && AllFit(IntsOf(f))
    requires f.Crypto? || f.NewToken? || f.Datagram? || f.Knob? || f.ConnectionClose? || f.ApplicationClose? || f.NewConnectionId?
    ensures Layout(f) == Wire(f)
  {
    hide EncAll, Var, AckWriter.Enc;
    TypeBytes(f);
    var (v, tail) := (IntsOf(f), TailOf(f));
    if |v| == 1 {
      assert v == [v[0]];
      OneInt(v[0]);
    } else if |v| == 2 {
      assert v == [v[0], v[1]];
      TwoIntsWire(v[0], v[1]);
      Regroup(Var(v[0]), Var(v[1]), [], tail);
    } else {
      assert v == [v[0], v[1], v[2]];
      ThreeIntsWire(v[0], v[1], v[2]);
      Regroup(Var(v[0]), Var(v[1]), Var(v[2]), tail);
    }
  }

  lemma PathWire(f: QuicFrame)
    requires (f.PathChallenge? || f.PathResponse?) && Typed(f)
    ensures Layout(f) == Wire(f)
  {
    hide EncAll, AckWriter.Enc, WriteBE;
    TypeBytes(f);
    NoInts();
    assert [] + WriteBE(f.pathData, 8) == WriteBE(f.pathData, 8);
  }

  /** What is written of a frame is its bytes by the standard. */
  lemma LayoutIsWire(f: QuicFrame)
    requires Simple(f) && Typed(f) && AllFit(IntsOf(f))
    ensures Layout(f) == Wire(f)
  {
    hide Layout, Wire;
    if f.PathChallenge? || f.PathResponse? {
      PathWire(f);
    } else if f.Crypto? || f.NewToken? || f.Datagram? || f.Knob? || f.ConnectionClose? || f.ApplicationClose? || f.NewConnectionId? {
      BytesWire(f);
    } else {
      IntsWire(f);
    }
  }

  // ------------------------------------------------------------------ ACK and STREAM

  /** The ranges behind the first of an ACK frame: section 19.3.1 of RFC 9000. */
  function RangesWire(blocks: seq<Outstanding.Block>, k: nat): seq<byte>
    requires 1 <= k <= |blocks|
    decreases |blocks| - k
  {
    if k == |blocks| then []
    else
      Var(blocks[k - 1].start - blocks[k].end - 2) + (Var(blocks[k].end - blocks[k].start) + RangesWire(blocks, k + 1))
  }

  lemma {:induction false} RangesAreWire(blocks: seq<Outstanding.Block>, k: nat)
    requires Gapped(blocks) && 1 <= k <= |blocks|
    ensures AckWriter.EncodeBlocks(blocks, k) == RangesWire(blocks, k)
    decreases |blocks| - k
  {
    hide Gapped, AckWriter.EncodeBlocks, RangesWire;
    if k < |blocks| {
      RangesAreWire(blocks, k + 1);
      RangeStep(blocks, k);
    } else {
      RangesEnd(blocks);
    }
  }

  lemma RangesEnd(blocks: seq<Outstanding.Block>)
    requires Gapped(blocks) && blocks != []
    ensures AckWriter.EncodeBlocks(blocks, |blocks|) == RangesWire(blocks, |blocks|)
  {
  }

  lemma RangeFacts(blocks: seq<Outstanding.Block>, k: nat)
    requires Gapped(blocks) && 1 <= k < |blocks|
    ensures blocks[k].start <= blocks[k].end <= EIGHT_BYTE_LIMIT && AckWriter.GapAt(blocks, k) == blocks[k - 1].start - blocks[k].end - 2
  {
  }

  lemma RangeStep(blocks: seq<Outstanding.Block>, k: nat)
    requires Gapped(blocks) && 1 <= k < |blocks| && AckWriter.EncodeBlocks(blocks, k + 1) == RangesWire(blocks, k + 1)
    ensures AckWriter.EncodeBlocks(blocks, k) == RangesWire(blocks, k)
  {
    hide AckWriter.Enc, Gapped, AckWriter.GapAt;
    RangeFacts(blocks, k);
    var (gap, len, rest) := (AckWriter.GapAt(blocks, k), blocks[k].end - blocks[k].start, RangesWire(blocks, k + 1));
    assert AckWriter.EncodeBlocks(blocks, k) == AckWriter.Enc(gap) + AckWriter.Enc(len) + rest;
    Regroup(AckWriter.Enc(gap), AckWriter.Enc(len), [], rest);
  }

  /** An ACK frame: the largest number, the delay, how many ranges follow, the first range, and the others. */
  lemma AckIsWire(blocks: seq<Outstanding.Block>, delay: nat)
    requires AckWriter.Encodable(blocks, delay)
    ensures AckWriter.Enc(ACK_TYPE) + AckWriter.EncodeFields(blocks, delay) ==
            [0x02] + (Var(blocks[0].end) + (Var(delay) + (Var(|blocks| - 1) +
                      (Var(blocks[0].end - blocks[0].start) + RangesWire(blocks, 1)))))
  {
    OneByte(ACK_TYPE);
    assert blocks[0].start <= blocks[0].end <= EIGHT_BYTE_LIMIT;
    hide AckWriter.EncodeBlocks, RangesWire, Gapped;
    RangesAreWire(blocks, 1);
  }

  /** The type of a STREAM frame: three bits tell of an offset, of a length and of the end. A group's frame always has the length bit. */
  lemma StreamTypeIsWire(group: bool, offset: bool, length: bool, fin: bool)
    ensures StreamFrames.TypeField(group, offset, length, fin) ==
            (if group then 0x32 else 0x08 + if length then 2 else 0) + (if offset then 4 else 0) + (if fin then 1 else 0)
  {
  }

  /** A STREAM frame: the type, the stream, its group, the offset unless it is zero, and the length if it is told. */
  lemma StreamIsWire(q: StreamFrames.Request, dataLen: nat, fin: bool, hasLength: bool)
    requires StreamFrames.Encodes(q) && q.offset <= EIGHT_BYTE_LIMIT && dataLen <= EIGHT_BYTE_LIMIT && q.group.None?
    ensures StreamFrames.HeaderBytes(q, dataLen, fin, hasLength) ==
            [(0x08 + (if q.offset != 0 then 4 else 0) + (if hasLength then 2 else 0) + (if fin then 1 else 0)) as byte] +
            (Var(q.id) + ((if q.offset != 0 then Var(q.offset) else []) + (if hasLength then Var(dataLen) else [])))
  {
    var t := StreamFrames.TypeField(false, q.offset != 0, hasLength, fin);
    StreamTypeIsWire(false, q.offset != 0, hasLength, fin);
    hide StreamFrames.TypeField;
    OneByte(t);
    hide AckWriter.Enc;
    var rest := (if q.offset != 0 then Var(q.offset) else []) + (if hasLength then Var(dataLen) else []);
    assert [] + rest == rest;
  }
}
