/**
 Writing frames (quic/codec/QuicWriteCodec.cpp: `writeSimpleFrame`, `writeFrame`, and the layout of
 `writeCryptoFrame`), and their way through a packet to the reader of the peer.
 */
module FrameWriters {
  import opened Prelude
  import opened Varint
  import opened AckFrames
  import opened FrameReaders
  import opened PacketFrames
  import Outstanding
  import AckWriter
  import StreamFrames

  const ACK_TYPE: nat := 0x02

  // ------------------------------------------------------------------ the writers

  /** ACK and STREAM frames have writers of their own. */
  predicate Simple(f: QuicFrame) { !f.Ack? && !f.Stream? }

  function TypeOf(f: QuicFrame): (r: nat)
    requires Simple(f)
    ensures r <= 0x1550
  {
    match f
    case Ping => 0x01
    case RstStream(_, _, _, reliable) => if reliable.Some? then 0x24 else 0x04
    case StopSending(_, _) => 0x05
    case Crypto(_, _) => 0x06
    case NewToken(_) => 0x07
    case MaxData(_) => 0x10
    case MaxStreamData(_, _) => 0x11
    case MaxStreams(_, bidirectional) => if bidirectional then 0x12 else 0x13
    case DataBlocked(_) => 0x14
    case StreamDataBlocked(_, _) => 0x15
    case StreamsBlocked(_, bidirectional) => if bidirectional then 0x16 else 0x17
    case NewConnectionId(_, _, _, _) => 0x18
    case RetireConnectionId(_) => 0x19
    case PathChallenge(_) => 0x1A
    case PathResponse(_) => 0x1B
    case ConnectionClose(_, _, _) => 0x1C
    case ApplicationClose(_, _) => 0x1D
    case HandshakeDone => 0x1E
    case Datagram(_) => 0x31
    case Knob(_, _, _) => 0x1550
    case AckFrequency(_, _, _, _) => 0xAF
    case ImmediateAck => 0xAC
  }

  /** The integers behind the type. */
  function IntsOf(f: QuicFrame): seq<nat>
    requires Simple(f)
  {
    match f
    case Ping => []
    case RstStream(id, error, finalSize, reliable) =>
      if reliable.Some? then [id, error, finalSize, reliable.value] else [id, error, finalSize]
    case StopSending(id, error) => [id, error]
    case Crypto(offset, data) => [offset, |data|]
    case NewToken(token) => [|token|]
    case MaxData(limit) => [limit]
    case MaxStreamData(id, limit) => [id, limit]
    case MaxStreams(limit, _) => [limit]
    case DataBlocked(limit) => [limit]
    case StreamDataBlocked(id, limit) => [id, limit]
    case StreamsBlocked(limit, _) => [limit]
    case NewConnectionId(sequence, retire, _, _) => [sequence, retire]
    case RetireConnectionId(sequence) => [sequence]
    case PathChallenge(_) => []
    case PathResponse(_) => []
    case ConnectionClose(error, closing, reason) => [error, closing, |reason|]
    case ApplicationClose(error, reason) => [error, |reason|]
    case HandshakeDone => []
    case Datagram(data) => [|data|]
    case Knob(space, id, blob) => [space, id, |blob|]
    case AckFrequency(sequence, tolerance, delay, threshold) => [sequence, tolerance, delay, threshold]
    case ImmediateAck => []
  }

  /** The bytes behind the integers. */
  function TailOf(f: QuicFrame): seq<byte>
    requires Simple(f) && Typed(f)
  {
    match f
    case Crypto(_, data) => data
    case NewToken(token) => token
    case NewConnectionId(_, _, id, token) => [|id| as byte] + (id + token)
    case PathChallenge(word) => WriteBE(word, 8)
    case PathResponse(word) => WriteBE(word, 8)
    case ConnectionClose(_, _, reason) => reason
    case ApplicationClose(_, reason) => reason
    case Datagram(data) => data
    case Knob(_, _, blob) => blob
    case _ => []
  }

  /** What the source's types say of the frame's fields. */
  predicate Typed(f: QuicFrame) {
    match f
    case NewConnectionId(_, _, id, token) => |id| <= 20 && |token| == 16
    case PathChallenge(word) => word < TWO_TO_64
    case PathResponse(word) => word < TWO_TO_64
    case _ => true
  }

  predicate AllFit(v: seq<nat>) { forall i :: 0 <= i < |v| ==> v[i] <= EIGHT_BYTE_LIMIT }

  function EncAll(v: seq<nat>): seq<byte>
    requires AllFit(v)
  {
    if v == [] then [] else AckWriter.Enc(v[0]) + EncAll(v[1..])
  }

  /** `getSize` of the integers, added up. */
  function Sizes(v: seq<nat>): nat
    requires AllFit(v)
  {
    if v == [] then 0 else Size(v[0]).value + Sizes(v[1..])
  }

  /** An integer that cannot be encoded is an error; no room is not. */
  datatype Outcome = EncodingError | NoSpace | Written(bytes: seq<byte>)

  function Layout(f: QuicFrame): seq<byte>
    requires Simple(f) && Typed(f) && AllFit(IntsOf(f))
  {
    AckWriter.Enc(TypeOf(f)) + (EncAll(IntsOf(f)) + TailOf(f))
  }

  /** `writeFrame` and `writeSimpleFrame`: a frame is written whole or not at all. */
  function WriteFrame(f: QuicFrame, space: nat): (r: Outcome)
    requires Simple(f) && Typed(f) && !f.Crypto?
  {
    if !AllFit(IntsOf(f)) then EncodingError
    else if space < Size(TypeOf(f)).value + Sizes(IntsOf(f)) + |TailOf(f)| then NoSpace
    else Written(Layout(f))
  }

  lemma {:induction false} SizesAreLengths(v: seq<nat>)
    requires AllFit(v)
    ensures |EncAll(v)| == Sizes(v)
  {
    if v != [] { SizesAreLengths(v[1..]); }
  }

  /** The size checked before writing is the size written: a frame goes in exactly when its bytes have room. */
  lemma WrittenExactly(f: QuicFrame, space: nat)
    requires Simple(f) && Typed(f) && !f.Crypto?
    ensures WriteFrame(f, space).EncodingError? <==> exists i :: 0 <= i < |IntsOf(f)| && IntsOf(f)[i] > EIGHT_BYTE_LIMIT
    ensures WriteFrame(f, space).Written? <==> AllFit(IntsOf(f)) && |Layout(f)| <= space
    ensures WriteFrame(f, space).Written? ==> WriteFrame(f, space).bytes == Layout(f)
  {
    hide IntsOf, TailOf, TypeOf;
    if AllFit(IntsOf(f)) { SizesAreLengths(IntsOf(f)); }
  }

  /**
   `writeCryptoFrame`: as much of the data as fits behind two bytes kept for its length, under the check that
   the length takes no more.
   */
  function WriteCrypto(offset: nat, data: seq<byte>, space: nat): (r: Checked<Outcome>) {
    if offset > EIGHT_BYTE_LIMIT then Ok(EncodingError)
    else if space <= 3 + Size(offset).value then Ok(NoSpace)
    else
      var n := Min(|data|, space - 3 - Size(offset).value);
      if n > EIGHT_BYTE_LIMIT then Ok(EncodingError)
      else if Size(n).value > 2 then CheckFailed
      else Ok(Written(Layout(Crypto(offset, data[..n]))))
  }

  /**
   What is written of crypto data is its longest part that fits with its length in two bytes, and is a whole
   frame of that part; the check fails exactly when that part is longer than two bytes can tell.
   */
  lemma CryptoWritten(offset: nat, data: seq<byte>, space: nat)
    requires offset <= EIGHT_BYTE_LIMIT && |data| <= EIGHT_BYTE_LIMIT
    ensures var n := Min(|data|, if space > 3 + Size(offset).value then space - 3 - Size(offset).value else 0);
            var r := WriteCrypto(offset, data, space);
            && (r == CheckFailed <==> n > TWO_BYTE_LIMIT)
            && (r == Ok(NoSpace) <==> space <= 3 + Size(offset).value)
            && (r.Ok? && r.value.Written? ==> r.value.bytes == Layout(Crypto(offset, data[..n])) && |r.value.bytes| <= space)
            && (r.Ok? && r.value.Written? && n < |data| ==> |r.value.bytes| >= space - 1)
  {
    var n := Min(|data|, if space > 3 + Size(offset).value then space - 3 - Size(offset).value else 0);
    var f := Crypto(offset, data[..n]);
    assert IntsOf(f) == [offset, n] && [offset, n][1..] == [n] && [n][1..] == [];
    SizesAreLengths(IntsOf(f));
    assert Sizes([n]) == Size(n).value + Sizes([n][1..]) == Size(n).value;
    assert Sizes(IntsOf(f)) == Size(offset).value + Sizes([n]);
    hide EncAll, Sizes;
    assert |Layout(f)| == 1 + Size(offset).value + Size(n).value + n;
  }

  // ------------------------------------------------------------------ reading back

  lemma {:induction false} IntsTravel(v: seq<nat>, rest: seq<byte>)
    requires AllFit(v)
    ensures ReadInts(EncAll(v) + rest, |v|) == Some((v, rest))
  {
    hide ReadInt, AckWriter.Enc, IsSuffix;
    if v == [] {
      assert [] + rest == rest;
    } else {
      IntsTravel(v[1..], rest);
      AckWriter.ReadEnc(v[0], EncAll(v[1..]) + rest);
      assert EncAll(v) + rest == AckWriter.Enc(v[0]) + (EncAll(v[1..]) + rest);
      assert [v[0]] + v[1..] == v;
    }
  }

  lemma IntsThen(x: nat, v: seq<nat>, rest: seq<byte>)
    requires x <= EIGHT_BYTE_LIMIT && AllFit(v)
    ensures EncAll([x] + v) + rest == EncAll([x]) + (EncAll(v) + rest)
    ensures |EncAll([x])| == Size(x).value
  {
    hide AckWriter.Enc;
    assert ([x] + v)[1..] == v && [x][1..] == [];
    assert EncAll([x]) == AckWriter.Enc(x) + [] == AckWriter.Enc(x);
    assert EncAll([x] + v) == AckWriter.Enc(x) + EncAll(v);
  }

  /** What the reader asks of a frame besides its form. */
  predicate Acceptable(f: QuicFrame) {
    match f
    case RstStream(_, _, finalSize, reliable) => reliable.Some? ==> reliable.value <= finalSize
    case MaxStreams(limit, _) => limit <= 0x1000_0000_0000_0000
    case ConnectionClose(_, closing, reason) => closing <= 63 && |reason| <= 1024
    case ApplicationClose(_, reason) => |reason| <= 1024
    case _ => true
  }

  lemma BytesTravel(b: seq<byte>, rest: seq<byte>)
    ensures ReadBytes(b + rest, |b|) == Some((b, rest)) && ReadAtMost(b + rest, |b|) == (b, rest)
  {
    assert (b + rest)[..|b|] == b && (b + rest)[|b|..] == rest;
  }

  lemma PlainTravels(f: QuicFrame, rest: seq<byte>)
    requires Simple(f) && Typed(f) && AllFit(IntsOf(f)) && IntCount(TypeOf(f)).Some?
    ensures ReadPlain(TypeOf(f), EncAll(IntsOf(f)) + TailOf(f) + rest) == if Acceptable(f) then Some((f, rest)) else None
  {
    hide EncAll, IsSuffix, ReadInts;
    assert TailOf(f) == [] && |IntsOf(f)| == IntCount(TypeOf(f)).value;
    assert EncAll(IntsOf(f)) + [] + rest == EncAll(IntsOf(f)) + rest;
    IntsTravel(IntsOf(f), rest);
  }

  /** Frames whose last integer is the length of the bytes behind it. */
  lemma LengthTravels(f: QuicFrame, rest: seq<byte>, p: Params)
    requires f.Crypto? || f.NewToken? || f.Datagram? || f.Knob?
    requires AllFit(IntsOf(f))
    ensures ReadOther(TypeOf(f), EncAll(IntsOf(f)) + TailOf(f) + rest, p) == Some((f, rest))
  {
    hide EncAll, IsSuffix, ReadInts, ReadBytes, ReadAtMost;
    var (v, tail) := (IntsOf(f), TailOf(f));
    assert EncAll(v) + tail + rest == EncAll(v) + (tail + rest);
    IntsTravel(v, tail + rest);
    BytesTravel(tail, rest);
  }

  lemma ReasonTravels(reason: seq<byte>, rest: seq<byte>)
    requires |reason| <= EIGHT_BYTE_LIMIT
    ensures ReadReason(EncAll([|reason|]) + (reason + rest)) ==
            if |reason| <= MAX_REASON_PHRASE_LENGTH then Some((reason, rest)) else None
  {
    hide EncAll, IsSuffix, ReadInts, ReadAtMost;
    IntsTravel([|reason|], reason + rest);
    BytesTravel(reason, rest);
  }

  lemma ApplicationCloseTravels(f: QuicFrame, rest: seq<byte>)
    requires f.ApplicationClose? && AllFit(IntsOf(f))
    ensures ReadApplicationClose(EncAll(IntsOf(f)) + TailOf(f) + rest) == if Acceptable(f) then Some((f, rest)) else None
  {
    hide EncAll, IsSuffix, ReadInts, ReadReason;
    assert IntsOf(f) == [f.error] + [|f.reason|] && IntsOf(f)[0] == f.error && IntsOf(f)[1] == |f.reason|;
    assert EncAll(IntsOf(f)) + f.reason + rest == EncAll(IntsOf(f)) + (f.reason + rest);
    IntsThen(f.error, [|f.reason|], f.reason + rest);
    IntsTravel([f.error], EncAll([|f.reason|]) + (f.reason + rest));
    ReasonTravels(f.reason, rest);
  }

  lemma ThreeInts(a: nat, b: nat, c: nat, end: seq<byte>)
    requires a <= EIGHT_BYTE_LIMIT && b <= EIGHT_BYTE_LIMIT && c <= EIGHT_BYTE_LIMIT
    ensures EncAll([a, b, c]) + end == EncAll([a]) + (EncAll([b]) + (EncAll([c]) + end))
  {
    hide EncAll;
    assert [a, b, c] == [a] + ([b] + [c]) && [a, b, c][0] == a && [a, b, c][1] == b && [a, b, c][2] == c;
    IntsThen(a, [b] + [c], end);
    IntsThen(b, [c], end);
  }

  lemma CloseFieldsTravel(e: nat, t: nat, reason: seq<byte>, rest: seq<byte>)
    requires e <= EIGHT_BYTE_LIMIT && t <= EIGHT_BYTE_LIMIT && |reason| <= EIGHT_BYTE_LIMIT
    ensures ReadConnectionClose(EncAll([e]) + (EncAll([t]) + (EncAll([|reason|]) + (reason + rest)))) ==
            if t <= ONE_BYTE_LIMIT && |reason| <= MAX_REASON_PHRASE_LENGTH then Some((ConnectionClose(e, t, reason), rest)) else None
  {
    hide EncAll, IsSuffix, ReadInts, ReadReason;
    var end := EncAll([|reason|]) + (reason + rest);
    IntsTravel([e], EncAll([t]) + end);
    IntsTravel([t], end);
    IntsThen(t, [], []);
    ReasonTravels(reason, rest);
  }

  lemma ConnectionCloseTravels(f: QuicFrame, rest: seq<byte>)
    requires f.ConnectionClose? && AllFit(IntsOf(f))
    ensures ReadConnectionClose(EncAll(IntsOf(f)) + TailOf(f) + rest) == if Acceptable(f) then Some((f, rest)) else None
  {
    hide EncAll, ReadConnectionClose;
    var (e, t, n) := (f.error, f.closingFrameType, |f.reason|);
    assert IntsOf(f)[0] == e && IntsOf(f)[1] == t && IntsOf(f)[2] == n;
    assert EncAll([e, t, n]) + f.reason + rest == EncAll([e, t, n]) + (f.reason + rest);
    ThreeInts(e, t, n, f.reason + rest);
    CloseFieldsTravel(e, t, f.reason, rest);
  }

  lemma NewConnectionIdTravels(f: QuicFrame, rest: seq<byte>)
    requires f.NewConnectionId? && Typed(f) && AllFit(IntsOf(f))
    ensures ReadNewConnectionId(EncAll(IntsOf(f)) + TailOf(f) + rest) == Some((f, rest))
  {
    hide EncAll, IsSuffix, ReadInts, ReadBytes;
    var (v, n, id, token) := (IntsOf(f), |f.connectionId| as byte, f.connectionId, f.token);
    var data := [n] + (id + (token + rest));
    assert EncAll(v) + ([n] + (id + token)) + rest == EncAll(v) + data;
    IntsTravel(v, data);
    assert data[1..] == id + (token + rest);
    BytesTravel(id, token + rest);
    BytesTravel(token, rest);
  }

  lemma PathTravels(f: QuicFrame, rest: seq<byte>)
    requires (f.PathChallenge? || f.PathResponse?) && Typed(f)
    ensures ReadPath(EncAll(IntsOf(f)) + TailOf(f) + rest, f.PathChallenge?) == Some((f, rest))
  {
    hide IsSuffix, ReadBytes, WriteBE, BigEndian;
    assert f.pathData < Pow256(8) by { assert Pow256(4) == 0x1_0000_0000; }
    var b := WriteBE(f.pathData, 8);
    assert [] + b + rest == b + rest;
    BytesTravel(b, rest);
    WriteRead(f.pathData, 8);
  }

  /** A written frame is read back with what follows it untouched, or refused, and exactly `Acceptable` says which. */
  lemma FrameTravels(f: QuicFrame, rest: seq<byte>, p: Params)
    requires Simple(f) && Typed(f) && AllFit(IntsOf(f))
    ensures ReadOther(TypeOf(f), EncAll(IntsOf(f)) + TailOf(f) + rest, p) == if Acceptable(f) then Some((f, rest)) else None
  {
    hide ReadPlain, ReadConnectionClose, ReadApplicationClose, ReadNewConnectionId, ReadPath, ReadCrypto, ReadNewToken;
    hide ReadDatagram, ReadKnob, ReadAck, ReadStream, EncAll, IsSuffix, IntsOf, TailOf;
    if IntCount(TypeOf(f)).Some? {
      PlainTravels(f, rest);
    } else {
      match f
      case ApplicationClose(_, _) => ApplicationCloseTravels(f, rest);
      case ConnectionClose(_, _, _) => ConnectionCloseTravels(f, rest);
      case NewConnectionId(_, _, _, _) => NewConnectionIdTravels(f, rest);
      case PathChallenge(_) => PathTravels(f, rest);
      case PathResponse(_) => PathTravels(f, rest);
      case Crypto(_, _) => LengthTravels(f, rest, p);
      case NewToken(_) => LengthTravels(f, rest, p);
      case Datagram(_) => LengthTravels(f, rest, p);
      case Knob(_, _, _) => LengthTravels(f, rest, p);
      case _ =>
    }
  }

  /** What is read keeps every limit, and is of the type it was read as; a datagram may come without its length. */
  ghost predicate Kept(t: nat, f: QuicFrame) {
    Simple(f) ==> Typed(f) && Acceptable(f) && (TypeOf(f) == t || (f.Datagram? && t == 0x30))
  }

  lemma PlainKept(t: nat, data: seq<byte>)
    requires IntCount(t).Some?
    ensures ReadPlain(t, data).Some? ==> Kept(t, ReadPlain(t, data).value.0)
  {
    hide ReadInts, IsSuffix;
  }

  lemma BytesKept(data: seq<byte>, p: Params)
    ensures ReadCrypto(data).Some? ==> Kept(0x06, ReadCrypto(data).value.0)
    ensures ReadNewToken(data).Some? ==> Kept(0x07, ReadNewToken(data).value.0)
    ensures ReadDatagram(data, true).Some? ==> Kept(0x31, ReadDatagram(data, true).value.0)
    ensures ReadDatagram(data, false).Some? ==> Kept(0x30, ReadDatagram(data, false).value.0)
    ensures ReadKnob(data).Some? ==> Kept(0x1550, ReadKnob(data).value.0)
    ensures ReadApplicationClose(data).Some? ==> Kept(0x1D, ReadApplicationClose(data).value.0)
  {
    hide ReadInts, IsSuffix, ReadBytes;
  }

  lemma NewConnectionIdKept(data: seq<byte>)
    ensures ReadNewConnectionId(data).Some? ==> Kept(0x18, ReadNewConnectionId(data).value.0)
  {
    hide ReadInts, IsSuffix;
  }

  lemma PathKept(data: seq<byte>)
    ensures ReadPath(data, true).Some? ==> Kept(0x1A, ReadPath(data, true).value.0)
    ensures ReadPath(data, false).Some? ==> Kept(0x1B, ReadPath(data, false).value.0)
  {
    hide IsSuffix, BigEndian;
    if |data| >= 8 {
      ReadWrite(data[..8]);
      assert Pow256(8) == TWO_TO_64 by { assert Pow256(4) == 0x1_0000_0000; }
    }
  }

  /** An integer read from one byte is below sixty-four. */
  lemma OneByteInt(data: seq<byte>)
    requires ReadInts(data, 1).Some? && |data| - |ReadInts(data, 1).value.1| == 1
    ensures ReadInts(data, 1).value.0[0] <= 63
  {
    assert ReadInts(ReadInt(data).value.1, 0).Some?;
  }

  lemma ConnectionCloseKept(data: seq<byte>)
    ensures ReadConnectionClose(data).Some? ==> Kept(0x1C, ReadConnectionClose(data).value.0)
  {
    hide ReadInts, IsSuffix, ReadAtMost;
    if ReadConnectionClose(data).Some? { OneByteInt(ReadInts(data, 1).value.1); }
  }

  /** Nothing malformed is read: for any bytes, a frame that is read keeps the limits on its fields. */
  lemma ReadIsKept(t: nat, data: seq<byte>, p: Params)
    ensures ReadOther(t, data, p).Some? ==> Kept(t, ReadOther(t, data, p).value.0)
  {
    hide ReadPlain, ReadConnectionClose, ReadApplicationClose, ReadNewConnectionId, ReadPath, ReadCrypto, ReadNewToken;
    hide ReadDatagram, ReadKnob, ReadAck, ReadStream, IsSuffix, Kept;
    if IntCount(t).Some? {
      PlainKept(t, data);
    } else if IsStream(t) || IsGroupStream(t) {
      NotSimple(t, data, p);
    } else {
      BytesKept(data, p);
      NewConnectionIdKept(data);
      PathKept(data);
      ConnectionCloseKept(data);
      NotSimple(t, data, p);
    }
  }

  lemma NotSimple(t: nat, data: seq<byte>, p: Params)
    ensures ReadStream(t, data).Some? ==> Kept(t, ReadStream(t, data).value.0)
    ensures ReadAck(t, data, p).Some? ==> Kept(t, ReadAck(t, data, p).value.0)
  {
    hide ReadFrame, ReadInts, ReadEcn, ReadTimestamps, IsSuffix, Within;
  }

  /** A close frame that names an extension frame as its cause is written, and refused by the peer. */
  lemma CloseNamingExtensionIsRefused(p: Params)
    ensures var f := ConnectionClose(7, 0xAF, []);
            WriteFrame(f, 100).Written? && ReadOther(TypeOf(f), EncAll(IntsOf(f)) + TailOf(f) + [], p).None?
  {
    var f := ConnectionClose(7, 0xAF, []);
    WrittenExactly(f, 100);
    FrameTravels(f, [], p);
    hide EncAll, ReadOther;
    SizesAreLengths([7, 0xAF, 0]);
    assert [7, 0xAF, 0][1..] == [0xAF, 0] && [0xAF, 0][1..] == [0];
  }

  // ------------------------------------------------------------------ a packet of frames

  /** What a builder puts into a packet. */
  datatype Item =
    | PaddingItem
    | FrameItem(frame: QuicFrame)
    | AckItem(blocks: seq<Outstanding.Block>, delay: nat)
    | StreamItem(request: StreamFrames.Request, data: seq<byte>, fin: bool, hasLength: bool)

  /** An item that can be written, and that the peer's reader takes; only the last may leave out its length. */
  ghost predicate ItemOk(item: Item, last: bool, p: Params) {
    match item
    case PaddingItem => true
    case FrameItem(f) => Simple(f) && Typed(f) && AllFit(IntsOf(f)) && Acceptable(f)
    case AckItem(blocks, delay) => AckWriter.Encodable(blocks, delay) && ConvertDelay(p.AckExponent(), delay).Some?
    case StreamItem(q, data, _, hasLength) =>
      && StreamFrames.Encodes(q) && q.offset <= EIGHT_BYTE_LIMIT && |data| <= EIGHT_BYTE_LIMIT
      && (hasLength || (last && q.group.None?))
  }

  function ItemBytes(item: Item, last: bool, p: Params): seq<byte>
    requires ItemOk(item, last, p)
  {
    match item
    case PaddingItem => [0]
    case FrameItem(f) => Layout(f)
    case AckItem(blocks, delay) => AckWriter.Enc(ACK_TYPE) + AckWriter.EncodeFields(blocks, delay)
    case StreamItem(q, data, fin, hasLength) => StreamFrames.HeaderBytes(q, |data|, fin, hasLength) + data
  }

  /** What the peer is to make of it. */
  function ItemFrame(item: Item, last: bool, p: Params): Frame
    requires ItemOk(item, last, p)
  {
    match item
    case PaddingItem => Padding(1)
    case FrameItem(f) => Other(f)
    case AckItem(blocks, delay) =>
      Other(Ack(ACK_TYPE, ReadAckFrame(blocks[0].end, Believed(ConvertDelay(p.AckExponent(), delay).value), blocks), None, None))
    case StreamItem(q, data, fin, _) => Other(Stream(StreamFrames.StreamFrame(q.id, q.group, q.offset, data, fin)))
  }

  lemma TypeThen(t: nat, body: seq<byte>, p: Params)
    requires 0 < t <= EIGHT_BYTE_LIMIT
    ensures ParseFrame(AckWriter.Enc(t) + body, p, false) ==
            (var f := ReadOther(t, body, p); if f.None? then None else Some((Other(f.value.0), f.value.1)))
  {
    hide ReadInt, AckWriter.Enc, ReadOther;
    AckWriter.ReadEnc(t, body);
  }

  lemma AckTravels(blocks: seq<Outstanding.Block>, delay: nat, rest: seq<byte>, p: Params)
    requires AckWriter.Encodable(blocks, delay) && ConvertDelay(p.AckExponent(), delay).Some?
    ensures ReadOther(ACK_TYPE, AckWriter.EncodeFields(blocks, delay) + rest, p) ==
            Some((Ack(ACK_TYPE, ReadAckFrame(blocks[0].end, Believed(ConvertDelay(p.AckExponent(), delay).value), blocks), None, None), rest))
  {
    hide ReadFrame, AckWriter.EncodeFields, AckWriter.Encodable, IsSuffix, ConvertDelay;
    AckWriter.FrameTravels(blocks, delay, p.AckExponent(), rest);
  }

  lemma StreamParsed(data: seq<byte>, p: Params)
    requires StreamFrames.Decode(data).Some?
    ensures ParseFrame(data, p, false) == Some((Other(Stream(StreamFrames.Decode(data).value.0)), StreamFrames.Decode(data).value.1))
  {
    hide ReadInt, StreamFrames.DecodeBody, IsSuffix;
    var t := ReadInt(data).value.0;
    assert IntCount(t).None?;
  }

  lemma FrameItemTravels(f: QuicFrame, rest: seq<byte>, p: Params)
    requires Simple(f) && Typed(f) && AllFit(IntsOf(f)) && Acceptable(f)
    ensures Layout(f) != [] && ParseFrame(Layout(f) + rest, p, false) == Some((Other(f), rest))
  {
    hide ReadOther, EncAll, IntsOf, TailOf, TypeOf, ParseFrame, AckWriter.Enc, Typed, Acceptable, AllFit;
    TypeIsNotPadding(f);
    FrameTravels(f, rest, p);
    var body := EncAll(IntsOf(f)) + TailOf(f);
    TypeInFront(AckWriter.Enc(TypeOf(f)), body, rest);
    TypeThen(TypeOf(f), body + rest, p);
  }

  lemma TypeIsNotPadding(f: QuicFrame)
    requires Simple(f)
    ensures 0 < TypeOf(f)
  {
  }

  lemma TypeInFront(t: seq<byte>, body: seq<byte>, rest: seq<byte>)
    ensures t + body + rest == t + (body + rest) && (t != [] ==> t + body != [])
  {
  }

  lemma AckItemTravels(blocks: seq<Outstanding.Block>, delay: nat, rest: seq<byte>, p: Params)
    requires AckWriter.Encodable(blocks, delay) && ConvertDelay(p.AckExponent(), delay).Some?
    ensures var item := AckItem(blocks, delay);
            ItemBytes(item, false, p) != [] && ParseFrame(ItemBytes(item, false, p) + rest, p, false) == Some((ItemFrame(item, false, p), rest))
  {
    hide ReadOther, AckWriter.EncodeFields, AckWriter.Encodable, ParseFrame, AckWriter.Enc;
    var body := AckWriter.EncodeFields(blocks, delay);
    AckTravels(blocks, delay, rest, p);
    assert AckWriter.Enc(ACK_TYPE) + body + rest == AckWriter.Enc(ACK_TYPE) + (body + rest);
    TypeThen(ACK_TYPE, body + rest, p);
  }

  lemma StreamItemTravels(q: StreamFrames.Request, data: seq<byte>, fin: bool, hasLength: bool, rest: seq<byte>, p: Params)
    requires StreamFrames.Encodes(q) && q.offset <= EIGHT_BYTE_LIMIT && |data| <= EIGHT_BYTE_LIMIT
    requires hasLength || (rest == [] && q.group.None?)
    ensures var bytes := StreamFrames.HeaderBytes(q, |data|, fin, hasLength) + data;
            bytes != [] && ParseFrame(bytes + rest, p, false) ==
                           Some((Other(Stream(StreamFrames.StreamFrame(q.id, q.group, q.offset, data, fin))), rest))
  {
    hide StreamFrames.HeaderBytes, StreamFrames.Decode, ParseFrame;
    var header := StreamFrames.HeaderBytes(q, |data|, fin, hasLength);
    StreamFrames.HeaderLength(q, |data|, fin, hasLength);
    StreamFrames.RoundTrip(q, data, fin, hasLength, rest);
    assert header + data + rest == header + (data + rest);
    StreamParsed(header + (data + rest), p);
  }

  /** Each item is read back as its frame, whatever the packet holds behind it. */
  lemma ItemTravels(item: Item, last: bool, rest: seq<byte>, p: Params)
    requires ItemOk(item, last, p) && (last ==> rest == [])
    ensures ItemBytes(item, last, p) != []
    ensures ParseFrame(ItemBytes(item, last, p) + rest, p, false) == Some((ItemFrame(item, last, p), rest))
  {
    match item
    case PaddingItem =>
      ZeroByte([0] + rest);
      assert ([0] + rest)[1..] == rest;
      hide ReadInt;
    case FrameItem(f) =>
      hide Layout, ParseFrame, Acceptable, Typed, IntsOf;
      FrameItemTravels(f, rest, p);
    case AckItem(blocks, delay) =>
      hide ParseFrame, AckWriter.EncodeFields, AckWriter.Encodable;
      AckItemTravels(blocks, delay, rest, p);
    case StreamItem(q, data, fin, hasLength) =>
      hide ParseFrame, StreamFrames.HeaderBytes;
      StreamItemTravels(q, data, fin, hasLength, rest, p);
  }

  ghost predicate AllOk(items: seq<Item>, p: Params) {
    forall k :: 0 <= k < |items| ==> ItemOk(items[k], k == |items| - 1, p)
  }

  ghost function Tiles(items: seq<Item>, p: Params): (r: seq<Tile>)
    requires AllOk(items, p)
    ensures |r| == |items|
    ensures forall k :: 0 <= k < |items| ==>
              r[k] == Tile(ItemFrame(items[k], k == |items| - 1, p), ItemBytes(items[k], k == |items| - 1, p))
  {
    seq(|items|, k requires 0 <= k < |items| =>
      Tile(ItemFrame(items[k], k == |items| - 1, p), ItemBytes(items[k], k == |items| - 1, p)))
  }

  /**
   Any packet of acceptable frames is read back frame by frame: the slow reader finds exactly the frames
   that were written, neighbouring padding counted together, and the reader with the shortcut the same
   frames up to those counts.
   */
  lemma PacketTravels(items: seq<Item>, p: Params)
    requires AllOk(items, p)
    ensures var data := Bytes(Tiles(items, p));
            && Frames(data, p, false, []) == Some(PushAll([], Tiles(items, p)))
            && Frames(data, p, true, []).Some? && Alike(Frames(data, p, true, []).value, PushAll([], Tiles(items, p)))
  {
    hide ItemOk, ItemBytes, ItemFrame, ParseFrame, Push, Alike;
    var tiles := Tiles(items, p);
    forall k | 0 <= k < |tiles| ensures Fits(tiles, k, p, false) {
      var last := k == |items| - 1;
      var rest := Bytes(tiles[k + 1..]);
      ItemTravels(items[k], last, rest, p);
      assert tiles[k..][0] == tiles[k] && tiles[k..][1..] == tiles[k + 1..];
    }
    TilesAreRead(tiles, p, false, []);
    AlikeEmpty();
    ShortcutIsHarmless(Bytes(tiles), p, [], []);
  }

  lemma AlikeEmpty()
    ensures Alike([], [])
  {
  }
}
