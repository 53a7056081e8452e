/**
 Reading one frame (quic/codec/Decode.cpp): the switch of `parseFrame` with the decoder of every
 frame type but PADDING, which the packet loop handles. Every error is a frame encoding error, so a
 refusal is just `None`. Section 19 of RFC 9000, with the extension frames of the transport.
 */
module FrameReaders {
  import opened Prelude
  import opened Varint
  import opened AckFrames
  import StreamFrames

  const MAX_MAX_STREAMS: nat := 0x1000_0000_0000_0000
  const MAX_CONNECTION_ID_SIZE: nat := 20
  const RESET_TOKEN_LENGTH: nat := 16
  const MAX_REASON_PHRASE_LENGTH: nat := 1024
  const DEFAULT_EXPONENT: nat := 3

  /** The header form and the parameters of the codec that decoding depends on. */
  datatype Params = Params(longHeader: bool, peerAckDelayExponent: nat, timestampsExponent: Option<nat>, features: nat) {
    /** Long headers use the default exponent. */
    function AckExponent(): nat { if longHeader then DEFAULT_EXPONENT else peerAckDelayExponent }

    /** The configured exponent goes through an unsigned byte. */
    function TimestampsExponent(): nat { if timestampsExponent.Some? then timestampsExponent.value % 256 else DEFAULT_EXPONENT }
  }

  datatype Ecn = Ecn(ect0: nat, ect1: nat, ce: nat)

  datatype TimestampRange = TimestampRange(gap: nat, count: nat, deltas: seq<nat>)

  datatype Timestamps = Timestamps(latestNum: nat, latestTime: nat, ranges: seq<TimestampRange>)

  datatype QuicFrame =
    | Ping
    | Ack(frameType: nat, ack: ReadAckFrame, ecn: Option<Ecn>, timestamps: Option<Timestamps>)
    | RstStream(id: nat, error: nat, finalSize: nat, reliableSize: Option<nat>)
    | StopSending(id: nat, error: nat)
    | Crypto(offset: nat, data: seq<byte>)
    | NewToken(token: seq<byte>)
    | Stream(frame: StreamFrames.StreamFrame)
    | MaxData(limit: nat)
    | MaxStreamData(id: nat, limit: nat)
    | MaxStreams(limit: nat, bidirectional: bool)
    | DataBlocked(limit: nat)
    | StreamDataBlocked(id: nat, limit: nat)
    | StreamsBlocked(limit: nat, bidirectional: bool)
    | NewConnectionId(sequence: nat, retirePriorTo: nat, connectionId: seq<byte>, token: seq<byte>)
    | RetireConnectionId(sequence: nat)
    | PathChallenge(pathData: nat)
    | PathResponse(pathData: nat)
    | ConnectionClose(error: nat, closingFrameType: nat, reason: seq<byte>)
    | ApplicationClose(error: nat, reason: seq<byte>)
    | HandshakeDone
    | Datagram(data: seq<byte>)
    | Knob(space: nat, id: nat, blob: seq<byte>)
    | AckFrequency(sequence: nat, packetTolerance: nat, updateMaxAckDelay: nat, reorderThreshold: nat)
    | ImmediateAck

  // ------------------------------------------------------------------ bytes off the front

  ghost predicate IsSuffix(s: seq<byte>, d: seq<byte>) { |s| <= |d| && d[|d| - |s|..] == s }

  lemma SuffixTrans(a: seq<byte>, b: seq<byte>, c: seq<byte>)
    requires IsSuffix(a, b) && IsSuffix(b, c)
    ensures IsSuffix(a, c)
  {
    assert c[|c| - |a|..] == c[|c| - |b|..][|b| - |a|..];
  }

  lemma DropSuffix(d: seq<byte>, n: nat)
    requires n <= |d|
    ensures IsSuffix(d[n..], d)
  {
  }

  lemma IntSuffix(data: seq<byte>)
    ensures ReadInt(data).Some? ==> IsSuffix(ReadInt(data).value.1, data)
  {
  }

  /** `n` integers. */
  function ReadInts(data: seq<byte>, n: nat): (r: Option<(seq<nat>, seq<byte>)>)
    ensures r.Some? ==> |r.value.0| == n && IsSuffix(r.value.1, data)
    decreases n
  {
    if n == 0 then Some(([], data))
    else
      var x := ReadInt(data);
      if x.None? then None
      else
        var more := ReadInts(x.value.1, n - 1);
        if more.None? then None
        else
          SuffixTrans(more.value.1, x.value.1, data);
          Some(([x.value.0] + more.value.0, more.value.1))
  }

  /** `n` bytes, or nothing if there are fewer. */
  function ReadBytes(data: seq<byte>, n: nat): (r: Option<(seq<byte>, seq<byte>)>)
    ensures r.Some? <==> n <= |data|
    ensures r.Some? ==> r.value.0 + r.value.1 == data && |r.value.0| == n && IsSuffix(r.value.1, data)
  {
    if |data| < n then None else Some((data[..n], data[n..]))
  }

  /** `n` bytes, or all if there are fewer. */
  function ReadAtMost(data: seq<byte>, n: nat): (r: (seq<byte>, seq<byte>))
    ensures r.0 + r.1 == data && |r.0| == Min(n, |data|) && IsSuffix(r.1, data)
  {
    (data[..Min(n, |data|)], data[Min(n, |data|)..])
  }

  // ------------------------------------------------------------------ frames of integers only

  /** How many integers such a frame holds. */
  function IntCount(t: nat): (r: Option<nat>) {
    match t
    case 0x01 => Some(0)
    case 0x04 => Some(3)
    case 0x05 => Some(2)
    case 0x10 => Some(1)
    case 0x11 => Some(2)
    case 0x12 => Some(1)
    case 0x13 => Some(1)
    case 0x14 => Some(1)
    case 0x15 => Some(2)
    case 0x16 => Some(1)
    case 0x17 => Some(1)
    case 0x19 => Some(1)
    case 0x1E => Some(0)
    case 0x24 => Some(4)
    case 0xAC => Some(0)
    case 0xAF => Some(4)
    case _ => None
  }

  /** The frame made of them; a stream limit too large, or a reliable size above the final one, is refused. */
  function FromInts(t: nat, v: seq<nat>): (r: Option<QuicFrame>)
    requires IntCount(t) == Some(|v|)
  {
    match t
    case 0x01 => Some(Ping)
    case 0x04 => Some(RstStream(v[0], v[1], v[2], None))
    case 0x05 => Some(StopSending(v[0], v[1]))
    case 0x10 => Some(MaxData(v[0]))
    case 0x11 => Some(MaxStreamData(v[0], v[1]))
    case 0x12 => if v[0] > MAX_MAX_STREAMS then None else Some(MaxStreams(v[0], true))
    case 0x13 => if v[0] > MAX_MAX_STREAMS then None else Some(MaxStreams(v[0], false))
    case 0x14 => Some(DataBlocked(v[0]))
    case 0x15 => Some(StreamDataBlocked(v[0], v[1]))
    case 0x16 => Some(StreamsBlocked(v[0], true))
    case 0x17 => Some(StreamsBlocked(v[0], false))
    case 0x19 => Some(RetireConnectionId(v[0]))
    case 0x1E => Some(HandshakeDone)
    case 0x24 => if v[3] > v[2] then None else Some(RstStream(v[0], v[1], v[2], Some(v[3])))
    case 0xAC => Some(ImmediateAck)
    case 0xAF => Some(AckFrequency(v[0], v[1], v[2], v[3]))
  }

  function ReadPlain(t: nat, data: seq<byte>): (r: Option<(QuicFrame, seq<byte>)>)
    requires IntCount(t).Some?
    ensures r.Some? ==> IsSuffix(r.value.1, data)
  {
    var v := ReadInts(data, IntCount(t).value);
    if v.None? || FromInts(t, v.value.0).None? then None else Some((FromInts(t, v.value.0).value, v.value.1))
  }

  // ------------------------------------------------------------------ frames with bytes in them

  /** `decodeCryptoFrame` */
  function ReadCrypto(data: seq<byte>): (r: Option<(QuicFrame, seq<byte>)>)
    ensures r.Some? ==> IsSuffix(r.value.1, data)
  {
    var v := ReadInts(data, 2);
    if v.None? then None
    else
      var b := ReadBytes(v.value.1, v.value.0[1]);
      if b.None? then None
      else
        SuffixTrans(b.value.1, v.value.1, data);
        Some((Crypto(v.value.0[0], b.value.0), b.value.1))
  }

  /** `decodeNewTokenFrame` */
  function ReadNewToken(data: seq<byte>): (r: Option<(QuicFrame, seq<byte>)>)
    ensures r.Some? ==> IsSuffix(r.value.1, data)
  {
    var v := ReadInts(data, 1);
    if v.None? then None
    else
      var b := ReadBytes(v.value.1, v.value.0[0]);
      if b.None? then None
      else
        SuffixTrans(b.value.1, v.value.1, data);
        Some((NewToken(b.value.0), b.value.1))
  }

  /** `decodeNewConnectionIdFrame`: a length byte, the connection id, the reset token. */
  function ReadNewConnectionId(data: seq<byte>): (r: Option<(QuicFrame, seq<byte>)>)
    ensures r.Some? ==> IsSuffix(r.value.1, data)
  {
    var v := ReadInts(data, 2);
    if v.None? then None
    else
      var id := ReadConnectionId(v.value.1);
      if id.None? then None
      else
        var token := ReadBytes(id.value.1, RESET_TOKEN_LENGTH);
        if token.None? then None
        else
          SuffixTrans(token.value.1, id.value.1, v.value.1);
          SuffixTrans(token.value.1, v.value.1, data);
          Some((NewConnectionId(v.value.0[0], v.value.0[1], id.value.0, token.value.0), token.value.1))
  }

  function ReadConnectionId(data: seq<byte>): (r: Option<(seq<byte>, seq<byte>)>)
    ensures r.Some? ==> IsSuffix(r.value.1, data)
  {
    if data == [] then None
    else
      var id := ReadBytes(data[1..], data[0] as nat);
      if id.None? || data[0] as nat > MAX_CONNECTION_ID_SIZE then None
      else
        SuffixTrans(id.value.1, data[1..], data);
        id
  }

  /** `decodePathChallengeFrame` and `decodePathResponseFrame`: a word in network order. */
  function ReadPath(data: seq<byte>, challenge: bool): (r: Option<(QuicFrame, seq<byte>)>)
    ensures r.Some? ==> IsSuffix(r.value.1, data)
  {
    var b := ReadBytes(data, 8);
    if b.None? then None
    else
      var word := BigEndian(b.value.0);
      Some((if challenge then PathChallenge(word) else PathResponse(word), b.value.1))
  }

  /** `decodeConnectionCloseFrame`: the closing frame type takes one byte, and a reason cut short is taken as it is. */
  function ReadConnectionClose(data: seq<byte>): (r: Option<(QuicFrame, seq<byte>)>)
    ensures r.Some? ==> IsSuffix(r.value.1, data)
  {
    var v := ReadInts(data, 1);
    if v.None? then None
    else
      var w := ReadInts(v.value.1, 1);
      if w.None? || |v.value.1| - |w.value.1| != 1 then None
      else
        var reason := ReadReason(w.value.1);
        if reason.None? then None
        else
          SuffixTrans(reason.value.1, w.value.1, v.value.1);
          SuffixTrans(reason.value.1, v.value.1, data);
          Some((ConnectionClose(v.value.0[0], w.value.0[0], reason.value.0), reason.value.1))
  }

  /** `decodeApplicationClose` */
  function ReadApplicationClose(data: seq<byte>): (r: Option<(QuicFrame, seq<byte>)>)
    ensures r.Some? ==> IsSuffix(r.value.1, data)
  {
    var v := ReadInts(data, 1);
    if v.None? then None
    else
      var reason := ReadReason(v.value.1);
      if reason.None? then None
      else
        SuffixTrans(reason.value.1, v.value.1, data);
        Some((ApplicationClose(v.value.0[0], reason.value.0), reason.value.1))
  }

  function ReadReason(data: seq<byte>): (r: Option<(seq<byte>, seq<byte>)>)
    ensures r.Some? ==> IsSuffix(r.value.1, data)
  {
    var v := ReadInts(data, 1);
    if v.None? || v.value.0[0] > MAX_REASON_PHRASE_LENGTH then None
    else
      var b := ReadAtMost(v.value.1, v.value.0[0]);
      SuffixTrans(b.1, v.value.1, data);
      Some(b)
  }

  /** `decodeDatagramFrame` */
  function ReadDatagram(data: seq<byte>, hasLength: bool): (r: Option<(QuicFrame, seq<byte>)>)
    ensures r.Some? ==> IsSuffix(r.value.1, data)
  {
    if !hasLength then Some((Datagram(data), []))
    else
      var v := ReadInts(data, 1);
      if v.None? then None
      else
        var b := ReadBytes(v.value.1, v.value.0[0]);
        if b.None? then None
        else
          SuffixTrans(b.value.1, v.value.1, data);
          Some((Datagram(b.value.0), b.value.1))
  }

  /** `decodeKnobFrame`: a blob cut short is taken as it is. */
  function ReadKnob(data: seq<byte>): (r: Option<(QuicFrame, seq<byte>)>)
    ensures r.Some? ==> IsSuffix(r.value.1, data)
  {
    var v := ReadInts(data, 3);
    if v.None? then None
    else
      var b := ReadAtMost(v.value.1, v.value.0[2]);
      SuffixTrans(b.1, v.value.1, data);
      Some((Knob(v.value.0[0], v.value.0[1], b.0), b.1))
  }

  // ------------------------------------------------------------------ acknowledgements

  /** `decodeEcnCountsInAck` */
  function ReadEcn(data: seq<byte>): (r: Option<(Ecn, seq<byte>)>)
    ensures r.Some? ==> IsSuffix(r.value.1, data)
  {
    var v := ReadInts(data, 3);
    if v.None? then None else Some((Ecn(v.value.0[0], v.value.0[1], v.value.0[2]), v.value.1))
  }

  /** The deltas of one range, each converted to microseconds. */
  function ReadDeltas(data: seq<byte>, n: nat, exponent: nat): (r: Option<(seq<nat>, seq<byte>)>)
    ensures r.Some? ==> IsSuffix(r.value.1, data)
    decreases n
  {
    if n == 0 then Some(([], data))
    else
      var x := ReadInt(data);
      if x.None? || ConvertDelay(exponent, x.value.0).None? then None
      else
        var more := ReadDeltas(x.value.1, n - 1, exponent);
        if more.None? then None
        else
          SuffixTrans(more.value.1, x.value.1, data);
          Some(([ConvertDelay(exponent, x.value.0).value] + more.value.0, more.value.1))
  }

  function ReadRange(data: seq<byte>, exponent: nat): (r: Option<(TimestampRange, seq<byte>)>)
    ensures r.Some? ==> IsSuffix(r.value.1, data)
  {
    var v := ReadInts(data, 2);
    if v.None? then None
    else
      var d := ReadDeltas(v.value.1, v.value.0[1], exponent);
      if d.None? then None
      else
        SuffixTrans(d.value.1, v.value.1, data);
        Some((TimestampRange(v.value.0[0], v.value.0[1], d.value.0), d.value.1))
  }

  function ReadRanges(data: seq<byte>, n: nat, exponent: nat): (r: Option<(seq<TimestampRange>, seq<byte>)>)
    ensures r.Some? ==> IsSuffix(r.value.1, data)
    decreases n
  {
    if n == 0 then Some(([], data))
    else
      var x := ReadRange(data, exponent);
      if x.None? then None
      else
        var more := ReadRanges(x.value.1, n - 1, exponent);
        if more.None? then None
        else
          SuffixTrans(more.value.1, x.value.1, data);
          Some(([x.value.0] + more.value.0, more.value.1))
  }

  /** `decodeReceiveTimestampsInAck` */
  function ReadTimestamps(data: seq<byte>, exponent: nat): (r: Option<(Timestamps, seq<byte>)>)
    ensures r.Some? ==> IsSuffix(r.value.1, data)
  {
    var v := ReadInts(data, 3);
    if v.None? then None
    else
      var ranges := ReadRanges(v.value.1, v.value.0[2], exponent);
      if ranges.None? then None
      else
        SuffixTrans(ranges.value.1, v.value.1, data);
        Some((Timestamps(v.value.0[0], v.value.0[1], ranges.value.0), ranges.value.1))
  }

  /** The inner loop over the deltas of a range. */
  method DecodeDeltas(data: seq<byte>, count: nat, exponent: nat) returns (r: Option<(seq<nat>, seq<byte>)>)
    ensures r == ReadDeltas(data, count, exponent)
  {
    hide ReadInt, ConvertDelay, IsSuffix;
    var rest, deltas: seq<nat>, i: nat := data, [], 0;
    ghost var all := ReadDeltas(data, count, exponent);
    assert all.Some? ==> [] + all.value.0 == all.value.0;
    while i < count
      invariant i <= count
      invariant all == ReadDeltas(data, count, exponent) ==
                (var more := ReadDeltas(rest, count - i, exponent);
                 if more.None? then None else Some((deltas + more.value.0, more.value.1)))
    {
      var delta := ReadInt(rest);
      if delta.None? {
        return None;
      }
      var adjusted := ConvertDelay(exponent, delta.value.0);
      if adjusted.None? {
        return None;
      }
      ghost var next := ReadDeltas(delta.value.1, count - i - 1, exponent);
      assert next.Some? ==> deltas + ([adjusted.value] + next.value.0) == deltas + [adjusted.value] + next.value.0;
      deltas, rest, i := deltas + [adjusted.value], delta.value.1, i + 1;
    }
    assert deltas + [] == deltas;
    r := Some((deltas, rest));
  }

  /** The outer loop over the ranges. */
  method DecodeRanges(data: seq<byte>, count: nat, exponent: nat) returns (r: Option<(seq<TimestampRange>, seq<byte>)>)
    ensures r == ReadRanges(data, count, exponent)
  {
    hide ReadInts, ReadDeltas, IsSuffix;
    var rest, ranges: seq<TimestampRange>, numRanges: nat := data, [], 0;
    ghost var all := ReadRanges(data, count, exponent);
    assert all.Some? ==> [] + all.value.0 == all.value.0;
    while numRanges < count
      invariant numRanges <= count
      invariant all == ReadRanges(data, count, exponent) ==
                (var more := ReadRanges(rest, count - numRanges, exponent);
                 if more.None? then None else Some((ranges + more.value.0, more.value.1)))
    {
      var head := ReadInts(rest, 2);
      if head.None? {
        return None;
      }
      var (gap, len) := (head.value.0[0], head.value.0[1]);
      var deltas := DecodeDeltas(head.value.1, len, exponent);
      if deltas.None? {
        return None;
      }
      var range := TimestampRange(gap, len, deltas.value.0);
      assert ReadRange(rest, exponent) == Some((range, deltas.value.1));
      ghost var next := ReadRanges(deltas.value.1, count - numRanges - 1, exponent);
      assert next.Some? ==> ranges + ([range] + next.value.0) == ranges + [range] + next.value.0;
      ranges, rest, numRanges := ranges + [range], deltas.value.1, numRanges + 1;
    }
    assert ranges + [] == ranges;
    r := Some((ranges, rest));
  }

  /** The deltas are read exactly when the integers are all there and every one of them converts; each is converted in its place. */
  lemma {:induction false} DeltasExact(data: seq<byte>, n: nat, exponent: nat)
    ensures ReadDeltas(data, n, exponent).Some? <==>
            ReadInts(data, n).Some? && forall i :: 0 <= i < n ==> ConvertDelay(exponent, ReadInts(data, n).value.0[i]).Some?
    ensures ReadDeltas(data, n, exponent).Some? ==>
              var (deltas, ints) := (ReadDeltas(data, n, exponent).value.0, ReadInts(data, n).value.0);
              && |deltas| == n && ReadDeltas(data, n, exponent).value.1 == ReadInts(data, n).value.1
              && forall i :: 0 <= i < n ==> ConvertDelay(exponent, ints[i]) == Some(deltas[i])
    decreases n
  {
    hide ReadInt, ConvertDelay, IsSuffix;
    if n > 0 && ReadInt(data).Some? {
      var (x, rest) := ReadInt(data).value;
      DeltasExact(rest, n - 1, exponent);
      if ReadInts(rest, n - 1).Some? {
        var (ints, more) := (ReadInts(data, n).value.0, ReadInts(rest, n - 1).value.0);
        assert ints[0] == x && forall i :: 0 < i < n ==> ints[i] == more[i - 1];
        assert forall i :: 0 <= i < n - 1 ==> more[i] == ints[i + 1];
      }
    }
  }

  /** Every bit of `features` is set in `allowed`. */
  predicate Within(features: nat, allowed: nat)
    decreases features
  {
    features == 0 || (features % 2 <= allowed % 2 && Within(features / 2, allowed / 2))
  }

  /** Bit `k` of a word, the lowest first. */
  predicate Bit(n: nat, k: nat)
    decreases k
  {
    if k == 0 then n % 2 == 1 else Bit(n / 2, k - 1)
  }

  ghost predicate AllBits(features: nat, allowed: nat) { forall k: nat :: Bit(features, k) ==> Bit(allowed, k) }

  /** Features are within what was agreed on exactly when every bit of them is. */
  lemma {:induction false} WithinExactly(features: nat, allowed: nat)
    ensures Within(features, allowed) <==> AllBits(features, allowed)
    decreases features
  {
    if features == 0 {
      forall k: nat ensures !Bit(0, k) { NoBits(k); }
    } else {
      WithinExactly(features / 2, allowed / 2);
      BitsByHalf(features, allowed);
      hide AllBits;
    }
  }

  lemma BitsByHalf(features: nat, allowed: nat)
    ensures AllBits(features, allowed) <==> features % 2 <= allowed % 2 && AllBits(features / 2, allowed / 2)
  {
    if AllBits(features, allowed) {
      assert Bit(features, 0) ==> Bit(allowed, 0);
      forall k: nat | Bit(features / 2, k) ensures Bit(allowed / 2, k) { assert Bit(features, k + 1) && Bit(allowed, k + 1); }
    }
    if features % 2 <= allowed % 2 && AllBits(features / 2, allowed / 2) {
      forall k: nat | Bit(features, k) ensures Bit(allowed, k) {
        if k > 0 { assert Bit(features / 2, k - 1) && Bit(allowed / 2, k - 1); }
      }
    }
  }

  lemma {:induction false} NoBits(k: nat)
    ensures !Bit(0, k)
    decreases k
  {
    if k > 0 { NoBits(k - 1); }
  }

  lemma {:induction false} BlocksSuffix(data: seq<byte>, n: nat, current: nat)
    ensures ReadBlocks(data, n, current).Some? ==> IsSuffix(ReadBlocks(data, n, current).value.1, data)
    decreases n
  {
    hide ReadInt, IsSuffix;
    if n == 0 {
      DropSuffix(data, 0);
      assert data[0..] == data;
    } else if ReadBlocks(data, n, current).Some? {
      var gap := ReadInt(data);
      var len := ReadInt(gap.value.1);
      IntSuffix(data);
      IntSuffix(gap.value.1);
      var b := ReadBlock(data, current).value;
      assert b.1 == len.value.1;
      SuffixTrans(len.value.1, gap.value.1, data);
      BlocksSuffix(b.1, n - 1, b.0.start);
      SuffixTrans(ReadBlocks(data, n, current).value.1, b.1, data);
    }
  }

  lemma HeadSuffix(data: seq<byte>)
    requires ReadHead(data).Some?
    ensures IsSuffix(ReadHead(data).value.rest, data)
  {
    hide ReadInt, IsSuffix;
    IntSuffix(data);
    var a := ReadInt(data).value.1;
    IntSuffix(a);
    var b := ReadInt(a).value.1;
    IntSuffix(b);
    var c := ReadInt(b).value.1;
    IntSuffix(c);
    var d := ReadInt(c).value.1;
    SuffixTrans(b, a, data);
    SuffixTrans(c, b, data);
    SuffixTrans(d, c, data);
  }

  lemma FrameSuffix(data: seq<byte>, exponent: nat)
    requires ReadFrame(data, exponent).Some?
    ensures IsSuffix(ReadFrame(data, exponent).value.1, data)
  {
    hide ReadHead, ReadBlocks, ConvertDelay;
    HeadSuffix(data);
    var h := ReadHead(data).value;
    BlocksSuffix(h.rest, h.count, h.largestAcked - h.firstLen);
    SuffixTrans(ReadFrame(data, exponent).value.1, h.rest, data);
  }

  /**
   `decodeAckFrame`, `decodeAckFrameWithECN`, `decodeAckFrameWithReceivedTimestamps` and
   `decodeAckExtendedFrame`, which differ in what follows the blocks.
   */
  function ReadAck(t: nat, data: seq<byte>, p: Params): (r: Option<(QuicFrame, seq<byte>)>)
    ensures r.Some? ==> IsSuffix(r.value.1, data)
  {
    var ack := ReadFrame(data, p.AckExponent());
    if ack.None? then None
    else
      FrameSuffix(data, p.AckExponent());
      var rest := ack.value.1;
      if t == 0xB1 then
        var features := ReadInts(rest, 1);
        if features.None? || !Within(features.value.0[0], p.features) then None
        else
          SuffixTrans(features.value.1, rest, data);
          var x := features.value.0[0];
          ReadExtras(t, ack.value.0, data, features.value.1, x % 2 == 1, x / 2 % 2 == 1, p)
      else ReadExtras(t, ack.value.0, data, rest, t == 0x03, t == 0xB0, p)
  }

  /** The ECN counts and the timestamps, each if it is there; `data` is where the frame began. */
  function ReadExtras(t: nat, ack: ReadAckFrame, ghost data: seq<byte>, rest: seq<byte>, ecn: bool, timestamps: bool,
                      p: Params): (r: Option<(QuicFrame, seq<byte>)>)
    requires IsSuffix(rest, data)
    ensures r.Some? ==> IsSuffix(r.value.1, data)
  {
    var e := if !ecn then Some((None, rest)) else var x := ReadEcn(rest); if x.None? then None else Some((Some(x.value.0), x.value.1));
    if e.None? then None
    else
      SuffixTrans(e.value.1, rest, data);
      if !timestamps then Some((Ack(t, ack, e.value.0, None), e.value.1))
      else
        var s := ReadTimestamps(e.value.1, p.TimestampsExponent());
        if s.None? then None
        else
          SuffixTrans(s.value.1, e.value.1, data);
          Some((Ack(t, ack, e.value.0, Some(s.value.0)), s.value.1))
  }

  // ------------------------------------------------------------------ the switch

  predicate IsStream(t: nat) { StreamFrames.STREAM <= t <= StreamFrames.STREAM + 7 }

  predicate IsGroupStream(t: nat) { StreamFrames.GROUP_STREAM <= t <= StreamFrames.GROUP_STREAM + 7 }

  function ReadStream(t: nat, data: seq<byte>): (r: Option<(QuicFrame, seq<byte>)>)
    ensures r.Some? ==> IsSuffix(r.value.1, data)
  {
    var s := StreamFrames.DecodeBody(t, IsGroupStream(t), data);
    if s.None? then None
    else
      BodySuffix(t, IsGroupStream(t), data);
      Some((Stream(s.value.0), s.value.1))
  }

  lemma ReadIfSuffix(present: bool, data: seq<byte>, absent: nat)
    requires StreamFrames.ReadIf(present, data, absent).Some?
    ensures IsSuffix(StreamFrames.ReadIf(present, data, absent).value.1, data)
  {
    IntSuffix(data);
    hide ReadInt;
  }

  lemma BodySuffix(field: nat, isGroup: bool, data: seq<byte>)
    requires StreamFrames.DecodeBody(field, isGroup, data).Some?
    ensures IsSuffix(StreamFrames.DecodeBody(field, isGroup, data).value.1, data)
  {
    hide ReadInt, StreamFrames.HasBit;
    IntSuffix(data);
    var a := ReadInt(data).value.1;
    var b := StreamFrames.ReadIf(isGroup, a, 0).value.1;
    var c := StreamFrames.ReadIf(StreamFrames.HasBit(field, StreamFrames.OFFSET_BIT), b, 0).value.1;
    var (n, d) := StreamFrames.ReadIf(StreamFrames.HasBit(field, StreamFrames.LENGTH_BIT), c, |c|).value;
    ReadIfSuffix(isGroup, a, 0);
    ReadIfSuffix(StreamFrames.HasBit(field, StreamFrames.OFFSET_BIT), b, 0);
    ReadIfSuffix(StreamFrames.HasBit(field, StreamFrames.LENGTH_BIT), c, |c|);
    hide StreamFrames.ReadIf, IsSuffix;
    SuffixTrans(b, a, data);
    SuffixTrans(c, b, data);
    SuffixTrans(d, c, data);
    assert IsSuffix(d[n..], d) by { DropSuffix(d, n); }
    SuffixTrans(d[n..], d, data);
  }

  /** `parseFrame` for every type but padding: what is left is the end of what was there. */
  function ReadOther(t: nat, data: seq<byte>, p: Params): (r: Option<(QuicFrame, seq<byte>)>)
    ensures r.Some? ==> IsSuffix(r.value.1, data)
  {
    if IntCount(t).Some? then ReadPlain(t, data)
    else if IsStream(t) || IsGroupStream(t) then ReadStream(t, data)
    else
      match t
      case 0x02 => ReadAck(t, data, p)
      case 0x03 => ReadAck(t, data, p)
      case 0x06 => ReadCrypto(data)
      case 0x07 => ReadNewToken(data)
      case 0x18 => ReadNewConnectionId(data)
      case 0x1A => ReadPath(data, true)
      case 0x1B => ReadPath(data, false)
      case 0x1C => ReadConnectionClose(data)
      case 0x1D => ReadApplicationClose(data)
      case 0x30 => ReadDatagram(data, false)
      case 0x31 => ReadDatagram(data, true)
      case 0x1550 => ReadKnob(data)
      case 0xB0 => ReadAck(t, data, p)
      case 0xB1 => ReadAck(t, data, p)
      case _ => None
  }
}
