/**
 STREAM frames on the wire: `writeStreamFrameHeader` (quic/codec/QuicWriteCodec.cpp), the type
 field (quic/codec/Types.cpp) and `decodeStreamFrame` (quic/codec/Decode.cpp); section 19.8 of
 RFC 9000.
 */
module StreamFrames {
  import opened Prelude
  import opened Varint
  import opened AckFrames
  import opened AckWriter

  const STREAM: nat := 0x08
  const GROUP_STREAM: nat := 0x32
  const FIN_BIT: nat := 1
  const LENGTH_BIT: nat := 2
  const OFFSET_BIT: nat := 4

  /** Subtraction of unsigned 64-bit words. */
  function Sub64(a: nat, b: nat): nat { (a - b) % TWO_TO_64 }

  predicate HasBit(field: nat, bit: nat)
    requires bit > 0
  {
    field / bit % 2 == 1
  }

  /** Setting a bit, which may be set already. */
  function SetBit(field: nat, bit: nat): nat
    requires bit > 0
  {
    if HasBit(field, bit) then field else field + bit
  }

  /** The type field the builder makes. */
  function TypeField(group: bool, offset: bool, length: bool, fin: bool): (r: nat)
    ensures r <= ONE_BYTE_LIMIT
  {
    var f0 := if group then GROUP_STREAM else STREAM;
    var f1 := if offset then SetBit(f0, OFFSET_BIT) else f0;
    var f2 := if length then SetBit(f1, LENGTH_BIT) else f1;
    if fin then SetBit(f2, FIN_BIT) else f2
  }

  /** What to write: stream, group, offset, the bytes buffered, what flow control allows, and the end. */
  datatype Request = Request(id: nat, group: Option<nat>, offset: nat, bufferLen: nat, flowControlLen: nat, fin: bool)

  datatype Outcome =
    | NoFrame
    | Refused
    | Fatal
    | Header(bytes: seq<byte>, dataLen: nat, fin: bool, hasLength: bool)

  /** The bytes reserved for the length field. */
  function LengthLength(dataLen: nat): Option<nat> {
    if dataLen <= ONE_BYTE_LIMIT - 1 then Some(1)
    else if dataLen <= TWO_BYTE_LIMIT - 2 then Some(2)
    else if dataLen <= FOUR_BYTE_LIMIT - 4 then Some(4)
    else if dataLen <= EIGHT_BYTE_LIMIT - 8 then Some(8)
    else None
  }

  predicate Encodes(q: Request) {
    q.id <= EIGHT_BYTE_LIMIT && (q.group.Some? ==> q.group.value <= EIGHT_BYTE_LIMIT)
  }

  function BaseSize(q: Request): (r: nat)
    requires Encodes(q)
    ensures r <= 17
  {
    1 + Size(q.id).value + if q.group.Some? then Size(q.group.value).value else 0
  }

  function HeaderSize(q: Request): (r: nat)
    requires Encodes(q) && q.offset <= EIGHT_BYTE_LIMIT
    ensures BaseSize(q) <= r <= 25
  {
    BaseSize(q) + if q.offset != 0 then Size(q.offset).value else 0
  }

  /** The header's bytes; the length is written in its own shortest form. */
  function HeaderBytes(q: Request, dataLen: nat, fin: bool, hasLength: bool): seq<byte>
    requires Encodes(q) && q.offset <= EIGHT_BYTE_LIMIT && (hasLength ==> dataLen <= EIGHT_BYTE_LIMIT)
  {
    Enc(TypeField(q.group.Some?, q.offset != 0, hasLength, fin)) + (Enc(q.id) +
    ((if q.group.Some? then Enc(q.group.value) else []) +
     ((if q.offset != 0 then Enc(q.offset) else []) +
      (if hasLength then Enc(dataLen) else []))))
  }

  /** `writeStreamFrameHeader`; `remaining` is the space left in the packet. */
  function WriteHeader(q: Request, remaining: nat, skipLenHint: Option<bool>): (r: Outcome) {
    if remaining == 0 then NoFrame
    else if q.bufferLen == 0 && !q.fin then Refused
    else if !Encodes(q) then Refused
    else if remaining < BaseSize(q) then NoFrame
    else if q.offset > EIGHT_BYTE_LIMIT then Refused
    else
      var header := HeaderSize(q);
      var wanted := Min(q.bufferLen, q.flowControlLen);
      var skip := if skipLenHint.Some? then skipLenHint.value else wanted > 0 && wanted >= Sub64(remaining, header);
      Finish(q, remaining, header, Min(wanted, Sub64(remaining, header)), skip)
  }

  /** The second half, once the room for data and the length field are settled. */
  function Finish(q: Request, remaining: nat, header: nat, dataLen: nat, skip: bool): (r: Outcome)
    requires Encodes(q) && q.offset <= EIGHT_BYTE_LIMIT
  {
    if skip then Emit(q, remaining, header, dataLen, false)
    else if LengthLength(dataLen).None? then Fatal
    else
      var lengthLen := LengthLength(dataLen).value;
      if dataLen != 0 && header + lengthLen >= remaining then NoFrame
      else
        var header' := header + lengthLen;
        var dataLen' := if remaining < dataLen + header' then Sub64(remaining, header') else dataLen;
        Emit(q, remaining, header', dataLen', true)
  }

  function Emit(q: Request, remaining: nat, header: nat, dataLen: nat, hasLength: bool): (r: Outcome)
    requires Encodes(q) && q.offset <= EIGHT_BYTE_LIMIT
  {
    var fin := q.fin && dataLen == q.bufferLen;
    if dataLen == 0 && !fin then NoFrame
    else if remaining < header then NoFrame
    else if hasLength && dataLen > EIGHT_BYTE_LIMIT then Fatal
    else Header(HeaderBytes(q, dataLen, fin, hasLength), dataLen, fin, hasLength)
  }

  // ------------------------------------------------------------------ what is written

  lemma HeaderLength(q: Request, dataLen: nat, fin: bool, hasLength: bool)
    requires Encodes(q) && q.offset <= EIGHT_BYTE_LIMIT && (hasLength ==> dataLen <= EIGHT_BYTE_LIMIT)
    ensures |HeaderBytes(q, dataLen, fin, hasLength)| == HeaderSize(q) + if hasLength then Size(dataLen).value else 0
  {
    hide Enc, TypeField;
    assert Size(TypeField(q.group.Some?, q.offset != 0, hasLength, fin)) == Some(1);
  }

  /** The frame fits, sends no more than there is or than flow control allows, and is never an empty one. */
  lemma WrittenFrameFits(q: Request, remaining: nat, hint: Option<bool>)
    requires remaining < 0x1_0000_0000 && WriteHeader(q, remaining, hint).Header?
    ensures var w := WriteHeader(q, remaining, hint);
            && |w.bytes| + w.dataLen <= remaining
            && w.dataLen <= q.bufferLen && w.dataLen <= q.flowControlLen
            && (w.fin <==> q.fin && w.dataLen == q.bufferLen)
            && (w.dataLen > 0 || w.fin)
            && Encodes(q) && q.offset <= EIGHT_BYTE_LIMIT && w.dataLen <= EIGHT_BYTE_LIMIT
            && w.bytes == HeaderBytes(q, w.dataLen, w.fin, w.hasLength)
  {
    hide HeaderBytes, Size, BaseSize, HeaderSize;
    var w := WriteHeader(q, remaining, hint);
    HeaderLength(q, w.dataLen, w.fin, w.hasLength);
    if w.hasLength { LengthFits(q, remaining, hint); }
  }

  /** The room reserved for the length is enough for the length finally written. */
  lemma LengthFits(q: Request, remaining: nat, hint: Option<bool>)
    requires remaining < 0x1_0000_0000 && WriteHeader(q, remaining, hint).Header? && WriteHeader(q, remaining, hint).hasLength
    ensures var w := WriteHeader(q, remaining, hint);
            && w.dataLen <= q.bufferLen && w.dataLen <= q.flowControlLen
            && w.dataLen <= EIGHT_BYTE_LIMIT && HeaderSize(q) + Size(w.dataLen).value + w.dataLen <= remaining
  {
    hide HeaderBytes, BaseSize, HeaderSize;
  }

  /** Without a hint, the length is left out only for a frame that fills the packet. */
  lemma LengthLeftOut(q: Request, remaining: nat)
    requires remaining < 0x1_0000_0000 && WriteHeader(q, remaining, None).Header?
    ensures var w := WriteHeader(q, remaining, None);
            !w.hasLength ==> |w.bytes| + w.dataLen == remaining
  {
    hide HeaderBytes, Size, BaseSize, HeaderSize;
    var w := WriteHeader(q, remaining, None);
    HeaderLength(q, w.dataLen, w.fin, w.hasLength);
  }

  /**
   Without a hint, a frame is written exactly when there is something to send and a byte more
   than the fixed fields take, although the room left is computed with a subtraction that may wrap.
   */
  lemma WrittenExactly(q: Request, remaining: nat)
    requires remaining < 0x1_0000_0000 && Encodes(q) && q.offset <= EIGHT_BYTE_LIMIT
    requires q.bufferLen <= EIGHT_BYTE_LIMIT - 8 && (q.bufferLen > 0 || q.fin)
    ensures WriteHeader(q, remaining, None).Header? <==>
            remaining > HeaderSize(q) && (Min(q.bufferLen, q.flowControlLen) > 0 || (q.fin && q.bufferLen == 0))
    ensures WriteHeader(q, remaining, None).Header? || WriteHeader(q, remaining, None) == NoFrame
  {
    hide HeaderBytes, Size, BaseSize, HeaderSize;
  }

  /** The room behind the fixed fields falls between the data and the data with its length field, near a length boundary. */
  predicate LeavesGap(wanted: nat, room: int) {
    LengthLength(wanted).Some? &&
    var l := LengthLength(wanted).value;
    wanted < room < wanted + l && room >= l && Size(room - l).Some? && Size(room - l).value < l
  }

  /**
   A frame that leaves space in the packet has sent all its stream and flow control had to give,
   except exactly where the length finally written is shorter than the room kept for it.
   */
  lemma SpaceLeftMeansDone(q: Request, remaining: nat)
    requires remaining < 0x1_0000_0000 && WriteHeader(q, remaining, None).Header?
    ensures var w := WriteHeader(q, remaining, None);
            Encodes(q) && q.offset <= EIGHT_BYTE_LIMIT &&
            (|w.bytes| + w.dataLen < remaining && w.dataLen < Min(q.bufferLen, q.flowControlLen) <==>
             LeavesGap(Min(q.bufferLen, q.flowControlLen), remaining - HeaderSize(q)))
  {
    hide HeaderBytes, BaseSize, HeaderSize;
    var w := WriteHeader(q, remaining, None);
    HeaderLength(q, w.dataLen, w.fin, w.hasLength);
  }

  /**
   How many of `wanted` bytes go into the `room` behind the fixed fields: all the room without a length field, or what a
   length field leaves.
   */
  function DataIn(wanted: nat, room: nat): (n: nat)
    ensures n <= wanted && n <= room
  {
    if wanted >= room then room
    else if LengthLength(wanted).None? || wanted + LengthLength(wanted).value <= room then wanted
    else if room < LengthLength(wanted).value then 0 else room - LengthLength(wanted).value
  }

  lemma NoWrap(a: nat, b: nat)
    requires b <= a < 0x1_0000_0000
    ensures Sub64(a, b) == a - b
  {
  }

  lemma FinishExactly(q: Request, remaining: nat, header: nat, wanted: nat)
    requires Encodes(q) && q.offset <= EIGHT_BYTE_LIMIT && wanted <= EIGHT_BYTE_LIMIT - 8 && header < remaining < 0x1_0000_0000
    requires wanted > 0 || (q.fin && q.bufferLen == 0)
    ensures var room := remaining - header;
            var n := DataIn(wanted, room);
            Finish(q, remaining, header, Min(wanted, room), wanted > 0 && wanted >= room) ==
            Header(HeaderBytes(q, n, q.fin && n == q.bufferLen, wanted < room), n, q.fin && n == q.bufferLen, wanted < room)
  {
    hide HeaderBytes, Size, Encodes;
  }

  /** What `writeStreamFrameHeader` writes, in closed form. */
  lemma FrameExactly(q: Request, remaining: nat)
    requires remaining < 0x1_0000_0000 && Encodes(q) && q.offset <= EIGHT_BYTE_LIMIT
    requires q.bufferLen <= EIGHT_BYTE_LIMIT - 8 && (q.bufferLen > 0 || q.fin)
    ensures var wanted := Min(q.bufferLen, q.flowControlLen);
            var w := WriteHeader(q, remaining, None);
            if remaining <= HeaderSize(q) || (wanted == 0 && q.bufferLen > 0) then w == NoFrame
            else
              var room := remaining - HeaderSize(q);
              var n := DataIn(wanted, room);
              w == Header(HeaderBytes(q, n, q.fin && n == q.bufferLen, wanted < room), n, q.fin && n == q.bufferLen, wanted < room)
  {
    var wanted := Min(q.bufferLen, q.flowControlLen);
    WrittenExactly(q, remaining);
    hide HeaderBytes, Size, BaseSize, HeaderSize, DataIn, Finish, Sub64;
    if remaining > HeaderSize(q) && !(wanted == 0 && q.bufferLen > 0) {
      NoWrap(remaining, HeaderSize(q));
      FinishExactly(q, remaining, HeaderSize(q), wanted);
    }
  }

  /** Sixty-four bytes in the room for sixty-five: one is kept back, and one byte of the packet stays empty. */
  lemma GapAtSixtyFour()
    ensures var w := WriteHeader(Request(0, None, 0, 64, 64, false), 67, None);
            w.Header? && w.dataLen == 63 && |w.bytes| + w.dataLen == 66
  {
    var q := Request(0, None, 0, 64, 64, false);
    var w := WriteHeader(q, 67, None);
    HeaderLength(q, 63, false, true);
    hide HeaderBytes;
  }

  // ------------------------------------------------------------------ reading

  datatype StreamFrame = StreamFrame(id: nat, group: Option<nat>, offset: nat, data: seq<byte>, fin: bool)

  function ReadIf(present: bool, data: seq<byte>, absent: nat): Option<(nat, seq<byte>)> {
    if present then ReadInt(data) else Some((absent, data))
  }

  /** `decodeStreamFrame`, after the type; a frame with no length takes the rest of the packet. */
  function DecodeBody(field: nat, isGroup: bool, data: seq<byte>): (r: Option<(StreamFrame, seq<byte>)>) {
    var id := ReadInt(data);
    if id.None? then None
    else
      var group := ReadIf(isGroup, id.value.1, 0);
      if group.None? then None
      else
        var offset := ReadIf(HasBit(field, OFFSET_BIT), group.value.1, 0);
        if offset.None? then None
        else
          var length := ReadIf(HasBit(field, LENGTH_BIT), offset.value.1, |offset.value.1|);
          if length.None? || |length.value.1| < length.value.0 then None
          else
            var (n, rest) := length.value;
            var g := if isGroup then Some(group.value.0) else None;
            Some((StreamFrame(id.value.0, g, offset.value.0, rest[..n], HasBit(field, FIN_BIT)), rest[n..]))
  }

  /** The part of `parseFrame` that reads STREAM frames. */
  function Decode(data: seq<byte>): (r: Option<(StreamFrame, seq<byte>)>) {
    var t := ReadInt(data);
    if t.None? then None
    else if STREAM <= t.value.0 <= STREAM + 7 then DecodeBody(t.value.0, false, t.value.1)
    else if GROUP_STREAM <= t.value.0 <= GROUP_STREAM + 7 then DecodeBody(t.value.0, true, t.value.1)
    else None
  }

  // ------------------------------------------------------------------ round trip

  /** The bits the reader looks at, in a type field the builder made: a group's length bit is always set. */
  lemma TypeBits(group: bool, offset: bool, length: bool, fin: bool)
    ensures var t := TypeField(group, offset, length, fin);
            && (HasBit(t, FIN_BIT) <==> fin) && (HasBit(t, OFFSET_BIT) <==> offset) && (HasBit(t, LENGTH_BIT) <==> length || group)
            && (if group then GROUP_STREAM <= t <= GROUP_STREAM + 7 else STREAM <= t <= STREAM + 7)
  {
  }

  /** Reading the fields in front of the length gives back what was written. */
  lemma FieldsTravel(q: Request, field: nat, tail: seq<byte>)
    requires Encodes(q) && q.offset <= EIGHT_BYTE_LIMIT && (HasBit(field, OFFSET_BIT) <==> q.offset != 0)
    ensures var data := Enc(q.id) + ((if q.group.Some? then Enc(q.group.value) else []) + ((if q.offset != 0 then Enc(q.offset) else []) + tail));
            DecodeBody(field, q.group.Some?, data) ==
            (var length := ReadIf(HasBit(field, LENGTH_BIT), tail, |tail|);
             if length.None? || |length.value.1| < length.value.0 then None
             else Some((StreamFrame(q.id, q.group, q.offset, length.value.1[..length.value.0], HasBit(field, FIN_BIT)),
                        length.value.1[length.value.0..])))
  {
    hide ReadInt, Enc, HasBit;
    var t3 := (if q.offset != 0 then Enc(q.offset) else []) + tail;
    var t2 := (if q.group.Some? then Enc(q.group.value) else []) + t3;
    ReadEnc(q.id, t2);
    if q.group.Some? { ReadEnc(q.group.value, t3); } else { assert t2 == t3; }
    if q.offset != 0 { ReadEnc(q.offset, tail); } else { assert t3 == tail; }
  }

  ghost function Sent(q: Request, data: seq<byte>, fin: bool): StreamFrame {
    StreamFrame(q.id, q.group, q.offset, data, fin)
  }

  lemma Regroup(a: seq<byte>, b: seq<byte>, c: seq<byte>, d: seq<byte>, e: seq<byte>, tail: seq<byte>)
    ensures (a + (b + (c + (d + e)))) + tail == a + (b + (c + (d + (e + tail))))
  {
  }

  /** The reader of a written frame goes straight to its length and data. */
  lemma DecodeWritten(q: Request, data: seq<byte>, fin: bool, hasLength: bool, rest: seq<byte>)
    requires Encodes(q) && q.offset <= EIGHT_BYTE_LIMIT && |data| <= EIGHT_BYTE_LIMIT
    ensures Decode(HeaderBytes(q, |data|, fin, hasLength) + (data + rest)) ==
            (var tail := (if hasLength then Enc(|data|) else []) + (data + rest);
             var length := ReadIf(hasLength || q.group.Some?, tail, |tail|);
             if length.None? || |length.value.1| < length.value.0 then None
             else Some((Sent(q, length.value.1[..length.value.0], fin), length.value.1[length.value.0..])))
  {
    hide ReadInt, Enc, HasBit, TypeField, DecodeBody;
    var t := TypeField(q.group.Some?, q.offset != 0, hasLength, fin);
    TypeBits(q.group.Some?, q.offset != 0, hasLength, fin);
    var a := if q.group.Some? then Enc(q.group.value) else [];
    var b := if q.offset != 0 then Enc(q.offset) else [];
    var c := if hasLength then Enc(|data|) else [];
    var tail := c + (data + rest);
    Regroup(Enc(t), Enc(q.id), a, b, c, data + rest);
    ReadEnc(t, Enc(q.id) + (a + (b + tail)));
    FieldsTravel(q, t, tail);
  }

  /**
   A written frame is read back, with what follows it untouched, when it carries its length; one
   without a length is read back when it ends the packet, unless it is a group's.
   */
  lemma RoundTrip(q: Request, data: seq<byte>, fin: bool, hasLength: bool, rest: seq<byte>)
    requires Encodes(q) && q.offset <= EIGHT_BYTE_LIMIT && |data| <= EIGHT_BYTE_LIMIT && (!hasLength ==> rest == [])
    ensures Decode(HeaderBytes(q, |data|, fin, hasLength) + (data + rest)) == Some((Sent(q, data, fin), rest)) <==>
            hasLength || q.group.None?
  {
    hide ReadInt, Enc, HeaderBytes, Decode;
    DecodeWritten(q, data, fin, hasLength, rest);
    if hasLength {
      ReadEnc(|data|, data + rest);
      assert (data + rest)[..|data|] == data && (data + rest)[|data|..] == rest;
    } else {
      var tail := [] + (data + rest);
      assert tail == data && data[..|data|] == data && data[|data|..] == [];
    }
  }

  /** From the writer to the reader: the peer gets the offset, the bytes and the end that were scheduled. */
  lemma WrittenFrameTravels(q: Request, remaining: nat, data: seq<byte>, rest: seq<byte>)
    requires remaining < 0x1_0000_0000 && WriteHeader(q, remaining, None).Header?
    requires |data| == WriteHeader(q, remaining, None).dataLen
    requires |WriteHeader(q, remaining, None).bytes| + |data| + |rest| <= remaining
    ensures var w := WriteHeader(q, remaining, None);
            Decode(w.bytes + (data + rest)) == Some((Sent(q, data, w.fin), rest)) <==> w.hasLength || q.group.None?
  {
    hide WriteHeader, HeaderBytes, Decode, Sent;
    var w := WriteHeader(q, remaining, None);
    WrittenFrameFits(q, remaining, None);
    LengthLeftOut(q, remaining);
    RoundTrip(q, data, w.fin, w.hasLength, rest);
  }

  /** A group's frame that fills its packet is written without a length and misread, whatever its data. */
  lemma GroupFrameIsMisread(data: seq<byte>)
    requires |data| == 5
    ensures var q := Request(4, Some(1), 0, 10, 10, false);
            var w := WriteHeader(q, 8, None);
            w.Header? && w.dataLen == 5 && Decode(w.bytes + data) != Some((Sent(q, data, false), []))
  {
    var q := Request(4, Some(1), 0, 10, 10, false);
    var w := WriteHeader(q, 8, None);
    assert w == Header(HeaderBytes(q, 5, false, false), 5, false, false) by { hide HeaderBytes; }
    hide HeaderBytes, Decode, WriteHeader;
    assert data + [] == data;
    RoundTrip(q, data, false, false, []);
  }
}
