/**
 Cloning a packet (quic/codec/QuicPacketRebuilder.cpp): the frames of an outstanding packet are written again
 into a fresh builder, and what became of each of them decides whether there is a clone at all.
 */
module PacketRebuilder {
  import opened Prelude
  import opened Varint
  import opened StreamFrames
  import opened PacketSpace

  /** A frame of the original, as the rebuilder finds it. */
  datatype Part =
    /** An acknowledgement: a fresh one is written behind the other frames. */
    | AckPart
    /** Nothing to write any more: a closed stream, crypto data or a simple frame that is gone, a DATAGRAM frame. */
    | Skipped
    | PaddingPart
    /** A PING, simple or other frame, which must be written. */
    | Plain(size: nat)
    /** A fresh MAX_DATA or MAX_STREAM_DATA, which is written if it fits. */
    | WindowUpdate(size: nat)
    /** A stream frame of `len` bytes, and what is in flight of it. */
    | StreamPart(request: Request, len: nat)
    | CryptoPart(offset: nat, len: nat)

  /** What became of a frame: written, passed over, the end of the clone, an error, or a missing value that is used. */
  datatype Fate = Wrote(size: nat) | PassedOver | NoRoom | Refused | NoValue {
    predicate GoesOn() { Wrote? || PassedOver? }
  }

  /** The length of a stream frame is left out for the last frame of a packet without acknowledgements. */
  predicate SkipLength(parts: seq<Part>, k: nat)
    requires k < |parts| && parts[k].StreamPart?
  {
    k == |parts| - 1 && parts[k].request.bufferLen > 0 && AckPart !in parts
  }

  function TryStream(q: Request, len: nat, space: nat, skipLength: bool): Fate {
    match WriteHeader(q, space, Some(skipLength))
    case NoFrame => NoRoom
    case Refused => Fate.Refused
    case Fatal => Fate.Refused
    case Header(bytes, dataLen, _, _) => if dataLen == len then Wrote(|bytes| + dataLen) else NoRoom
  }

  /** `writeCryptoFrame` gives nothing without room for a byte, and the rebuilder asks the result for its offset. */
  function TryCrypto(offset: nat, len: nat, space: nat): Fate {
    if offset > EIGHT_BYTE_LIMIT then Fate.Refused
    else if space <= 3 + Size(offset).value then NoValue
    else if len > space - 3 - Size(offset).value then NoRoom
    else if len > EIGHT_BYTE_LIMIT then Fate.Refused
    else Wrote(1 + Size(offset).value + Size(len).value + len)
  }

  function Try(parts: seq<Part>, k: nat, space: nat): (r: Fate)
    requires k < |parts|
  {
    match parts[k]
    case AckPart => PassedOver
    case Skipped => PassedOver
    case PaddingPart => if space > 0 then Wrote(1) else NoRoom
    case Plain(size) => if size <= space then Wrote(size) else NoRoom
    case WindowUpdate(size) => if size <= space then Wrote(size) else PassedOver
    case StreamPart(q, len) => TryStream(q, len, space, SkipLength(parts, k))
    case CryptoPart(offset, len) => TryCrypto(offset, len, space)
  }

  /** The space in front of frame `k`, when all frames before it went on. */
  function SpaceAt(parts: seq<Part>, k: nat, space: nat): (r: nat)
    requires k <= |parts|
    ensures r <= space
  {
    if k == 0 then space
    else
      var before := SpaceAt(parts, k - 1, space);
      var f := Try(parts, k - 1, before);
      if f.Wrote? && f.size <= before then before - f.size else before
  }

  /** What became of frame `k`. */
  function FateOf(parts: seq<Part>, k: nat, space: nat): Fate
    requires k < |parts|
  {
    Try(parts, k, SpaceAt(parts, k, space))
  }

  /** The frames written of the first `k`. */
  function Written(parts: seq<Part>, k: nat, space: nat): (r: seq<Piece>)
    requires k <= |parts|
  {
    if k == 0 then []
    else
      var f := FateOf(parts, k - 1, space);
      Written(parts, k - 1, space) +
      if f.Wrote? then [Piece(if parts[k - 1].PaddingPart? then Padding else Other, f.size)] else []
  }

  /** Frame `k` is the first that does not go on. */
  ghost predicate StopsAt(parts: seq<Part>, k: nat, space: nat)
    requires k < |parts|
  {
    !FateOf(parts, k, space).GoesOn() && forall j :: 0 <= j < k ==> FateOf(parts, j, space).GoesOn()
  }

  ghost predicate AllGoOn(parts: seq<Part>, space: nat) {
    forall k :: 0 <= k < |parts| ==> FateOf(parts, k, space).GoesOn()
  }

  /** A frame that is neither padding nor an acknowledgement is written. */
  predicate Carries(parts: seq<Part>, k: nat, space: nat)
    requires k < |parts|
  {
    !parts[k].PaddingPart? && FateOf(parts, k, space).Wrote?
  }

  /** Frames are never empty. */
  predicate PartOk(p: Part) { p.Plain? || p.WindowUpdate? ==> p.size > 0 }

  ghost predicate PartsOk(parts: seq<Part>) { forall k :: 0 <= k < |parts| ==> PartOk(parts[k]) }

  // ------------------------------------------------------------------ single frames

  /** No frame takes more than there is, in datagrams whose lengths fit two bytes. */
  lemma WroteFits(parts: seq<Part>, k: nat, space: nat)
    requires k < |parts| && PartOk(parts[k]) && space <= TWO_BYTE_LIMIT && Try(parts, k, space).Wrote?
    ensures 0 < Try(parts, k, space).size <= space
  {
    var p := parts[k];
    if p.StreamPart? {
      hide WriteHeader;
      WrittenFrameFits(p.request, space, Some(SkipLength(parts, k)));
    }
  }

  /** Of the frames of a clone exactly these are missing: acknowledgements, what is gone, and window updates without room. */
  lemma MissingExactly(parts: seq<Part>, k: nat, space: nat)
    requires k < |parts| && FateOf(parts, k, space).GoesOn()
    ensures FateOf(parts, k, space).PassedOver? <==>
              || parts[k].AckPart? || parts[k].Skipped?
              || (parts[k].WindowUpdate? && parts[k].size > SpaceAt(parts, k, space))
  {
    hide WriteHeader, SpaceAt;
  }

  /** The room frame `k` needs to be written again; frames that are passed over need none. */
  function Needs(parts: seq<Part>, k: nat): nat
    requires k < |parts| && Rewritable(parts[k])
  {
    match parts[k]
    case PaddingPart => 1
    case Plain(size) => size
    case StreamPart(q, len) => HeaderSize(q) + len + if SkipLength(parts, k) then 0 else LengthLength(len).value
    case CryptoPart(offset, len) => 3 + Size(offset).value + len
    case _ => 0
  }

  /** The bytes frame `k` takes when it is written again; a length may take less than was kept for it. */
  function Takes(parts: seq<Part>, k: nat): nat
    requires k < |parts| && Rewritable(parts[k])
  {
    match parts[k]
    case PaddingPart => 1
    case Plain(size) => size
    case WindowUpdate(size) => size
    case StreamPart(q, len) => HeaderSize(q) + len + if SkipLength(parts, k) then 0 else Size(len).value
    case CryptoPart(offset, len) => 1 + Size(offset).value + Size(len).value + len
    case _ => 0
  }

  /** A frame whose data is still in flight as it was sent. */
  predicate Rewritable(p: Part) {
    match p
    case StreamPart(q, len) =>
      && Encodes(q) && q.offset <= EIGHT_BYTE_LIMIT && q.bufferLen == q.flowControlLen == len <= EIGHT_BYTE_LIMIT - 8
      && (len > 0 || q.fin)
    case CryptoPart(offset, len) => offset <= EIGHT_BYTE_LIMIT && 0 < len <= EIGHT_BYTE_LIMIT
    case _ => true
  }

  lemma SubWraps(a: nat, b: nat)
    requires a <= TWO_BYTE_LIMIT && b <= 100
    ensures if b <= a then Sub64(a, b) == a - b else Sub64(a, b) > EIGHT_BYTE_LIMIT
  {
  }

  /** Without a length field. */
  lemma WholeWithoutLength(q: Request, len: nat, space: nat)
    requires Rewritable(StreamPart(q, len)) && space <= TWO_BYTE_LIMIT && len > 0
    ensures var w := WriteHeader(q, space, Some(true));
            if HeaderSize(q) + len <= space then w == Header(HeaderBytes(q, len, q.fin, false), len, q.fin, false)
            else w == NoFrame || (w.Header? && w.dataLen < len)
  {
    SubWraps(space, HeaderSize(q));
    hide HeaderBytes, BaseSize, HeaderSize, Sub64, Size;
  }

  /** With a length field. */
  lemma WholeWithLength(q: Request, len: nat, space: nat)
    requires Rewritable(StreamPart(q, len)) && space <= TWO_BYTE_LIMIT
    ensures var w := WriteHeader(q, space, Some(false));
            if HeaderSize(q) + len + LengthLength(len).value <= space then w == Header(HeaderBytes(q, len, q.fin, true), len, q.fin, true)
            else w == NoFrame || (w.Header? && w.dataLen < len)
  {
    SubWraps(space, HeaderSize(q));
    var n := Min(len, Sub64(space, HeaderSize(q)));
    FinishWhole(q, len, space, HeaderSize(q), n);
    hide HeaderBytes, BaseSize, HeaderSize, Sub64, Size, Finish;
  }

  lemma FinishWhole(q: Request, len: nat, space: nat, header: nat, n: nat)
    requires Rewritable(StreamPart(q, len)) && space <= TWO_BYTE_LIMIT && header <= 25
    requires n == if header <= space then Min(len, space - header) else len
    ensures var w := Finish(q, space, header, n, false);
            if header + len + LengthLength(len).value <= space then w == Header(HeaderBytes(q, len, q.fin, true), len, q.fin, true)
            else w == NoFrame || (w.Header? && w.dataLen < len)
  {
    if LengthLength(n).Some? { SubWraps(space, header + LengthLength(n).value); }
    hide HeaderBytes, Size, Sub64, Encodes;
  }

  /** A stream frame is written whole exactly when its header, its data and the room kept for its length fit. */
  lemma WholeStreamFrame(q: Request, len: nat, space: nat, skipLength: bool)
    requires Rewritable(StreamPart(q, len)) && space <= TWO_BYTE_LIMIT && (skipLength ==> len > 0)
    ensures TryStream(q, len, space, skipLength) ==
            if HeaderSize(q) + len + (if skipLength then 0 else LengthLength(len).value) <= space
            then Wrote(HeaderSize(q) + len + if skipLength then 0 else Size(len).value) else NoRoom
  {
    HeaderLength(q, len, q.fin, !skipLength);
    hide HeaderBytes, BaseSize, HeaderSize, WriteHeader, LengthLength;
    if skipLength { WholeWithoutLength(q, len, space); } else { WholeWithLength(q, len, space); }
  }

  /**
   A frame goes on exactly when the frames before it leave the room it needs, and takes its own size; a window update
   goes on without room, but is not written.
   */
  lemma FateExactly(parts: seq<Part>, k: nat, space: nat)
    requires k < |parts| && Rewritable(parts[k]) && space <= TWO_BYTE_LIMIT
    ensures var (f, at) := (FateOf(parts, k, space), SpaceAt(parts, k, space));
            && (f.GoesOn() <==> Needs(parts, k) <= at)
            && (f.Wrote? ==> f.size == Takes(parts, k))
            && (parts[k].WindowUpdate? ==> (f.Wrote? <==> parts[k].size <= at))
            && (parts[k].AckPart? || parts[k].Skipped? ==> f.PassedOver?)
  {
    hide WriteHeader, SpaceAt, HeaderSize;
    if parts[k].StreamPart? {
      WholeStreamFrame(parts[k].request, parts[k].len, SpaceAt(parts, k, space), SkipLength(parts, k));
    }
  }

  /** A stream frame of which less is in flight than it carried ends the clone. */
  lemma ShortenedStreamStops(parts: seq<Part>, k: nat, space: nat)
    requires k < |parts| && parts[k].StreamPart? && parts[k].request.bufferLen < parts[k].len && space <= TWO_BYTE_LIMIT
    ensures !FateOf(parts, k, space).GoesOn()
  {
    hide WriteHeader, SpaceAt;
    var (q, at, hint) := (parts[k].request, SpaceAt(parts, k, space), Some(SkipLength(parts, k)));
    if WriteHeader(q, at, hint).Header? { WrittenFrameFits(q, at, hint); }
  }

  // ------------------------------------------------------------------ the rebuilder

  /** A clone, no clone, an error, or the use of a value that is not there. */
  datatype Rebuilt = Clone | NoClone | Failed | Undefined

  /**
   `rebuildFromPacket`. There is a clone exactly when every frame goes on and one of them is written that is
   neither padding nor an acknowledgement; it holds the frames written, then an acknowledgement and padding.
   The result is undefined exactly when the first frame that does not go on is crypto data without room
   for a byte of it.
   */
  method Rebuild(builder: PacketBuilder, parts: seq<Part>, ack: Option<AckAsk>, initial: bool) returns (r: Rebuilt)
    requires builder.Valid() && builder.pieces == [] && PartsOk(parts) && (ack.Some? ==> AckOk(ack.value))
    modifies builder
    ensures builder.Valid() && (builder.pieces != [] ==> builder.EncodedSize() <= builder.packetLen)
    ensures var space := old(builder.remaining);
            && (r == Clone <==> AllGoOn(parts, space) && exists k :: 0 <= k < |parts| && Carries(parts, k, space))
            && (r == Failed <==> exists k :: 0 <= k < |parts| && StopsAt(parts, k, space) && FateOf(parts, k, space).Refused?)
            && (r == Undefined <==> exists k :: 0 <= k < |parts| && StopsAt(parts, k, space) && FateOf(parts, k, space).NoValue?)
    ensures r == Clone ==>
              && Written(parts, |parts|, old(builder.remaining)) <= builder.pieces
              && OtherBytes(builder.pieces) == OtherBytes(Written(parts, |parts|, old(builder.remaining)))
              && (initial ==> builder.remaining == 0)
  {
    hide Try, Bytes, OtherBytes, AckOk;
    ghost var space := builder.remaining;
    var writeSuccess, windowWanted, windowWritten, notPureAck, hasAck := false, false, false, false, false;
    var k := 0;
    while k < |parts|
      invariant 0 <= k <= |parts| && builder.Valid() && builder.remaining == SpaceAt(parts, k, space)
      invariant builder.pieces == Written(parts, k, space)
      invariant forall j :: 0 <= j < k ==> FateOf(parts, j, space).GoesOn()
      invariant notPureAck <==> exists j :: 0 <= j < k && Carries(parts, j, space)
      invariant notPureAck ==> writeSuccess
    {
      var before := builder.remaining;
      var fate := Try(parts, k, before);
      assert fate == FateOf(parts, k, space);
      if !fate.GoesOn() {
        assert StopsAt(parts, k, space);
        OnlyStop(parts, k, space);
        return if fate.Refused? then Failed else if fate.NoValue? then Undefined else NoClone;
      }
      if fate.Wrote? {
        WroteFits(parts, k, before);
        builder.Put(if parts[k].PaddingPart? then Padding else Other, fate.size);
      }
      windowWanted := windowWanted || parts[k].WindowUpdate?;
      windowWritten := windowWritten || (parts[k].WindowUpdate? && fate.Wrote?);
      assert Carries(parts, k, space) <==> fate.Wrote? && !parts[k].PaddingPart?;
      notPureAck := notPureAck || (fate.Wrote? && !parts[k].PaddingPart?);
      writeSuccess := writeSuccess || !parts[k].AckPart?;
      AckPasses(parts, k, before);
      hasAck := hasAck || parts[k].AckPart?;
      k := k + 1;
    }
    if hasAck && ack.Some? {
      var _ := builder.WriteAck(ack.value, builder.remaining);
    }
    if !notPureAck || (windowWanted && !windowWritten && !writeSuccess) {
      return NoClone;
    }
    if initial {
      builder.Pad(builder.remaining);
    }
    r := Clone;
  }

  lemma AckPasses(parts: seq<Part>, k: nat, space: nat)
    requires k < |parts|
    ensures parts[k].AckPart? ==> Try(parts, k, space).PassedOver?
  {
  }

  /** There is only one first frame that stops. */
  lemma OnlyStop(parts: seq<Part>, k: nat, space: nat)
    requires k < |parts| && StopsAt(parts, k, space)
    ensures !AllGoOn(parts, space) && forall j :: 0 <= j < |parts| && StopsAt(parts, j, space) ==> j == k
  {
    hide FateOf;
  }

  // ------------------------------------------------------------------ crypto data

  /**
   A packet of crypto data alone: there is a clone exactly when all of it fits again, and the result is
   undefined exactly when not a byte of it does.
   */
  lemma CryptoAlone(offset: nat, len: nat, space: nat)
    requires offset <= EIGHT_BYTE_LIMIT && 0 < len <= EIGHT_BYTE_LIMIT && space <= TWO_BYTE_LIMIT
    ensures var (parts, room) := ([CryptoPart(offset, len)], space - 3 - Size(offset).value);
            && (FateOf(parts, 0, space).Wrote? <==> len <= room)
            && (FateOf(parts, 0, space).NoValue? <==> room <= 0)
            && (FateOf(parts, 0, space).NoRoom? <==> 0 < room < len)
  {
  }

  /** One byte of crypto data that filled its packet, and a clone whose header is a byte longer. */
  lemma LongerHeaderIsUndefined()
    ensures Taken(OfCrypto(0, 1), 5) == 4
    ensures StopsAt([CryptoPart(0, 1)], 0, 4) && FateOf([CryptoPart(0, 1)], 0, 4).NoValue?
  {
  }

  // ------------------------------------------------------------------ pings

  /** A packet of a PING alone has a clone, which the comment beside the test means to rule out. */
  lemma PingAloneIsCloned(space: nat)
    requires space > 0
    ensures AllGoOn([Plain(1)], space) && Carries([Plain(1)], 0, space)
  {
  }
}
