/**
 Room in a packet: the packet builder and the wrapper that narrows it
 (quic/codec/QuicPacketBuilder.cpp and quic/codec/QuicPacketBuilder.h), the order in which
 `scheduleFramesForPacket` fills it (quic/api/QuicPacketScheduler.cpp).
 */
module PacketSpace {
  import opened Prelude
  import opened Varint
  import opened StreamFrames
  import AckWriter
  import IntervalSets
  import Outstanding

  datatype Kind = Ack | Padding | Other

  /** Bytes put into a packet body. */
  datatype Piece = Piece(kind: Kind, size: nat)

  /** A frame to be written if it fits: one of known size, of a stream, or of the crypto stream. */
  datatype Ask =
    | Fixed(size: nat)
    | OfStream(request: Request, skipLenHint: Option<bool>)
    | OfCrypto(offset: nat, len: nat)

  /** Numbers to acknowledge. */
  datatype AckAsk = AckAsk(acks: seq<IntervalSets.Interval>, delay: nat, exponent: nat, frameType: nat)

  ghost predicate AckOk(a: AckAsk) {
    IntervalSets.Canonical(a.acks) && a.acks != [] && a.frameType <= ONE_BYTE_LIMIT && |a.acks| - 1 <= EIGHT_BYTE_LIMIT
  }

  /** The numbers can be encoded, and the space holds the frame with the largest of their intervals. */
  ghost predicate AckFits(a: AckAsk, space: nat)
    requires AckOk(a)
  {
    var delay := AckWriter.EncodedDelay(a.delay, a.exponent);
    && a.acks[|a.acks| - 1].end <= EIGHT_BYTE_LIMIT && delay <= EIGHT_BYTE_LIMIT
    && !AckWriter.TooLong(a.frameType, AckWriter.Largest(a.acks, 1), delay, space)
  }

  /** The bytes a frame takes of the space it is shown; none when it is not written. */
  function Taken(a: Ask, space: nat): (r: nat) {
    match a
    case Fixed(size) => if size <= space then size else 0
    case OfStream(q, hint) =>
      var w := WriteHeader(q, space, hint);
      if w.Header? then |w.bytes| + w.dataLen else 0
    case OfCrypto(offset, len) =>
      if offset > EIGHT_BYTE_LIMIT || space <= 3 + Size(offset).value then 0
      else
        var data := Min(len, space - 3 - Size(offset).value);
        if data > EIGHT_BYTE_LIMIT then 0 else 1 + Size(offset).value + Size(data).value + data
  }

  /** No writer takes more than the space it is shown, in datagrams whose lengths fit two bytes. */
  lemma TakenFits(a: Ask, space: nat)
    requires space <= TWO_BYTE_LIMIT
    ensures Taken(a, space) <= space
  {
    if a.OfStream? {
      hide WriteHeader;
      if WriteHeader(a.request, space, a.skipLenHint).Header? { WrittenFrameFits(a.request, space, a.skipLenHint); }
    }
  }

  function Bytes(ps: seq<Piece>): nat { if ps == [] then 0 else Bytes(ps[..|ps| - 1]) + ps[|ps| - 1].size }

  /** The bytes of frames that are neither acknowledgements nor padding. */
  function OtherBytes(ps: seq<Piece>): nat {
    if ps == [] then 0 else OtherBytes(ps[..|ps| - 1]) + if ps[|ps| - 1].kind == Other then ps[|ps| - 1].size else 0
  }

  lemma Snoc(ps: seq<Piece>, p: Piece)
    ensures Bytes(ps + [p]) == Bytes(ps) + p.size
    ensures OtherBytes(ps + [p]) == OtherBytes(ps) + if p.kind == Other then p.size else 0
  {
    assert (ps + [p])[..|ps|] == ps;
  }

  lemma {:induction false} Append(a: seq<Piece>, b: seq<Piece>)
    ensures Bytes(a + b) == Bytes(a) + Bytes(b)
    decreases |b|
  {
    if b == [] {
      assert a + b == a;
    } else {
      var n := |b| - 1;
      Append(a, b[..n]);
      assert (a + b)[..|a + b| - 1] == a + b[..n];
    }
  }

  /** A piece of acknowledgement, unless it is empty. */
  function AckPiece(size: nat): seq<Piece> { if size > 0 then [Piece(Ack, size)] else [] }

  /** The wrapper's view of the builder: what is left of the writable bytes. */
  function Room(remaining: nat, diff: nat): nat { if remaining > diff then remaining - diff else 0 }

  /** What is written of the frames from `k` on, each shown what the wrapper leaves. */
  function Pieces(asks: seq<Ask>, k: nat, remaining: nat, diff: nat): (r: seq<Piece>)
    requires k <= |asks|
    decreases |asks| - k
  {
    if k == |asks| then []
    else
      var size := Taken(asks[k], Room(remaining, diff));
      (if size > 0 then [Piece(Other, size)] else []) +
      Pieces(asks, k + 1, if size <= remaining then remaining - size else 0, diff)
  }

  function Paddings(n: nat): (r: seq<Piece>)
    ensures |r| == n
  {
    if n == 0 then [] else Paddings(n - 1) + [Piece(Padding, 1)]
  }

  class PacketBuilder {
    const packetLen: nat
    const overhead: nat
    const header: nat
    var remaining: nat
    var pieces: seq<Piece>

    /** Either all bytes of the datagram are accounted for, or the header did not fit and nothing can be written. */
    ghost predicate Valid()
      reads this
    {
      && 0 < header && overhead <= packetLen <= TWO_BYTE_LIMIT
      && ((remaining == 0 && pieces == []) || header + Bytes(pieces) + overhead + remaining == packetLen)
    }

    /** The builder after the cipher's overhead and the header are taken off. */
    constructor (packetLen: nat, overhead: nat, header: nat)
      requires 0 < header && overhead <= packetLen <= TWO_BYTE_LIMIT
      ensures Valid() && this.packetLen == packetLen && this.overhead == overhead && this.header == header
      ensures pieces == [] && remaining == if overhead + header <= packetLen then packetLen - overhead - header else 0
    {
      this.packetLen, this.overhead, this.header := packetLen, overhead, header;
      pieces := [];
      remaining := packetLen - overhead;
      new;
      remaining := if remaining < header then 0 else remaining - header;
    }

    /** The size of the packet once it is sealed. */
    function EncodedSize(): nat
      reads this
    {
      header + Bytes(pieces) + overhead
    }

    method Put(kind: Kind, size: nat)
      requires Valid() && 0 < size <= remaining
      modifies this
      ensures Valid() && pieces == old(pieces) + [Piece(kind, size)] && remaining == old(remaining) - size
      ensures Bytes(pieces) == old(Bytes(pieces)) + size
      ensures OtherBytes(pieces) == old(OtherBytes(pieces)) + if kind == Other then size else 0
    {
      Snoc(pieces, Piece(kind, size));
      pieces := pieces + [Piece(kind, size)];
      remaining := remaining - size;
    }

    /** Up to `n` padding frames, as long as there is space. */
    method Pad(n: nat)
      requires Valid()
      modifies this
      ensures Valid() && remaining == old(remaining) - Min(n, old(remaining))
      ensures pieces == old(pieces) + Paddings(Min(n, old(remaining)))
      ensures OtherBytes(pieces) == old(OtherBytes(pieces))
    {
      for i := 0 to n
        invariant Valid() && remaining == old(remaining) - Min(i, old(remaining))
        invariant pieces == old(pieces) + Paddings(Min(i, old(remaining)))
        invariant OtherBytes(pieces) == old(OtherBytes(pieces))
      {
        if remaining > 0 {
          Put(Padding, 1);
        }
      }
    }

    /** One frame into the space shown to its writer. */
    method Write(a: Ask, space: nat) returns (wrote: bool)
      requires Valid() && space <= remaining
      modifies this
      ensures Valid() && (wrote <==> Taken(a, space) > 0) && remaining == old(remaining) - Taken(a, space)
      ensures pieces == old(pieces) + if wrote then [Piece(Other, Taken(a, space))] else []
      ensures OtherBytes(pieces) == old(OtherBytes(pieces)) + Taken(a, space) && Taken(a, space) <= space
      ensures Bytes(pieces) == old(Bytes(pieces)) + Taken(a, space)
    {
      hide Taken;
      TakenFits(a, space);
      var size := Taken(a, space);
      wrote := size > 0;
      if wrote {
        Put(Other, size);
      }
    }

    /** Frames one after the other, each shown what the wrapper leaves. */
    method WriteAll(asks: seq<Ask>, diff: nat, ghost granted: nat) returns (wrote: bool)
      requires Valid() && OtherBytes(pieces) + Room(remaining, diff) <= granted
      modifies this
      ensures Valid() && OtherBytes(pieces) + Room(remaining, diff) <= granted
      ensures pieces == old(pieces) + Pieces(asks, 0, old(remaining), diff)
      ensures remaining == old(remaining) - Bytes(Pieces(asks, 0, old(remaining), diff))
      ensures wrote <==> Pieces(asks, 0, old(remaining), diff) != []
    {
      hide Taken, Pieces, Bytes;
      wrote := false;
      ghost var all := Pieces(asks, 0, remaining, diff);
      assert pieces + all == old(pieces) + all;
      for i := 0 to |asks|
        invariant Valid() && OtherBytes(pieces) + Room(remaining, diff) <= granted
        invariant pieces + Pieces(asks, i, remaining, diff) == old(pieces) + all
        invariant remaining + Bytes(pieces) == old(remaining) + old(Bytes(pieces))
        invariant |pieces| >= |old(pieces)| && (wrote <==> |pieces| > |old(pieces)|)
      {
        ghost var before, left := pieces, remaining;
        var w := Write(asks[i], Room(remaining, diff));
        PiecesStep(asks, i, left, diff);
        assert before + ((if w then [Piece(Other, Taken(asks[i], Room(left, diff)))] else []) + Pieces(asks, i + 1, remaining, diff))
            == pieces + Pieces(asks, i + 1, remaining, diff);
        wrote := wrote || w;
      }
      PiecesEnd(asks, remaining, diff);
      Append(old(pieces), all);
    }

    /** An acknowledgement, if the numbers can be encoded and the largest interval of them fits. */
    method WriteAck(a: AckAsk, space: nat) returns (size: nat)
      requires Valid() && AckOk(a) && space <= remaining
      modifies this
      ensures Valid() && OtherBytes(pieces) == old(OtherBytes(pieces))
      ensures size <= space && remaining == old(remaining) - size && pieces == old(pieces) + AckPiece(size)
      ensures size > 0 <==> AckFits(a, space)
    {
      hide AckWriter.Largest, AckWriter.EncodeFields;
      var w := AckWriter.MaybeWriteAckBaseFields(a.acks, a.delay, a.exponent, a.frameType, space);
      size := 0;
      if w.Written? {
        OneIntervalFits(a, w.bytes, w.blocks, space);
        size := |w.bytes|;
        Put(Ack, size);
      }
    }

    /**
     `scheduleFramesForPacket`: the fixed padding, crypto data and resets, an acknowledgement, the other frames, and padding
     behind them. Each writer is shown what the writable bytes leave, an acknowledgement in front of which nothing was
     written all there is. Frames that are neither acknowledgements nor padding take no more than the writable bytes leave
     behind the header; the datagram is never overfilled, and is full where the plan wants it full.
     */
    method ScheduleFrames(plan: Plan, writable: nat) returns (ackSize: nat, tail: nat)
      requires Valid() && pieces == [] && (plan.ack.Some? ==> AckOk(plan.ack.value))
      modifies this
      ensures Valid()
      ensures OtherBytes(pieces) <= if writable > header then writable - header else 0
      ensures pieces != [] ==> EncodedSize() <= packetLen
      ensures Filled(plan, if writable > header then writable - header else 0, old(remaining), pieces, ackSize, tail)
      ensures plan.fill && pieces != [] ==> remaining == 0
    {
      hide Taken, Pieces, Paddings, Bytes, OtherBytes, Room, AckFits, Filled, TailPadding, AckPiece;
      var w := if writable > header then writable - header else 0;
      ghost var space := remaining;
      var diff, wroteFirst := WriteFront(plan, w);
      ghost var front, left1 := pieces, remaining;
      ackSize, tail := 0, 0;
      assert front + AckPiece(0) == front by { NoAck(front); }
      if plan.ack.Some? {
        assert Room(remaining, diff) <= remaining by { RoomWithin(remaining, diff); }
        ghost var before := remaining;
        ackSize := WriteAck(plan.ack.value, if wroteFirst then Room(remaining, diff) else remaining);
        RoomShrinks(remaining, before, diff);
      }
      var _ := WriteAll(plan.others, diff, w);
      ghost var body, rest := pieces, remaining;
      assert body + Paddings(0) == body by { NoPaddings(body); }
      if pieces != [] {
        tail := Finish(plan, diff);
      }
      RoomWithin(left1, diff);
      IsFilled(plan, w, space, diff, left1, ackSize, body, rest, pieces, tail);
    }

    /** The fixed padding, then what goes before acknowledgements; `diff` is what the wrapper keeps back. */
    method WriteFront(plan: Plan, w: nat) returns (diff: nat, wroteFirst: bool)
      requires Valid() && pieces == []
      modifies this
      ensures Valid() && OtherBytes(pieces) + Room(remaining, diff) <= w
      ensures var padding := Min(plan.fixedPadding, old(remaining));
              var left := old(remaining) - padding;
              && diff == (if w > left then 0 else left - w)
              && pieces == Paddings(padding) + Pieces(plan.first, 0, left, diff)
              && remaining == left - Bytes(Pieces(plan.first, 0, left, diff))
              && (wroteFirst <==> Pieces(plan.first, 0, left, diff) != [])
    {
      hide Taken, Pieces, Paddings, Bytes;
      assert [] + Paddings(Min(plan.fixedPadding, remaining)) == Paddings(Min(plan.fixedPadding, remaining));
      Pad(plan.fixedPadding);
      diff := if w > remaining then 0 else remaining - w;
      wroteFirst := WriteAll(plan.first, diff, w);
    }

    /** Padding behind the frames: a full datagram, a multiple, or enough bytes for a sample. */
    method Finish(plan: Plan, diff: nat) returns (tail: nat)
      requires Valid() && pieces != []
      modifies this
      ensures Valid() && OtherBytes(pieces) == old(OtherBytes(pieces)) && EncodedSize() <= packetLen
      ensures tail == TailPadding(plan, old(remaining), diff) && remaining == old(remaining) - tail
      ensures pieces == old(pieces) + Paddings(tail)
    {
      hide Paddings, OtherBytes;
      ghost var body := pieces;
      tail := 0;
      NoPaddings(body);
      if plan.fill {
        tail := remaining;
        Pad(remaining);
      }
      if plan.modulo > 0 {
        var more := Min(Room(remaining, diff) % plan.modulo, remaining);
        Pad(Room(remaining, diff) % plan.modulo);
        MorePaddings(body, tail, more);
        tail := tail + more;
      }
      var sample := PadForSample(plan.sample);
      MorePaddings(body, tail, sample);
      tail := tail + sample;
    }

    /** `buildPacket`: the padding that header protection needs, as long as more than four bytes are left. */
    method PadForSample(sample: nat) returns (n: nat)
      requires Valid()
      modifies this
      ensures Valid() && OtherBytes(pieces) == old(OtherBytes(pieces))
      ensures n == Min(sample, if old(remaining) > 4 then old(remaining) - 4 else 0)
      ensures pieces == old(pieces) + Paddings(n) && remaining == old(remaining) - n
    {
      hide Paddings, OtherBytes;
      n := Min(sample, if remaining > 4 then remaining - 4 else 0);
      Pad(n);
    }
  }

  // ------------------------------------------------------------------ a filled packet

  /** The padding behind the frames. */
  function TailPadding(plan: Plan, remaining: nat, diff: nat): (r: nat)
    ensures r <= remaining
    ensures plan.fill ==> r == remaining
  {
    var a := if plan.fill then remaining else 0;
    var b := if plan.modulo > 0 then Min(Room(remaining - a, diff) % plan.modulo, remaining - a) else 0;
    a + b + Min(plan.sample, if remaining - a - b > 4 then remaining - a - b - 4 else 0)
  }

  /**
   What a packet of `space` bytes holds when `w` bytes may be written: fixed padding, the frames that go first, an
   acknowledgement of `ackSize` bytes, the other frames and `tail` bytes of padding.
   */
  ghost predicate Filled(plan: Plan, w: nat, space: nat, pieces: seq<Piece>, ackSize: nat, tail: nat)
    requires plan.ack.Some? ==> AckOk(plan.ack.value)
  {
    var padding := Min(plan.fixedPadding, space);
    var left := space - padding;
    var diff := if w > left then 0 else left - w;
    var first := Pieces(plan.first, 0, left, diff);
    Bytes(first) <= left &&
    var left1 := left - Bytes(first);
    var ackSpace := if first != [] then Room(left1, diff) else left1;
    && ackSize <= ackSpace <= left1 && (ackSize > 0 <==> plan.ack.Some? && AckFits(plan.ack.value, ackSpace))
    && var left2 := left1 - ackSize;
       var others := Pieces(plan.others, 0, left2, diff);
       var body := Paddings(padding) + first + AckPiece(ackSize) + others;
       && Bytes(others) <= left2
       && tail == (if body == [] then 0 else TailPadding(plan, left2 - Bytes(others), diff))
       && pieces == body + Paddings(tail)
  }

  lemma IsFilled(plan: Plan, w: nat, space: nat, diff: nat, left1: nat, ackSize: nat, body: seq<Piece>, rest: nat,
                 pieces: seq<Piece>, tail: nat)
    requires plan.ack.Some? ==> AckOk(plan.ack.value)
    requires var padding := Min(plan.fixedPadding, space);
             var left := space - padding;
             var first := Pieces(plan.first, 0, left, diff);
             var ackSpace := if first != [] then Room(left1, diff) else left1;
             && diff == (if w > left then 0 else left - w) && left1 == left - Bytes(first)
             && ackSize <= ackSpace <= left1 && (ackSize > 0 <==> plan.ack.Some? && AckFits(plan.ack.value, ackSpace))
             && var others := Pieces(plan.others, 0, left1 - ackSize, diff);
                && body == Paddings(padding) + first + AckPiece(ackSize) + others && rest == left1 - ackSize - Bytes(others)
                && tail == (if body == [] then 0 else TailPadding(plan, rest, diff))
                && pieces == body + Paddings(tail)
    ensures Filled(plan, w, space, pieces, ackSize, tail)
  {
    hide Taken, Pieces, Paddings, Bytes, Room, AckFits, TailPadding, AckPiece;
  }

  lemma NoAck(ps: seq<Piece>)
    ensures ps + AckPiece(0) == ps
  {
  }

  /** A packet is empty exactly when there is no padding to start with and no frame, acknowledgement or other, gets in. */
  lemma EmptyExactly(plan: Plan, w: nat, space: nat, pieces: seq<Piece>, ackSize: nat, tail: nat)
    requires plan.ack.Some? ==> AckOk(plan.ack.value)
    requires Filled(plan, w, space, pieces, ackSize, tail)
    ensures pieces == [] <==>
            var diff := if w > space then 0 else space - w;
            && (plan.fixedPadding == 0 || space == 0) && (plan.ack.Some? ==> !AckFits(plan.ack.value, space))
            && (forall k :: 0 <= k < |plan.first| ==> Taken(plan.first[k], Room(space, diff)) == 0)
            && (forall k :: 0 <= k < |plan.others| ==> Taken(plan.others[k], Room(space, diff)) == 0)
  {
    hide Taken, AckFits, TailPadding, Room, Bytes, Pieces, Paddings, AckPiece;
    var padding := Min(plan.fixedPadding, space);
    var left := space - padding;
    var diff := if w > left then 0 else left - w;
    var first := Pieces(plan.first, 0, left, diff);
    var left2 := left - Bytes(first) - ackSize;
    var others := Pieces(plan.others, 0, left2, diff);
    AllEmpty(Paddings(padding), first, AckPiece(ackSize), others, Paddings(tail));
    AckPieceEmpty(ackSize);
    NoPiecesExactly(plan.first, 0, space, diff);
    NoPiecesExactly(plan.others, 0, space, diff);
    NoBytes();
  }

  lemma AllEmpty(a: seq<Piece>, b: seq<Piece>, c: seq<Piece>, d: seq<Piece>, e: seq<Piece>)
    ensures a + b + c + d == [] <==> a == [] && b == [] && c == [] && d == []
    ensures a + b + c + d + e == [] <==> a == [] && b == [] && c == [] && d == [] && e == []
  {
    assert |a + b + c + d| == |a| + |b| + |c| + |d| && |a + b + c + d + e| == |a| + |b| + |c| + |d| + |e|;
  }

  lemma AckPieceEmpty(size: nat)
    ensures AckPiece(size) == [] <==> size == 0
  {
  }

  lemma NoBytes()
    ensures Bytes([]) == 0
  {
  }

  /** No frame is written exactly when none fits the room at the start. */
  lemma {:induction false} NoPiecesExactly(asks: seq<Ask>, k: nat, remaining: nat, diff: nat)
    requires k <= |asks|
    ensures Pieces(asks, k, remaining, diff) == [] <==>
            forall i :: k <= i < |asks| ==> Taken(asks[i], Room(remaining, diff)) == 0
    decreases |asks| - k
  {
    hide Taken;
    if k < |asks| { NoPiecesExactly(asks, k + 1, remaining, diff); }
  }

  lemma OneIntervalFits(a: AckAsk, bytes: seq<byte>, blocks: seq<Outstanding.Block>, space: nat)
    requires AckOk(a) && 1 <= |blocks| <= |a.acks| && blocks == AckWriter.Largest(a.acks, |blocks|)
    requires AckWriter.IsFrame(bytes, a.frameType, blocks, AckWriter.EncodedDelay(a.delay, a.exponent)) && |bytes| <= space
    requires a.acks[|a.acks| - 1].end <= EIGHT_BYTE_LIMIT
    ensures AckFits(a, space) && |bytes| > 0
  {
    var delay := AckWriter.EncodedDelay(a.delay, a.exponent);
    hide AckWriter.EncodedDelay, AckWriter.EncodeFields, AckWriter.Enc, AckWriter.Largest;
    AckWriter.FieldsSize(a.acks, |blocks|, delay);
    AckWriter.FieldsSize(a.acks, 1, delay);
  }

  lemma NoPaddings(ps: seq<Piece>)
    ensures ps + Paddings(0) == ps
  {
  }

  lemma MorePaddings(ps: seq<Piece>, m: nat, n: nat)
    ensures ps + Paddings(m) + Paddings(n) == ps + Paddings(m + n)
  {
    PaddingsJoin(m, n);
    assert ps + Paddings(m) + Paddings(n) == ps + (Paddings(m) + Paddings(n));
  }

  lemma {:induction false} PaddingsJoin(m: nat, n: nat)
    ensures Paddings(m) + Paddings(n) == Paddings(m + n)
    decreases n
  {
    if n > 0 {
      PaddingsJoin(m, n - 1);
      assert Paddings(m) + (Paddings(n - 1) + [Piece(Padding, 1)]) == Paddings(m) + Paddings(n - 1) + [Piece(Padding, 1)];
    }
  }

  lemma RoomWithin(remaining: nat, diff: nat)
    ensures Room(remaining, diff) <= remaining
  {
  }

  lemma RoomShrinks(remaining: nat, before: nat, diff: nat)
    requires remaining <= before
    ensures Room(remaining, diff) <= Room(before, diff)
  {
  }

  lemma PiecesStep(asks: seq<Ask>, k: nat, remaining: nat, diff: nat)
    requires k < |asks|
    ensures var size := Taken(asks[k], Room(remaining, diff));
            Pieces(asks, k, remaining, diff) ==
            (if size > 0 then [Piece(Other, size)] else []) +
            Pieces(asks, k + 1, if size <= remaining then remaining - size else 0, diff)
  {
    hide Taken;
  }

  lemma PiecesEnd(asks: seq<Ask>, remaining: nat, diff: nat)
    ensures Pieces(asks, |asks|, remaining, diff) == []
  {
  }

  /** What is pending when a packet is built; `sample` is the padding that header protection needs. */
  datatype Plan = Plan(header: nat, fixedPadding: nat, first: seq<Ask>, ack: Option<AckAsk>, others: seq<Ask>,
                       fill: bool, modulo: nat, sample: nat)
}
