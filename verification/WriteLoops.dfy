/**
 The write loop for a client that is not validated yet (quic/api/QuicTransportFunctions.cpp): what it grants a
 packet, and how far the bytes sent can get past the limit.
 */
module WriteLoops {
  import opened Prelude
  import opened Varint
  import opened PacketSpace
  import opened PacketRebuilder
  import WritableBytes

  /** A packet with new frames, or a clone of a packet of the size given. */
  datatype Build =
    | NewPacket(plan: Plan)
    | ClonePacket(original: nat, header: nat, parts: seq<Part>, ack: Option<AckAsk>, initial: bool, sample: nat)

  ghost predicate BuildOk(b: Build, overhead: nat) {
    match b
    case NewPacket(plan) => plan.header > 0 && (plan.ack.Some? ==> AckOk(plan.ack.value))
    case ClonePacket(original, header, parts, ack, _, _) =>
      header > 0 && original > overhead && PartsOk(parts) && (ack.Some? ==> AckOk(ack.value))
  }

  /** A packet sent: its size, and whether it held only acknowledgements and padding. */
  datatype Sent = Sent(size: nat, pure: bool)

  function SentBytes(log: seq<Sent>): nat { if log == [] then 0 else SentBytes(log[..|log| - 1]) + log[|log| - 1].size }

  function PureBytes(log: seq<Sent>): nat {
    if log == [] then 0 else PureBytes(log[..|log| - 1]) + if log[|log| - 1].pure then log[|log| - 1].size else 0
  }

  /** What the header and the cipher leave of a datagram. */
  function BodySpace(packetLen: nat, overhead: nat, header: nat): nat {
    if overhead + header <= packetLen then packetLen - overhead - header else 0
  }

  /**
   There is a packet to build: below the limit anything that fits the datagram; at the limit only padding the plan asks for
   and acknowledgements. A clone needs a datagram for the original, and all its frames must go on.
   */
  ghost predicate CanBuild(b: Build, belowLimit: bool, packetLen: nat, overhead: nat)
    requires BuildOk(b, overhead)
  {
    match b
    case NewPacket(plan) =>
      var space := BodySpace(packetLen, overhead, plan.header);
      || (plan.fixedPadding > 0 && space > 0)
      || (plan.ack.Some? && AckFits(plan.ack.value, space))
      || (belowLimit && (exists k :: 0 <= k < |plan.first| && Taken(plan.first[k], space) > 0))
      || (belowLimit && (exists k :: 0 <= k < |plan.others| && Taken(plan.others[k], space) > 0))
    case ClonePacket(original, header, parts, ack, _, _) =>
      var space := BodySpace(packetLen, overhead, header);
      belowLimit && original <= packetLen && AllGoOn(parts, space) && exists k :: 0 <= k < |parts| && Carries(parts, k, space)
  }

  /** Arithmetic on words does not wrap. */
  predicate NoWrap(limit: nat, packetLen: nat) { limit + packetLen - 1 <= WritableBytes.MAX64 }

  /** The bytes granted to a packet: what may be written, and the cipher's share of it. */
  function Grant(limit: nat, sent: nat, packetLen: nat, overhead: nat): nat
    requires packetLen > 0
  {
    var writable := Min(packetLen, WritableBytes.UnvalidatedClient(Some(limit), sent, packetLen));
    if writable < overhead then 0 else writable - overhead
  }

  lemma GrantExactly(limit: nat, sent: nat, packetLen: nat, overhead: nat)
    requires packetLen > 0 && overhead <= packetLen && NoWrap(limit, packetLen)
    ensures Grant(limit, sent, packetLen, overhead) == if sent < limit then packetLen - overhead else 0
  {
    hide WritableBytes.UnvalidatedClient;
    GrantIsWholePacket(limit, sent, packetLen);
  }

  /** A packet with new frames is not empty exactly when there was one to build. */
  lemma NewPacketExactly(plan: Plan, belowLimit: bool, packetLen: nat, overhead: nat, pieces: seq<Piece>, ackSize: nat, tail: nat)
    requires overhead <= packetLen <= TWO_BYTE_LIMIT && BuildOk(NewPacket(plan), overhead)
    requires var writable := if belowLimit then packetLen - overhead else 0;
             var space := BodySpace(packetLen, overhead, plan.header);
             Filled(plan, if writable > plan.header then writable - plan.header else 0, space, pieces, ackSize, tail)
    ensures pieces != [] <==> CanBuild(NewPacket(plan), belowLimit, packetLen, overhead)
  {
    var writable := if belowLimit then packetLen - overhead else 0;
    var space := BodySpace(packetLen, overhead, plan.header);
    var w := if writable > plan.header then writable - plan.header else 0;
    assert w <= space && Room(space, space - w) == if belowLimit then space else 0;
    hide Taken, AckFits, Filled, Room;
    EmptyExactly(plan, w, space, pieces, ackSize, tail);
    if !belowLimit {
      forall k | 0 <= k < |plan.first| ensures Taken(plan.first[k], 0) == 0 { TakenFits(plan.first[k], 0); }
      forall k | 0 <= k < |plan.others| ensures Taken(plan.others[k], 0) == 0 { TakenFits(plan.others[k], 0); }
    }
  }

  /** One pass of the write loop: a packet is built exactly when there is one to build. */
  method BuildPacket(b: Build, limit: nat, sent: nat, packetLen: nat, overhead: nat) returns (r: Option<Sent>)
    requires 0 < packetLen <= TWO_BYTE_LIMIT && overhead <= packetLen && BuildOk(b, overhead)
    ensures r.Some? ==> r.value.size <= packetLen
    ensures r.Some? && !r.value.pure ==> sent < limit
    ensures NoWrap(limit, packetLen) ==> (r.Some? <==> CanBuild(b, sent < limit, packetLen, overhead))
  {
    hide WritableBytes.RoundUp, AckOk, FateOf, Written, Bytes, OtherBytes, Filled, Grant, AckFits;
    var writable := Grant(limit, sent, packetLen, overhead);
    if sent >= limit { NothingPastLimit(limit, sent, packetLen, overhead); }
    if NoWrap(limit, packetLen) { GrantExactly(limit, sent, packetLen, overhead); }
    var builder;
    match b
    case NewPacket(plan) => {
      builder := new PacketBuilder(packetLen, overhead, plan.header);
      var ackSize, tail := builder.ScheduleFrames(plan, writable);
      if NoWrap(limit, packetLen) {
        NewPacketExactly(plan, sent < limit, packetLen, overhead, builder.pieces, ackSize, tail);
      }
      if builder.pieces == [] {
        return None;
      }
      return Some(Sent(builder.EncodedSize(), OtherBytes(builder.pieces) == 0));
    }
    case ClonePacket(original, header, parts, ack, initial, sample) => {
      if original > writable + overhead {
        return None;
      }
      builder := new PacketBuilder(packetLen, overhead, header);
      var result := Rebuild(builder, parts, ack, initial);
      if result == Clone { SomethingWritten(parts, BodySpace(packetLen, overhead, header), |parts|); }
      if result != Clone || builder.pieces == [] {
        return None;
      }
      var _ := builder.PadForSample(sample);
      return Some(Sent(builder.EncodedSize(), OtherBytes(builder.pieces) == 0));
    }
  }

  lemma NothingPastLimit(limit: nat, sent: nat, packetLen: nat, overhead: nat)
    requires packetLen > 0 && sent >= limit
    ensures Grant(limit, sent, packetLen, overhead) == 0
  {
  }

  /** A clone with a frame that is written is not empty. */
  lemma {:induction false} SomethingWritten(parts: seq<Part>, space: nat, k: nat)
    requires k <= |parts| && exists j :: 0 <= j < k && Carries(parts, j, space)
    ensures Written(parts, k, space) != []
    decreases k
  {
    hide FateOf;
    var j :| 0 <= j < k && Carries(parts, j, space);
    if j < k - 1 { SomethingWritten(parts, space, k - 1); }
  }

  /** Every packet with frames other than acknowledgements and padding started below the limit. */
  ghost predicate StartsBelow(log: seq<Sent>, start: nat, limit: nat) {
    forall i :: 0 <= i < |log| && !log[i].pure ==> start + SentBytes(log[..i]) < limit
  }

  lemma LogSnoc(log: seq<Sent>, x: Sent, start: nat, limit: nat)
    requires StartsBelow(log, start, limit) && (!x.pure ==> start + SentBytes(log) < limit)
    ensures StartsBelow(log + [x], start, limit) && SentBytes(log + [x]) == SentBytes(log) + x.size
    ensures PureBytes(log + [x]) == PureBytes(log) + if x.pure then x.size else 0
  {
    var all := log + [x];
    assert all[..|log|] == log;
    forall i | 0 <= i < |all| && !all[i].pure ensures start + SentBytes(all[..i]) < limit {
      if i < |log| { assert all[..i] == log[..i] && all[i] == log[i]; }
    }
  }

  lemma NothingSent()
    ensures SentBytes([]) == 0 && PureBytes([]) == 0
  {
  }

  /**
   The write loop for a client that is not validated yet. Whatever is pending, no packet is larger
   than a datagram, clones included; a packet with frames other than acknowledgements and padding
   starts below the limit; and so the limit is passed by less than one packet and the packets of
   pure acknowledgements. The loop ends only with the last packet, or where there is none to build.
   */
  method WriteLoop(builds: seq<Build>, limit: nat, start: nat, packetLen: nat, overhead: nat) returns (log: seq<Sent>, sent: nat)
    requires 0 < packetLen <= TWO_BYTE_LIMIT && overhead <= packetLen
    requires forall i :: 0 <= i < |builds| ==> BuildOk(builds[i], overhead)
    ensures sent == start + SentBytes(log)
    ensures forall i :: 0 <= i < |log| ==> log[i].size <= packetLen
    ensures StartsBelow(log, start, limit)
    ensures start < limit + packetLen ==> sent < limit + packetLen + PureBytes(log)
    ensures |log| <= |builds|
    ensures NoWrap(limit, packetLen) && |log| < |builds| ==> !CanBuild(builds[|log|], sent < limit, packetLen, overhead)
  {
    hide CanBuild, BuildOk, SentBytes, PureBytes;
    log, sent := [], start;
    NothingSent();
    for i := 0 to |builds|
      invariant sent == start + SentBytes(log) && |log| == i
      invariant forall i :: 0 <= i < |log| ==> log[i].size <= packetLen
      invariant StartsBelow(log, start, limit)
      invariant start < limit + packetLen ==> sent < limit + packetLen + PureBytes(log)
    {
      var r := BuildPacket(builds[i], limit, sent, packetLen, overhead);
      if r.None? {
        return;
      }
      LogSnoc(log, r.value, start, limit);
      log := log + [r.value];
      sent := sent + r.value.size;
    }
  }

  /** Below the limit a whole datagram is granted, at the limit nothing: a clone that fits its datagram fits its grant. */
  lemma GrantIsWholePacket(limit: nat, sent: nat, packetLen: nat)
    requires packetLen > 0 && limit + packetLen - 1 <= WritableBytes.MAX64
    ensures Min(packetLen, WritableBytes.UnvalidatedClient(Some(limit), sent, packetLen)) == if sent < limit then packetLen else 0
  {
    hide WritableBytes.RoundUp;
    WritableBytes.LimitIsExact(limit, sent, packetLen);
  }
}
