/**
 What may follow the blocks of an ACK frame on the wire, and that it is read back (quic/codec/Decode.cpp:
 `decodeAckFrameWithECN`, `decodeAckFrameWithReceivedTimestamps`, `decodeAckExtendedFrame`): ECN counts by section 19.3.2
 of RFC 9000, receive timestamps, and the feature word of the extended frame.
 */
module AckExtras {
  import opened Prelude
  import opened Varint
  import opened AckFrames
  import opened FrameReaders
  import opened FrameWriters
  import Outstanding
  import AckWriter

  /** The ECN counts: ECT(0), ECT(1), ECN-CE. */
  function EcnWire(e: Ecn): seq<byte>
    requires AllFit([e.ect0, e.ect1, e.ce])
  {
    EncAll([e.ect0, e.ect1, e.ce])
  }

  lemma EcnTravels(e: Ecn, rest: seq<byte>)
    requires AllFit([e.ect0, e.ect1, e.ce])
    ensures ReadEcn(EcnWire(e) + rest) == Some((e, rest))
  {
    hide EncAll, ReadInts, IsSuffix;
    IntsTravel([e.ect0, e.ect1, e.ce], rest);
  }

  /** A range of timestamps as it is written: the gap in front of it, and deltas still to be scaled. */
  datatype RawRange = RawRange(gap: nat, deltas: seq<nat>)

  ghost predicate RangeOk(r: RawRange, exponent: nat) {
    && r.gap <= EIGHT_BYTE_LIMIT && |r.deltas| <= EIGHT_BYTE_LIMIT && AllFit(r.deltas)
    && forall i :: 0 <= i < |r.deltas| ==> ConvertDelay(exponent, r.deltas[i]).Some?
  }

  /** The gap, the number of deltas, and the deltas. */
  function RangeWire(r: RawRange): seq<byte>
    requires r.gap <= EIGHT_BYTE_LIMIT && |r.deltas| <= EIGHT_BYTE_LIMIT && AllFit(r.deltas)
  {
    EncAll([r.gap, |r.deltas|]) + EncAll(r.deltas)
  }

  /** The range with its deltas in microseconds. */
  function Scaled(r: RawRange, exponent: nat): TimestampRange
    requires RangeOk(r, exponent)
  {
    TimestampRange(r.gap, |r.deltas|, seq(|r.deltas|, i requires 0 <= i < |r.deltas| => ConvertDelay(exponent, r.deltas[i]).value))
  }

  lemma RangeTravels(r: RawRange, exponent: nat, rest: seq<byte>)
    requires RangeOk(r, exponent)
    ensures ReadRange(RangeWire(r) + rest, exponent) == Some((Scaled(r, exponent), rest))
  {
    hide EncAll, ReadInts, IsSuffix, ReadDeltas, ConvertDelay;
    var (head, tail) := (EncAll([r.gap, |r.deltas|]), EncAll(r.deltas) + rest);
    assert RangeWire(r) + rest == head + tail;
    IntsTravel([r.gap, |r.deltas|], tail);
    IntsTravel(r.deltas, rest);
    DeltasExact(tail, |r.deltas|, exponent);
    var deltas := ReadDeltas(tail, |r.deltas|, exponent).value.0;
    assert deltas == Scaled(r, exponent).deltas;
  }

  ghost predicate RangesOk(rs: seq<RawRange>, exponent: nat) { forall i :: 0 <= i < |rs| ==> RangeOk(rs[i], exponent) }

  function RangesWire(rs: seq<RawRange>): seq<byte>
    requires forall i :: 0 <= i < |rs| ==> rs[i].gap <= EIGHT_BYTE_LIMIT && |rs[i].deltas| <= EIGHT_BYTE_LIMIT && AllFit(rs[i].deltas)
  {
    if rs == [] then [] else RangeWire(rs[0]) + RangesWire(rs[1..])
  }

  function AllScaled(rs: seq<RawRange>, exponent: nat): (r: seq<TimestampRange>)
    requires RangesOk(rs, exponent)
    ensures |r| == |rs| && forall i :: 0 <= i < |rs| ==> r[i] == Scaled(rs[i], exponent)
  {
    if rs == [] then [] else [Scaled(rs[0], exponent)] + AllScaled(rs[1..], exponent)
  }

  lemma {:induction false} RangesTravel(rs: seq<RawRange>, exponent: nat, rest: seq<byte>)
    requires RangesOk(rs, exponent)
    ensures ReadRanges(RangesWire(rs) + rest, |rs|, exponent) == Some((AllScaled(rs, exponent), rest))
    decreases |rs|
  {
    hide RangeWire, ReadRange, IsSuffix, Scaled, RangeOk;
    if rs == [] {
      assert [] + rest == rest;
    } else {
      FirstOk(rs, exponent);
      var more := RangesWire(rs[1..]) + rest;
      assert RangesWire(rs) + rest == RangeWire(rs[0]) + more;
      RangeTravels(rs[0], exponent, more);
      RangesTravel(rs[1..], exponent, rest);
    }
  }

  lemma FirstOk(rs: seq<RawRange>, exponent: nat)
    requires rs != [] && RangesOk(rs, exponent)
    ensures RangeOk(rs[0], exponent) && RangesOk(rs[1..], exponent)
    ensures rs[0].gap <= EIGHT_BYTE_LIMIT && |rs[0].deltas| <= EIGHT_BYTE_LIMIT && AllFit(rs[0].deltas)
    ensures forall i :: 0 <= i < |rs| ==> rs[i].gap <= EIGHT_BYTE_LIMIT && |rs[i].deltas| <= EIGHT_BYTE_LIMIT && AllFit(rs[i].deltas)
  {
    forall i | 0 <= i < |rs| - 1 ensures RangeOk(rs[1..][i], exponent) { assert rs[1..][i] == rs[i + 1]; }
    assert RangeOk(rs[0], exponent);
  }

  /** Receive timestamps: the latest packet, its time, the number of ranges, and the ranges. */
  datatype RawTimestamps = RawTimestamps(latestNum: nat, latestTime: nat, ranges: seq<RawRange>)

  ghost predicate TimestampsOk(t: RawTimestamps, exponent: nat) {
    AllFit([t.latestNum, t.latestTime, |t.ranges|]) && RangesOk(t.ranges, exponent)
  }

  ghost function TimestampsWire(t: RawTimestamps, exponent: nat): seq<byte>
    requires TimestampsOk(t, exponent)
  {
    EncAll([t.latestNum, t.latestTime, |t.ranges|]) + RangesWire(t.ranges)
  }

  lemma TimestampsTravel(t: RawTimestamps, exponent: nat, rest: seq<byte>)
    requires TimestampsOk(t, exponent)
    ensures ReadTimestamps(TimestampsWire(t, exponent) + rest, exponent) ==
            Some((Timestamps(t.latestNum, t.latestTime, AllScaled(t.ranges, exponent)), rest))
  {
    hide EncAll, ReadInts, IsSuffix, ReadRanges, RangesWire, RangesOk, AllScaled;
    assert RangesOk(t.ranges, exponent);
    var (head, tail) := ([t.latestNum, t.latestTime, |t.ranges|], RangesWireOk(t.ranges, exponent) + rest);
    assert TimestampsWire(t, exponent) + rest == EncAll(head) + tail;
    IntsTravel(head, tail);
    RangesTravel(t.ranges, exponent, rest);
  }

  ghost function RangesWireOk(rs: seq<RawRange>, exponent: nat): (r: seq<byte>)
    requires RangesOk(rs, exponent)
    ensures forall i :: 0 <= i < |rs| ==> rs[i].gap <= EIGHT_BYTE_LIMIT && |rs[i].deltas| <= EIGHT_BYTE_LIMIT && AllFit(rs[i].deltas)
    ensures r == RangesWire(rs)
  {
    RangesWire(rs)
  }

  // ------------------------------------------------------------------ the four ACK frames

  /** What each type of ACK frame carries behind its blocks; the extended frame tells by its feature word. */
  predicate HasEcn(t: nat, features: nat) { t == 0x03 || (t == 0xB1 && features % 2 == 1) }

  predicate HasTimestamps(t: nat, features: nat) { t == 0xB0 || (t == 0xB1 && features / 2 % 2 == 1) }

  ghost function ExtrasWire(t: nat, features: nat, ecn: Ecn, times: RawTimestamps, exponent: nat): seq<byte>
    requires features <= EIGHT_BYTE_LIMIT && AllFit([ecn.ect0, ecn.ect1, ecn.ce]) && TimestampsOk(times, exponent)
  {
    (if t == 0xB1 then EncAll([features]) else []) +
    ((if HasEcn(t, features) then EcnWire(ecn) else []) +
     (if HasTimestamps(t, features) then TimestampsWire(times, exponent) else []))
  }

  lemma ExtrasOf(t: nat, hasEcn: bool, hasTimes: bool, ecn: Ecn, times: RawTimestamps, ack: ReadAckFrame, data: seq<byte>,
                 rest: seq<byte>, p: Params)
    requires AllFit([ecn.ect0, ecn.ect1, ecn.ce]) && TimestampsOk(times, p.TimestampsExponent())
    requires IsSuffix((if hasEcn then EcnWire(ecn) else []) +
                      ((if hasTimes then TimestampsWire(times, p.TimestampsExponent()) else []) + rest), data)
    ensures ReadExtras(t, ack, data,
                       (if hasEcn then EcnWire(ecn) else []) + ((if hasTimes then TimestampsWire(times, p.TimestampsExponent()) else []) + rest),
                       hasEcn, hasTimes, p) ==
            Some((Ack(t, ack, if hasEcn then Some(ecn) else None,
                      if hasTimes
                      then Some(Timestamps(times.latestNum, times.latestTime, AllScaled(times.ranges, p.TimestampsExponent()))) else None),
                  rest))
  {
    hide EcnWire, TimestampsWire, ReadEcn, ReadTimestamps, IsSuffix, AllScaled;
    var tail := (if hasTimes then TimestampsWire(times, p.TimestampsExponent()) else []) + rest;
    if hasEcn { EcnTravels(ecn, tail); } else { assert [] + tail == tail; }
    if hasTimes { TimestampsTravel(times, p.TimestampsExponent(), rest); } else { assert [] + rest == rest; }
  }

  predicate IsAck(t: nat) { t == 0x02 || t == 0x03 || t == 0xB0 || t == 0xB1 }

  /** Behind the blocks the extended frame has its feature word, the others go straight to what their type says. */
  lemma BehindBlocks(t: nat, features: nat, data: seq<byte>, ack: ReadAckFrame, extras: seq<byte>, body: seq<byte>, p: Params)
    requires IsAck(t) && ReadFrame(data, p.AckExponent()) == Some((ack, extras)) && IsSuffix(body, data)
    requires if t == 0xB1 then ReadInts(extras, 1) == Some(([features], body)) && Within(features, p.features) else extras == body
    ensures ReadOther(t, data, p) == ReadExtras(t, ack, data, body, HasEcn(t, features), HasTimestamps(t, features), p)
  {
    hide ReadFrame, ReadInts, ReadExtras, Within, IsSuffix;
    assert IntCount(t).None?;
  }

  lemma ExtrasAtEnd(fields: seq<byte>, word: seq<byte>, e: seq<byte>, s: seq<byte>, rest: seq<byte>)
    ensures (word + (e + s)) + rest == word + (e + (s + rest))
    ensures IsSuffix(e + (s + rest), fields + ((word + (e + s)) + rest))
  {
  }

  /** The frame a peer makes of an acknowledgement with extras. */
  ghost function ReadBack(t: nat, blocks: seq<Outstanding.Block>, delay: nat, features: nat, ecn: Ecn, times: RawTimestamps,
                          p: Params): QuicFrame
    requires blocks != [] && ConvertDelay(p.AckExponent(), delay).Some? && RangesOk(times.ranges, p.TimestampsExponent())
  {
    Ack(t, ReadAckFrame(blocks[0].end, Believed(ConvertDelay(p.AckExponent(), delay).value), blocks),
        if HasEcn(t, features) then Some(ecn) else None,
        if HasTimestamps(t, features)
        then Some(Timestamps(times.latestNum, times.latestTime, AllScaled(times.ranges, p.TimestampsExponent()))) else None)
  }

  /** Every ACK frame with its extras is read back, the extended one if its features were agreed on. */
  lemma AckExtrasTravel(t: nat, blocks: seq<Outstanding.Block>, delay: nat, features: nat, ecn: Ecn, times: RawTimestamps,
                        rest: seq<byte>, p: Params)
    requires IsAck(t) && AckWriter.Encodable(blocks, delay) && ConvertDelay(p.AckExponent(), delay).Some?
    requires features <= EIGHT_BYTE_LIMIT && (t == 0xB1 ==> Within(features, p.features))
    requires AllFit([ecn.ect0, ecn.ect1, ecn.ce]) && TimestampsOk(times, p.TimestampsExponent())
    ensures ReadOther(t, AckWriter.EncodeFields(blocks, delay) + (ExtrasWire(t, features, ecn, times, p.TimestampsExponent()) + rest), p) ==
            Some((ReadBack(t, blocks, delay, features, ecn, times, p), rest))
  {
    assert blocks != [];
    assert RangesOk(times.ranges, p.TimestampsExponent());
    hide AckWriter.EncodeFields, AckWriter.Encodable, ConvertDelay, ReadFrame, EcnWire, TimestampsWire, TimestampsOk, AllScaled;
    hide EncAll, ReadInts, ReadExtras, Believed, Within, IsSuffix, HasEcn, HasTimestamps, ReadOther, RangesOk;
    var (fields, exponent) := (AckWriter.EncodeFields(blocks, delay), p.TimestampsExponent());
    var (e, s) := (if HasEcn(t, features) then EcnWire(ecn) else [], if HasTimestamps(t, features) then TimestampsWire(times, exponent) else []);
    var word := if t == 0xB1 then EncAll([features]) else [];
    var (extras, body) := (word + (e + s) + rest, e + (s + rest));
    ExtrasAtEnd(fields, word, e, s, rest);
    AckWriter.FrameTravels(blocks, delay, p.AckExponent(), extras);
    var ack := ReadAckFrame(blocks[0].end, Believed(ConvertDelay(p.AckExponent(), delay).value), blocks);
    if t == 0xB1 { IntsTravel([features], body); } else { assert [] + body == body; }
    BehindBlocks(t, features, fields + extras, ack, extras, body, p);
    ExtrasOf(t, HasEcn(t, features), HasTimestamps(t, features), ecn, times, ack, fields + extras, rest, p);
  }
}
