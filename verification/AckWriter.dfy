/** Writing ACK frames (quic/codec/QuicWriteCodec.cpp), and their way to the peer and back. */
module AckWriter {
  import opened Prelude
  import opened Varint
  import opened Outstanding
  import opened AckFrames
  import opened IntervalSets

  /** The `n` largest intervals, from the largest down. */
  function Largest(acks: seq<Interval>, n: nat): (r: seq<Block>)
    requires n <= |acks|
    ensures |r| == n && forall k :: 0 <= k < n ==> r[k] == AsBlock(acks[|acks| - 1 - k])
  {
    seq(n, k requires 0 <= k < n => AsBlock(acks[|acks| - 1 - k]))
  }

  function AsBlock(i: Interval): Block { Block(i.start, i.end) }

  function Enc(v: nat): (r: seq<byte>)
    requires v <= EIGHT_BYTE_LIMIT
    ensures Size(v) == Some(|r|)
  {
    Encode(v).value
  }

  /** The gap and length fields of the blocks from `k` on. */
  function EncodeBlocks(blocks: seq<Block>, k: nat): seq<byte>
    requires Gapped(blocks) && 1 <= k <= |blocks|
    decreases |blocks| - k
  {
    if k == |blocks| then []
    else
      Enc(GapAt(blocks, k)) + Enc(blocks[k].end - blocks[k].start) + EncodeBlocks(blocks, k + 1)
  }

  /** Numbers missing above block `k`, less one. */
  function GapAt(blocks: seq<Block>, k: nat): (r: nat)
    requires Gapped(blocks) && 1 <= k < |blocks|
    ensures r <= EIGHT_BYTE_LIMIT
  {
    assert blocks[k - 1 + 1].end + 2 <= blocks[k - 1].start;
    blocks[k - 1].start - blocks[k].end - 2
  }

  ghost predicate Encodable(blocks: seq<Block>, delay: nat) {
    Gapped(blocks) && blocks != [] && |blocks| - 1 <= EIGHT_BYTE_LIMIT && delay <= EIGHT_BYTE_LIMIT
  }

  function EncodeFields(blocks: seq<Block>, delay: nat): seq<byte>
    requires Encodable(blocks, delay)
  {
    Enc(blocks[0].end) + (Enc(delay) + (Enc(|blocks| - 1) + (Enc(blocks[0].end - blocks[0].start) + EncodeBlocks(blocks, 1))))
  }

  // ------------------------------------------------------------------ reading back

  lemma ReadEnc(v: nat, rest: seq<byte>)
    requires v <= EIGHT_BYTE_LIMIT
    ensures ReadInt(Enc(v) + rest) == Some((v, rest))
  {
    hide Decode, EncodeSized;
    EncodeIsShortest(v, rest, [], 0);
    assert (Enc(v) + rest)[|Enc(v)|..] == rest;
  }

  lemma {:induction false} BlocksTravel(blocks: seq<Block>, k: nat, rest: seq<byte>)
    requires Gapped(blocks) && 1 <= k <= |blocks|
    ensures ReadBlocks(EncodeBlocks(blocks, k) + rest, |blocks| - k, blocks[k - 1].start) == Some((blocks[k..], rest))
    decreases |blocks| - k
  {
    hide ReadInt, Enc, Gapped;
    if k == |blocks| {
      assert EncodeBlocks(blocks, k) + rest == rest && blocks[k..] == [];
    } else {
      BlocksTravel(blocks, k + 1, rest);
      OneBlock(blocks, k, EncodeBlocks(blocks, k + 1) + rest);
      var gap, len := Enc(GapAt(blocks, k)), Enc(LengthAt(blocks, k));
      Append3(gap, len, EncodeBlocks(blocks, k + 1), rest);
      assert blocks[k..] == [blocks[k]] + blocks[k + 1..];
    }
  }

  lemma Append3(a: seq<byte>, b: seq<byte>, c: seq<byte>, rest: seq<byte>)
    ensures a + b + c + rest == a + (b + (c + rest))
  {
  }

  function LengthAt(blocks: seq<Block>, k: nat): (r: nat)
    requires Gapped(blocks) && k < |blocks|
    ensures r <= EIGHT_BYTE_LIMIT && r == blocks[k].end - blocks[k].start
  {
    blocks[k].end - blocks[k].start
  }

  lemma OneBlock(blocks: seq<Block>, k: nat, rest: seq<byte>)
    requires Gapped(blocks) && 1 <= k < |blocks|
    ensures ReadBlock(Enc(GapAt(blocks, k)) + (Enc(LengthAt(blocks, k)) + rest), blocks[k - 1].start) == Some((blocks[k], rest))
  {
    hide ReadInt, Enc;
    ReadEnc(GapAt(blocks, k), Enc(LengthAt(blocks, k)) + rest);
    ReadEnc(LengthAt(blocks, k), rest);
    assert blocks[k - 1 + 1].end + 2 <= blocks[k - 1].start;
  }

  lemma HeadTravels(a: nat, b: nat, c: nat, d: nat, rest: seq<byte>)
    requires a <= EIGHT_BYTE_LIMIT && b <= EIGHT_BYTE_LIMIT && c <= EIGHT_BYTE_LIMIT && d <= EIGHT_BYTE_LIMIT
    ensures ReadHead(Enc(a) + (Enc(b) + (Enc(c) + (Enc(d) + rest)))) == Some(Head(a, b, c, d, rest))
  {
    hide ReadInt, Enc;
    ReadEnc(d, rest);
    ReadEnc(c, Enc(d) + rest);
    ReadEnc(b, Enc(c) + (Enc(d) + rest));
    ReadEnc(a, Enc(b) + (Enc(c) + (Enc(d) + rest)));
  }

  /** Any blocks with gaps are read back as they were written, and nothing after the frame is touched. */
  lemma FrameTravels(blocks: seq<Block>, delay: nat, exponent: nat, rest: seq<byte>)
    requires Encodable(blocks, delay)
    requires ConvertDelay(exponent, delay).Some?
    ensures ReadFrame(EncodeFields(blocks, delay) + rest, exponent) ==
            Some((ReadAckFrame(blocks[0].end, Believed(ConvertDelay(exponent, delay).value), blocks), rest))
  {
    hide ReadInt, Enc, ReadHead, ReadBlocks, EncodeBlocks, ConvertDelay;
    BlocksTravel(blocks, 1, rest);
    var (largest, len) := (blocks[0].end, blocks[0].end - blocks[0].start);
    HeadTravels(largest, delay, |blocks| - 1, len, EncodeBlocks(blocks, 1) + rest);
    AppendLast(Enc(largest), Enc(delay), Enc(|blocks| - 1), Enc(len), EncodeBlocks(blocks, 1), rest);
    assert [Block(largest - len, largest)] + blocks[1..] == blocks;
  }

  lemma AppendLast(a: seq<byte>, b: seq<byte>, c: seq<byte>, d: seq<byte>, e: seq<byte>, rest: seq<byte>)
    ensures a + (b + (c + (d + e))) + rest == a + (b + (c + (d + (e + rest))))
  {
  }

  /** The delay shifted right by the exponent. */
  function EncodedDelay(ackDelay: nat, exponent: nat): nat
    decreases exponent
  {
    if exponent == 0 then ackDelay else EncodedDelay(ackDelay / 2, exponent - 1)
  }

  lemma {:induction false} DelayRange(ackDelay: nat, exponent: nat)
    ensures EncodedDelay(ackDelay, exponent) * Pow2(exponent) <= ackDelay < EncodedDelay(ackDelay, exponent) * Pow2(exponent) + Pow2(exponent)
    decreases exponent
  {
    if exponent > 0 {
      DelayRange(ackDelay / 2, exponent - 1);
      var d, q := EncodedDelay(ackDelay / 2, exponent - 1), Pow2(exponent - 1);
      hide Pow2, EncodedDelay;
      assert Pow2(exponent) == 2 * q && EncodedDelay(ackDelay, exponent) == d by { DelayStep(ackDelay, exponent); }
      Twice(d, q);
    }
  }

  lemma DelayStep(ackDelay: nat, exponent: nat)
    requires exponent > 0
    ensures Pow2(exponent) == 2 * Pow2(exponent - 1) && EncodedDelay(ackDelay, exponent) == EncodedDelay(ackDelay / 2, exponent - 1)
  {
  }

  lemma Twice(d: nat, q: nat)
    ensures d * (2 * q) == 2 * (d * q)
  {
  }

  /** A delay survives up to the precision of its exponent. */
  lemma DelayTravels(ackDelay: nat, exponent: nat)
    requires 0 < exponent < 64 && ackDelay <= 0x7FFF_FFFF_FFFF_FFFF
    ensures var r := ConvertDelay(exponent, EncodedDelay(ackDelay, exponent));
            r.Some? && r.value <= ackDelay < r.value + Pow2(exponent)
  {
    hide Pow2, ConvertDelay, EncodedDelay;
    var d := EncodedDelay(ackDelay, exponent);
    DelayRange(ackDelay, exponent);
    DelayExact(exponent, d);
    DelayValue(exponent, d);
  }

  lemma DelayValue(exponent: nat, delay: nat)
    requires 0 < exponent < 64 && ConvertDelay(exponent, delay).Some?
    ensures ConvertDelay(exponent, delay) == Some(delay * Pow2(exponent))
  {
  }

  // ------------------------------------------------------------------ the received set

  lemma LargestGapped(acks: seq<Interval>, n: nat)
    requires Canonical(acks) && n <= |acks| && (acks != [] ==> acks[|acks| - 1].end <= EIGHT_BYTE_LIMIT)
    ensures Gapped(Largest(acks, n))
  {
    var r, l := Largest(acks, n), |acks| - 1;
    forall k | 0 <= k < n ensures r[k].start <= r[k].end <= EIGHT_BYTE_LIMIT {
      assert k == 0 || acks[l - k].end + 1 < acks[l].start;
    }
    forall k | 0 <= k < n - 1 ensures r[k + 1].end + 2 <= r[k].start {
      assert acks[l - k - 1].end + 1 < acks[l - k].start;
    }
  }

  /** When every interval fits, the blocks name exactly the numbers received. */
  lemma LargestCovers(acks: seq<Interval>, num: nat)
    ensures Has(acks, num) <==> exists k :: 0 <= k < |acks| && Largest(acks, |acks|)[k].Has(num)
  {
    var r, l := Largest(acks, |acks|), |acks| - 1;
    if Has(acks, num) {
      var i :| 0 <= i < |acks| && acks[i].Has(num);
      assert r[l - i].Has(num);
    }
    if k :| 0 <= k < |acks| && r[k].Has(num) { assert acks[l - k].Has(num); }
  }

  // ------------------------------------------------------------------ the writer

  /** Bytes of a frame's fields after the type, for a frame of these blocks. */
  function BlocksSize(blocks: seq<Block>, k: nat): nat
    requires Gapped(blocks) && 1 <= k <= |blocks|
  {
    if k == 1 then 0
    else BlocksSize(blocks, k - 1) + Size(GapAt(blocks, k - 1)).value + Size(LengthAt(blocks, k - 1)).value
  }

  /** What the first `k` blocks need beyond a frame of one block. */
  function Extra(blocks: seq<Block>, k: nat): int
    requires Gapped(blocks) && 1 <= k <= |blocks| && k - 1 <= EIGHT_BYTE_LIMIT
  {
    BlocksSize(blocks, k) + Size(k - 1).value - 1
  }

  /**
   `fillFrameWithAckBlocks`: how many of the largest intervals fit. It never fails the check that
   consecutive intervals are two apart, and stops only where the next block would not fit.
   */
  method FillFrame(acks: seq<Interval>, bytesLimit: nat) returns (n: nat)
    requires Canonical(acks) && acks != [] && acks[|acks| - 1].end <= EIGHT_BYTE_LIMIT && |acks| - 1 <= EIGHT_BYTE_LIMIT
    ensures 1 <= n <= |acks| && Gapped(Largest(acks, |acks|)) && Extra(Largest(acks, |acks|), n) <= bytesLimit
    ensures n < |acks| ==> Extra(Largest(acks, |acks|), n + 1) > bytesLimit
  {
    hide Canonical, Gapped;
    LargestGapped(acks, |acks|);
    ghost var all := Largest(acks, |acks|);
    var l := |acks| - 1;
    var limit: int := bytesLimit;
    var current := acks[l].start;
    n := 1;
    while n < |acks|
      invariant 1 <= n <= |acks| && current == acks[l - (n - 1)].start
      invariant 0 <= limit == bytesLimit - Extra(all, n)
    {
      var block := acks[l - n];
      assert block.start == all[n].start && block.end == all[n].end && current == all[n - 1].start;
      assert all[n].end + 2 <= all[n - 1].start && all[n].start <= all[n].end by { GapHere(all, n); }
      var gap := current - block.end - 2;
      var len := block.end - block.start;
      assert gap == GapAt(all, n) && len == LengthAt(all, n);
      var additional := Size(gap).value + Size(len).value + (Size(n).value - Size(n - 1).value);
      assert Extra(all, n + 1) == Extra(all, n) + additional;
      if limit < additional {
        break;
      }
      limit := limit - additional;
      current := block.start;
      n := n + 1;
    }
  }

  lemma GapHere(blocks: seq<Block>, k: nat)
    requires Gapped(blocks) && 1 <= k < |blocks|
    ensures blocks[k].end + 2 <= blocks[k - 1].start && blocks[k].start <= blocks[k].end
  {
    assert blocks[k - 1 + 1].end + 2 <= blocks[k - 1].start;
  }

  lemma SizeStep(blocks: seq<Block>, k: nat)
    requires Gapped(blocks) && 1 <= k < |blocks|
    ensures |EncodeBlocks(blocks, k)| == Size(GapAt(blocks, k)).value + Size(LengthAt(blocks, k)).value + |EncodeBlocks(blocks, k + 1)|
    ensures BlocksSize(blocks, k + 1) == BlocksSize(blocks, k) + Size(GapAt(blocks, k)).value + Size(LengthAt(blocks, k)).value
  {
    hide Enc, Size, Gapped, GapAt;
    assert |Enc(LengthAt(blocks, k))| == Size(LengthAt(blocks, k)).value;
  }

  /** The bytes of the block fields are as many as were counted. */
  lemma {:induction false} SizeIsLength(blocks: seq<Block>, k: nat)
    requires Gapped(blocks) && 1 <= k <= |blocks|
    ensures |EncodeBlocks(blocks, k)| == BlocksSize(blocks, |blocks|) - BlocksSize(blocks, k)
    decreases |blocks| - k
  {
    hide EncodeBlocks, BlocksSize, Size, Gapped;
    if k == |blocks| {
      NoBlocksLeft(blocks);
    } else {
      SizeIsLength(blocks, k + 1);
      SizeStep(blocks, k);
    }
  }

  lemma NoBlocksLeft(blocks: seq<Block>)
    requires Gapped(blocks) && blocks != []
    ensures EncodeBlocks(blocks, |blocks|) == []
  {
    hide Enc, Gapped, GapAt;
  }

  /** The counted size depends only on the blocks counted. */
  lemma {:induction false} SizeOfPrefix(all: seq<Block>, n: nat, k: nat)
    requires 1 <= k <= n <= |all| && Gapped(all) && Gapped(all[..n])
    ensures BlocksSize(all[..n], k) == BlocksSize(all, k)
  {
    if k > 1 { SizeOfPrefix(all, n, k - 1); }
  }

  ghost predicate IsFrame(bytes: seq<byte>, frameType: nat, blocks: seq<Block>, delay: nat) {
    frameType <= ONE_BYTE_LIMIT && Encodable(blocks, delay) && bytes == Enc(frameType) + EncodeFields(blocks, delay)
  }

  ghost predicate TooLong(frameType: nat, blocks: seq<Block>, delay: nat, space: nat) {
    frameType <= ONE_BYTE_LIMIT && Encodable(blocks, delay) && |Enc(frameType) + EncodeFields(blocks, delay)| > space
  }

  datatype WriteResult = WriteError | NoSpace | Written(bytes: seq<byte>, blocks: seq<Block>)

  /**
   `maybeWriteAckBaseFields`: the frame fits the space, holds as many of the largest intervals as
   fit, and no interval that was not received.
   */
  method MaybeWriteAckBaseFields(acks: seq<Interval>, ackDelay: nat, exponent: nat, frameType: nat, maxSpace: nat)
    returns (r: WriteResult)
    requires Canonical(acks) && acks != [] && frameType <= ONE_BYTE_LIMIT && |acks| - 1 <= EIGHT_BYTE_LIMIT
    ensures r == WriteError <==> acks[|acks| - 1].end > EIGHT_BYTE_LIMIT || EncodedDelay(ackDelay, exponent) > EIGHT_BYTE_LIMIT
    ensures r.Written? ==>
              && 1 <= |r.blocks| <= |acks| && r.blocks == Largest(acks, |r.blocks|)
              && IsFrame(r.bytes, frameType, r.blocks, EncodedDelay(ackDelay, exponent)) && |r.bytes| <= maxSpace
              && (|r.blocks| < |acks| ==> TooLong(frameType, Largest(acks, |r.blocks| + 1), EncodedDelay(ackDelay, exponent), maxSpace))
    ensures r == NoSpace ==> TooLong(frameType, Largest(acks, 1), EncodedDelay(ackDelay, exponent), maxSpace)
  {
    hide Canonical, Gapped, Enc, EncodeFields, EncodedDelay, Size;
    var last := acks[|acks| - 1];
    var delay := EncodedDelay(ackDelay, exponent);
    assert last.start <= last.end by { LastFits(acks); }
    var s1, s2, s3 := Size(last.end), Size(delay), Size(last.end - last.start);
    if s1.None? || s2.None? || s3.None? {
      return WriteError;
    }
    var header := Size(frameType).value + s1.value + s2.value + 1 + s3.value;
    if maxSpace < header {
      FieldsSize(acks, 1, delay);
      return NoSpace;
    }
    var n := FillFrame(acks, maxSpace - header);
    FieldsSize(acks, n, delay);
    if n < |acks| { FieldsSize(acks, n + 1, delay); }
    var blocks := Largest(acks, n);
    r := Written(Enc(frameType) + EncodeFields(blocks, delay), blocks);
  }

  lemma LastFits(acks: seq<Interval>)
    requires Canonical(acks) && acks != []
    ensures acks[|acks| - 1].start <= acks[|acks| - 1].end
  {
  }

  lemma FieldsSize(acks: seq<Interval>, n: nat, delay: nat)
    requires Canonical(acks) && 1 <= n <= |acks| && acks[|acks| - 1].end <= EIGHT_BYTE_LIMIT
    requires n - 1 <= EIGHT_BYTE_LIMIT && delay <= EIGHT_BYTE_LIMIT
    ensures Encodable(Largest(acks, n), delay) && Gapped(Largest(acks, |acks|))
    ensures var last := acks[|acks| - 1];
            && last.start <= last.end
            && |EncodeFields(Largest(acks, n), delay)| ==
               Size(last.end).value + Size(delay).value + 1 + Size(last.end - last.start).value + Extra(Largest(acks, |acks|), n)
  {
    LastFits(acks);
    LargestGapped(acks, n);
    LargestGapped(acks, |acks|);
    hide Gapped, Canonical;
    var all, blocks := Largest(acks, |acks|), Largest(acks, n);
    assert blocks == all[..n];
    SizeIsLength(blocks, 1);
    SizeOfPrefix(all, n, n);
  }
}
