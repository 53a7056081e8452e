/**
 ACK frames on the wire: `decodeAckFrame` (quic/codec/Decode.cpp) and the writer
 `maybeWriteAckBaseFields` with `fillFrameWithAckBlocks` (quic/codec/QuicWriteCodec.cpp);
 section 19.3 of RFC 9000.
 */
module AckFrames {
  import opened Prelude
  import opened Varint
  import opened Outstanding

  /** A frame as received: the delay in microseconds, the blocks from the largest down. */
  datatype ReadAckFrame = ReadAckFrame(largestAcked: nat, ackDelay: nat, blocks: seq<Block>)

  /** Blocks from the largest down with at least one number missing between them, all of them varints. */
  ghost predicate Gapped(blocks: seq<Block>) {
    && (forall k :: 0 <= k < |blocks| ==> blocks[k].start <= blocks[k].end <= EIGHT_BYTE_LIMIT)
    && (forall k :: 0 <= k < |blocks| - 1 ==> blocks[k + 1].end + 2 <= blocks[k].start)
  }

  // ------------------------------------------------------------------ reading

  /** One integer off the front. */
  function ReadInt(data: seq<byte>): (r: Option<(nat, seq<byte>)>)
    ensures r.Some? ==> |r.value.1| < |data| && r.value.0 <= EIGHT_BYTE_LIMIT
  {
    var d := Decode(data, 8);
    if d.None? then None
    else
      assert d.value.0 <= EIGHT_BYTE_LIMIT by { ReEncode(data, 8); }
      Some((d.value.0, data[d.value.1..]))
  }

  /** The gap and the length of one more block below `current`. */
  function ReadBlock(data: seq<byte>, current: nat): (r: Option<(Block, seq<byte>)>)
  {
    var gap := ReadInt(data);
    if gap.None? then None
    else
      var len := ReadInt(gap.value.1);
      if len.None? then None
      else if current < gap.value.0 + 2 then None
      else
        var end := current - (gap.value.0 + 2);
        if end < len.value.0 then None else Some((Block(end - len.value.0, end), len.value.1))
  }

  /** The blocks below `current`. */
  function ReadBlocks(data: seq<byte>, n: nat, current: nat): (r: Option<(seq<Block>, seq<byte>)>)
    decreases n
  {
    if n == 0 then Some(([], data))
    else
      var b := ReadBlock(data, current);
      if b.None? then None
      else
        var more := ReadBlocks(b.value.1, n - 1, b.value.0.start);
        if more.None? then None else Some(([b.value.0] + more.value.0, more.value.1))
  }

  /** `convertEncodedDurationToMicroseconds`, with its two overflow checks. */
  function ConvertDelay(exponent: nat, delay: nat): (r: Option<nat>) {
    if exponent == 0 || exponent >= 64 then Some(delay)
    else if delay / Pow2(64 - exponent) != 0 then None
    else if delay * Pow2(exponent) > 0x7FFF_FFFF_FFFF_FFFF then None
    else Some(delay * Pow2(exponent))
  }

  /** A delay above a thousand seconds is not believed. */
  function Believed(delay: nat): nat { if delay > 1_000_000_000 then 0 else delay }

  /** The four integers that open the frame, and what follows them. */
  datatype Head = Head(largestAcked: nat, delay: nat, count: nat, firstLen: nat, rest: seq<byte>)

  function ReadHead(data: seq<byte>): (r: Option<Head>) {
    var a := ReadInt(data);
    if a.None? then None
    else
      var b := ReadInt(a.value.1);
      if b.None? then None
      else
        var c := ReadInt(b.value.1);
        if c.None? then None
        else
          var d := ReadInt(c.value.1);
          if d.None? then None else Some(Head(a.value.0, b.value.0, c.value.0, d.value.0, d.value.1))
  }

  /** What `decodeAckFrame` returns, and the bytes it leaves. */
  function ReadFrame(data: seq<byte>, exponent: nat): (r: Option<(ReadAckFrame, seq<byte>)>) {
    var h := ReadHead(data);
    if h.None? then None
    else
      var Head(largest, delay, count, firstLen, rest) := h.value;
      if largest < firstLen || ConvertDelay(exponent, delay).None? then None
      else
        var more := ReadBlocks(rest, count, largest - firstLen);
        if more.None? then None
        else Some((ReadAckFrame(largest, Believed(ConvertDelay(exponent, delay).value),
                                [Block(largest - firstLen, largest)] + more.value.0), more.value.1))
  }

  /** The decoder's loop over the blocks. */
  method DecodeBlocks(data: seq<byte>, count: nat, start: nat) returns (r: Option<(seq<Block>, seq<byte>)>)
    ensures r == ReadBlocks(data, count, start)
  {
    hide ReadInt;
    var rest, current, blocks: seq<Block> := data, start, [];
    ghost var all := ReadBlocks(data, count, start);
    assert all.Some? ==> [] + all.value.0 == all.value.0;
    var numBlocks: nat := 0;
    while numBlocks < count
      invariant numBlocks <= count
      invariant all == ReadBlocks(data, count, start) ==
                (var more := ReadBlocks(rest, count - numBlocks, current);
                 if more.None? then None else Some((blocks + more.value.0, more.value.1)))
    {
      var gap := ReadInt(rest);
      if gap.None? {
        return None;
      }
      var len := ReadInt(gap.value.1);
      if len.None? {
        return None;
      }
      var adjustedGap := gap.value.0 + 2;
      if current < adjustedGap {
        return None;
      }
      var end := current - adjustedGap;
      if end < len.value.0 {
        return None;
      }
      ghost var next := ReadBlocks(len.value.1, count - numBlocks - 1, end - len.value.0);
      assert next.Some? ==> blocks + ([Block(end - len.value.0, end)] + next.value.0) == blocks + [Block(end - len.value.0, end)] + next.value.0;
      current, rest := end - len.value.0, len.value.1;
      blocks := blocks + [Block(current, end)];
      numBlocks := numBlocks + 1;
    }
    assert blocks + [] == blocks;
    r := Some((blocks, rest));
  }

  /**
   `decodeAckFrame`: it fails exactly for want of an integer, a number below zero or a delay that does not
   fit, and otherwise gives the blocks of section 19.3.1 of RFC 9000, from the largest down with gaps between.
   */
  method DecodeAckFrame(data: seq<byte>, exponent: nat) returns (r: Option<(ReadAckFrame, seq<byte>)>)
    ensures r.Some? <==>
              && ReadHead(data).Some?
              && (var h := ReadHead(data).value;
                  && ConvertDelay(exponent, h.delay).Some?
                  && ReadPairs(h.rest, h.count).Some?
                  && h.largestAcked >= h.firstLen
                  && Lowest(h.largestAcked - h.firstLen, ReadPairs(h.rest, h.count).value.0) >= 0)
    ensures r.Some? ==>
              var h, f := ReadHead(data).value, r.value.0;
              && f.blocks != [] && f.blocks[0] == Block(h.largestAcked - h.firstLen, h.largestAcked)
              && Follows(f.blocks[0].start, ReadPairs(h.rest, h.count).value.0, f.blocks[1..])
              && Gapped(f.blocks) && r.value.1 == ReadPairs(h.rest, h.count).value.1
              && f.largestAcked == h.largestAcked
              && (exponent < 64 ==> f.ackDelay == var d := h.delay * Pow2(exponent); if d > 1_000_000_000 then 0 else d)
    ensures r == ReadFrame(data, exponent)
  {
    FrameExact(data, exponent);
    if ReadHead(data).Some? { ConvertIsTimes(exponent, ReadHead(data).value.delay); }
    hide ReadInt, ReadHead, ReadBlocks, ConvertDelay, ReadPairs, Lowest, Follows, Gapped;
    var h := ReadHead(data);
    if h.None? {
      return None;
    }
    var Head(largest, delay, count, firstLen, rest) := h.value;
    if largest < firstLen {
      return None;
    }
    var adjusted := ConvertDelay(exponent, delay);
    if adjusted.None? {
      return None;
    }
    var more := DecodeBlocks(rest, count, largest - firstLen);
    if more.None? {
      return None;
    }
    r := Some((ReadAckFrame(largest, Believed(adjusted.value), [Block(largest - firstLen, largest)] + more.value.0), more.value.1));
  }

  lemma ConvertIsTimes(exponent: nat, delay: nat)
    ensures exponent < 64 && ConvertDelay(exponent, delay).Some? ==> ConvertDelay(exponent, delay) == Some(delay * Pow2(exponent))
  {
    if exponent == 0 { assert Pow2(0) == 1; }
  }

  // ------------------------------------------------------------------ what is read

  /** `n` pairs of integers off the front. */
  function ReadPairs(data: seq<byte>, n: nat): (r: Option<(seq<(nat, nat)>, seq<byte>)>)
    decreases n
  {
    if n == 0 then Some(([], data))
    else
      var gap := ReadInt(data);
      if gap.None? then None
      else
        var len := ReadInt(gap.value.1);
        if len.None? then None
        else
          var more := ReadPairs(len.value.1, n - 1);
          if more.None? then None else Some(([(gap.value.0, len.value.0)] + more.value.0, more.value.1))
  }

  /** The smallest number left after the gaps and lengths of section 19.3.1 of RFC 9000; it may be negative. */
  function Lowest(current: int, pairs: seq<(nat, nat)>): int
    decreases |pairs|
  {
    if pairs == [] then current else Lowest(current - (pairs[0].0 + 2) - pairs[0].1, pairs[1..])
  }

  /** Block `k` after `current`, by the same section: one equation for each end. */
  ghost predicate Follows(current: int, pairs: seq<(nat, nat)>, blocks: seq<Block>) {
    |blocks| == |pairs| && forall k :: 0 <= k < |pairs| ==> FollowsAt(current, pairs, blocks, k)
  }

  ghost predicate FollowsAt(current: int, pairs: seq<(nat, nat)>, blocks: seq<Block>, k: nat)
    requires |blocks| == |pairs| && k < |pairs|
  {
    && blocks[k].end == (if k == 0 then current else blocks[k - 1].start) - pairs[k].0 - 2
    && blocks[k].start == blocks[k].end - pairs[k].1
  }

  lemma {:induction false} LowestBelow(current: int, pairs: seq<(nat, nat)>)
    ensures Lowest(current, pairs) <= current
    decreases |pairs|
  {
    if pairs != [] { LowestBelow(current - (pairs[0].0 + 2) - pairs[0].1, pairs[1..]); }
  }

  lemma FollowsCons(current: int, pairs: seq<(nat, nat)>, b: Block, blocks: seq<Block>)
    requires pairs != [] && b.end == current - pairs[0].0 - 2 && b.start == b.end - pairs[0].1
    requires Follows(b.start, pairs[1..], blocks)
    ensures Follows(current, pairs, [b] + blocks)
  {
    var r := [b] + blocks;
    forall k | 0 <= k < |pairs| ensures FollowsAt(current, pairs, r, k) {
      if k > 0 {
        assert FollowsAt(b.start, pairs[1..], blocks, k - 1);
        assert r[k] == blocks[k - 1] && pairs[k] == pairs[1..][k - 1];
        assert r[k - 1] == if k == 1 then b else blocks[k - 2];
      }
    }
  }

  /** The blocks read are those of the standard; reading fails only for want of bytes or below zero. */
  lemma {:induction false} BlocksExact(data: seq<byte>, n: nat, current: nat)
    ensures ReadBlocks(data, n, current).Some? <==>
            ReadPairs(data, n).Some? && Lowest(current, ReadPairs(data, n).value.0) >= 0
    ensures ReadBlocks(data, n, current).Some? ==>
              && Follows(current, ReadPairs(data, n).value.0, ReadBlocks(data, n, current).value.0)
              && ReadBlocks(data, n, current).value.1 == ReadPairs(data, n).value.1
    decreases n
  {
    hide ReadInt;
    if n > 0 {
      var gap := ReadInt(data);
      if gap.Some? && ReadInt(gap.value.1).Some? {
        var len := ReadInt(gap.value.1);
        var end := current - (gap.value.0 + 2);
        var start := end - len.value.0;
        if start >= 0 { BlocksExact(len.value.1, n - 1, start); }
        OneMore(data, n, current, gap.value.0, len.value.0, len.value.1);
      }
    }
  }

  /** The step of `BlocksExact`: the first pair gives the first block, the others the rest. */
  lemma OneMore(data: seq<byte>, n: nat, current: nat, gap: nat, len: nat, rest: seq<byte>)
    requires n > 0 && ReadInt(data).Some? && ReadInt(ReadInt(data).value.1) == Some((len, rest)) && ReadInt(data).value.0 == gap
    requires current - gap - 2 - len >= 0 ==>
               var start := current - gap - 2 - len;
               && (ReadBlocks(rest, n - 1, start).Some? <==>
                   ReadPairs(rest, n - 1).Some? && Lowest(start, ReadPairs(rest, n - 1).value.0) >= 0)
               && (ReadBlocks(rest, n - 1, start).Some? ==>
                     && Follows(start, ReadPairs(rest, n - 1).value.0, ReadBlocks(rest, n - 1, start).value.0)
                     && ReadBlocks(rest, n - 1, start).value.1 == ReadPairs(rest, n - 1).value.1)
    ensures ReadBlocks(data, n, current).Some? <==>
            ReadPairs(data, n).Some? && Lowest(current, ReadPairs(data, n).value.0) >= 0
    ensures ReadBlocks(data, n, current).Some? ==>
              && Follows(current, ReadPairs(data, n).value.0, ReadBlocks(data, n, current).value.0)
              && ReadBlocks(data, n, current).value.1 == ReadPairs(data, n).value.1
  {
    hide ReadInt, Follows;
    var start := current - gap - 2 - len;
    var pairs := ReadPairs(rest, n - 1);
    if pairs.Some? {
      var p := [(gap, len)] + pairs.value.0;
      assert p[1..] == pairs.value.0;
      assert Lowest(current, p) == Lowest(start, pairs.value.0);
      LowestBelow(start, pairs.value.0);
      if start >= 0 && ReadBlocks(rest, n - 1, start).Some? {
        FollowsCons(current, p, Block(start, current - gap - 2), ReadBlocks(rest, n - 1, start).value.0);
      }
    }
  }

  lemma FollowsGapped(current: nat, end: nat, pairs: seq<(nat, nat)>, blocks: seq<Block>)
    requires current <= end <= EIGHT_BYTE_LIMIT && Follows(current, pairs, blocks)
    ensures Gapped([Block(current, end)] + blocks)
  {
    var r := [Block(current, end)] + blocks;
    assert forall k :: 0 < k < |r| ==> r[k] == blocks[k - 1] && FollowsAt(current, pairs, blocks, k - 1);
    forall k | 0 <= k < |r| - 1 ensures r[k + 1].end + 2 <= r[k].start {
      assert FollowsAt(current, pairs, blocks, k);
      assert r[k + 1] == blocks[k] && r[k] == if k == 0 then Block(current, end) else blocks[k - 1];
    }
    EndsBelow(r, |r|);
  }

  lemma {:induction false} EndsBelow(r: seq<Block>, n: nat)
    requires n <= |r| && forall k :: 0 <= k < |r| ==> r[k].start <= r[k].end
    requires forall k :: 0 <= k < |r| - 1 ==> r[k + 1].end + 2 <= r[k].start
    ensures forall k :: 0 <= k < n ==> r[k].end <= r[0].end
  {
    if n > 1 {
      EndsBelow(r, n - 1);
      assert r[n - 2 + 1].end + 2 <= r[n - 2].start;
    }
  }

  /** A frame is accepted exactly when its integers are all there, no number falls below zero and the delay fits. */
  lemma FrameExact(data: seq<byte>, exponent: nat)
    ensures ReadFrame(data, exponent).Some? <==>
              && ReadHead(data).Some?
              && (var h := ReadHead(data).value;
                  && ConvertDelay(exponent, h.delay).Some?
                  && ReadPairs(h.rest, h.count).Some?
                  && h.largestAcked >= h.firstLen
                  && Lowest(h.largestAcked - h.firstLen, ReadPairs(h.rest, h.count).value.0) >= 0)
    ensures ReadFrame(data, exponent).Some? ==>
              var h, f := ReadHead(data).value, ReadFrame(data, exponent).value.0;
              && f.blocks[0] == Block(h.largestAcked - h.firstLen, h.largestAcked) && f.largestAcked == h.largestAcked
              && Follows(f.blocks[0].start, ReadPairs(h.rest, h.count).value.0, f.blocks[1..])
              && Gapped(f.blocks) && Descending(f.blocks)
              && ReadFrame(data, exponent).value.1 == ReadPairs(h.rest, h.count).value.1
  {
    hide ReadInt, ReadHead, ReadBlocks, ReadPairs, ConvertDelay, Lowest, Follows, Gapped, Descending;
    if ReadHead(data).Some? {
      var h := ReadHead(data).value;
      if h.largestAcked >= h.firstLen {
        var current := h.largestAcked - h.firstLen;
        BlocksExact(h.rest, h.count, current);
        if ReadFrame(data, exponent).Some? {
          HeadFits(data);
          var blocks := ReadBlocks(h.rest, h.count, current).value.0;
          var f := ReadFrame(data, exponent).value.0;
          assert f.blocks[1..] == blocks;
          FollowsGapped(current, h.largestAcked, ReadPairs(h.rest, h.count).value.0, blocks);
          GappedDescends(f.blocks);
        }
      }
    }
  }

  lemma HeadFits(data: seq<byte>)
    requires ReadHead(data).Some?
    ensures ReadHead(data).value.largestAcked <= EIGHT_BYTE_LIMIT
  {
  }

  /** Blocks with gaps are what the walk over outstanding packets needs. */
  lemma GappedDescends(blocks: seq<Block>)
    requires Gapped(blocks)
    ensures Descending(blocks)
  {
    forall k, m | 0 <= k < m < |blocks| ensures blocks[m].end < blocks[k].start { GapApart(blocks, k, m); }
  }

  lemma {:induction false} GapApart(blocks: seq<Block>, k: nat, m: nat)
    requires Gapped(blocks) && k < m < |blocks|
    ensures blocks[m].end < blocks[k].start
    decreases m
  {
    assert blocks[m - 1 + 1].end + 2 <= blocks[m - 1].start;
    if k < m - 1 { GapApart(blocks, k, m - 1); }
  }

  /** The delay conversion fails exactly when the product does not fit a signed 64-bit count. */
  lemma DelayExact(exponent: nat, delay: nat)
    requires 0 < exponent < 64
    ensures ConvertDelay(exponent, delay).None? <==> delay * Pow2(exponent) > 0x7FFF_FFFF_FFFF_FFFF
  {
    var p, q := Pow2(64 - exponent), Pow2(exponent);
    assert p * q == 0x1_0000_0000_0000_0000 by {
      PowAdd(64 - exponent, exponent);
      Pow64();
    }
    hide Pow2;
    if delay / p != 0 {
      assert delay >= p by { DivSmall(delay, p); }
      MulLess(p, delay, q);
    }
  }

  lemma DivSmall(n: nat, p: nat)
    requires p > 0 && n / p != 0
    ensures n >= p
  {
  }

  lemma {:induction false} PowAdd(a: nat, b: nat)
    ensures Pow2(a + b) == Pow2(a) * Pow2(b)
    decreases b
  {
    if b > 0 { PowAdd(a, b - 1); }
  }

  lemma Pow64()
    ensures Pow2(64) == 0x1_0000_0000_0000_0000
  {
    assert Pow2(4) == 16;
    hide Pow2;
    PowAdd(4, 4);
    PowAdd(8, 8);
    PowAdd(16, 16);
    PowAdd(32, 32);
  }
}
