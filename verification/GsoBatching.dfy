/**
 How packets are grouped into segmentation offload (GSO) writes by
 `IOBufQuicBatch` (quic/api/IoBufQuicBatch.cpp) with a GSO batch writer
 (quic/api/QuicGsoBatchWriters.cpp), and how the receiver cuts such a write back
 into packets (quic/client/QuicClientTransportLite.cpp).
 */
module GsoBatching {
  import opened Prelude

  type Bytes = seq<bv8>

  // ------------------------------------------------------------------ grouping

  /** The batch being collected and the batches already handed to the socket. */
  datatype Batcher = Batcher(open: seq<Bytes>, done: seq<seq<Bytes>>)

  function Flush(b: Batcher): (r: Batcher) {
    if b.open == [] then b else Batcher([], b.done + [b.open])
  }

  /** `needsFlush`: the new packet is larger than the first of the batch. */
  predicate NeedsFlush(b: Batcher, size: nat) { b.open != [] && size > |b.open[0]| }

  /** The batch must go out after a packet of `size` was added to it: a different size, or the maximum reached. */
  predicate FlushAfter(open: seq<Bytes>, size: nat, max: nat) {
    open != [] && (size != |open[0]| || |open| + 1 == max)
  }

  /** `IOBufQuicBatch::write` */
  function Add(b: Batcher, p: Bytes, max: nat): (r: Batcher) {
    var b1 := if NeedsFlush(b, |p|) then Flush(b) else b;
    var b2 := Batcher(b1.open + [p], b1.done);
    if FlushAfter(b1.open, |p|, max) then Flush(b2) else b2
  }

  /** A write loop over `ps`, with the flush at its end. */
  function AddAll(b: Batcher, ps: seq<Bytes>, max: nat): (r: Batcher)
    decreases ps
  {
    if ps == [] then b else AddAll(Add(b, ps[0], max), ps[1..], max)
  }

  function Batches(ps: seq<Bytes>, max: nat): (r: seq<seq<Bytes>>) {
    Flush(AddAll(Batcher([], []), ps, max)).done
  }

  /** The segment size told to the socket: none for a single packet, else the size of the first. */
  function GsoValue(g: seq<Bytes>): (r: nat) { if |g| > 1 then |g[0]| else 0 }

  /** What segmentation needs: all packets but the last of one size, the last no larger, none empty. */
  ghost predicate Segmentable(g: seq<Bytes>) {
    && g != []
    && (forall i :: 0 <= i < |g| ==> 0 < |g[i]| <= |g[0]|)
    && (forall i :: 0 <= i < |g| - 1 ==> |g[i]| == |g[0]|)
  }

  ghost predicate NonEmpty(ps: seq<Bytes>) { forall i :: 0 <= i < |ps| ==> ps[i] != [] }

  ghost predicate Equal(g: seq<Bytes>) { forall i :: 0 <= i < |g| ==> 0 < |g[i]| == |g[0]| }

  function Flatten(gs: seq<seq<Bytes>>): (r: seq<Bytes>) {
    if gs == [] then [] else Flatten(gs[..|gs| - 1]) + gs[|gs| - 1]
  }

  /** Nothing is lost, doubled or reordered, and every batch can be segmented. */
  ghost predicate BatcherInv(b: Batcher, ps: seq<Bytes>, max: nat) {
    && Flatten(b.done) + b.open == ps
    && Equal(b.open)
    && (forall i :: 0 <= i < |b.done| ==> Segmentable(b.done[i]))
    && (max >= 2 ==> |b.open| < max && forall i :: 0 <= i < |b.done| ==> |b.done[i]| <= max)
  }

  lemma FlattenSnoc(gs: seq<seq<Bytes>>, g: seq<Bytes>)
    ensures Flatten(gs + [g]) == Flatten(gs) + g
  {
    assert (gs + [g])[..|gs + [g]| - 1] == gs;
  }

  lemma FlushInv(b: Batcher, ps: seq<Bytes>, max: nat)
    requires Flatten(b.done) + b.open == ps
    requires b.open == [] || Segmentable(b.open)
    requires forall i :: 0 <= i < |b.done| ==> Segmentable(b.done[i])
    requires max >= 2 ==> |b.open| <= max && forall i :: 0 <= i < |b.done| ==> |b.done[i]| <= max
    ensures BatcherInv(Flush(b), ps, max)
  {
    FlattenSnoc(b.done, b.open);
  }

  /** A packet no larger than the equal packets before it keeps the batch segmentable. */
  lemma SnocSegmentable(open: seq<Bytes>, p: Bytes)
    requires Equal(open) && p != [] && (open != [] ==> |p| <= |open[0]|)
    ensures Segmentable(open + [p])
    ensures open == [] || |p| == |open[0]| ==> Equal(open + [p])
  {
    var g := open + [p];
    assert forall i :: 0 <= i < |open| ==> g[i] == open[i];
    assert forall i :: 0 <= i < |g| ==> g[i] == p || g[i] == open[i];
  }

  lemma AddInv(b: Batcher, ps: seq<Bytes>, p: Bytes, max: nat)
    requires BatcherInv(b, ps, max) && p != []
    ensures BatcherInv(Add(b, p, max), ps + [p], max)
  {
    hide Flatten, Segmentable, Equal;
    var b1 := if NeedsFlush(b, |p|) then Flush(b) else b;
    EqualSegmentable(b.open);
    FlushInv(b, ps, max);
    assert BatcherInv(b1, ps, max);
    assert b1.open != [] ==> |p| <= |b1.open[0]|;
    SnocSegmentable(b1.open, p);
    var b2 := Batcher(b1.open + [p], b1.done);
    assert Flatten(b2.done) + b2.open == ps + [p];
    if FlushAfter(b1.open, |p|, max) { FlushInv(b2, ps + [p], max); }
  }

  lemma EqualSegmentable(g: seq<Bytes>)
    requires Equal(g)
    ensures g == [] || Segmentable(g)
    ensures Equal([])
  {
  }

  lemma {:induction false} AddAllInv(b: Batcher, before: seq<Bytes>, ps: seq<Bytes>, max: nat)
    requires BatcherInv(b, before, max) && NonEmpty(ps)
    ensures BatcherInv(AddAll(b, ps, max), before + ps, max)
    decreases |ps|
  {
    if ps == [] {
      assert before + ps == before;
    } else {
      AddInv(b, before, ps[0], max);
      AddAllInv(Add(b, ps[0], max), before + [ps[0]], ps[1..], max);
      assert before + [ps[0]] + ps[1..] == before + ps;
    }
  }

  /** For every packet sequence: the batches are the packets in order, each one segmentable. */
  lemma BatchesKeepPackets(ps: seq<Bytes>, max: nat)
    requires NonEmpty(ps)
    ensures Flatten(Batches(ps, max)) == ps
    ensures forall i :: 0 <= i < |Batches(ps, max)| ==> Segmentable(Batches(ps, max)[i])
  {
    hide Segmentable, AddAll;
    LoopInv(ps, max);
    var b := Flush(AddAll(Batcher([], []), ps, max));
    assert Flatten(b.done) + [] == Flatten(b.done);
  }

  const TWO_SMALL: seq<Bytes> := [[0], [0]]

  ghost predicate Within(ps: seq<Bytes>, max: nat) {
    forall k :: 0 <= k < |Batches(ps, max)| ==> |Batches(ps, max)[k]| <= max
  }

  /** Batches stay within the maximum for every packet sequence if and only if the maximum is at least two. */
  lemma BatchesWithinMax(max: nat)
    ensures max >= 2 <==> forall ps :: NonEmpty(ps) ==> Within(ps, max)
  {
    if max >= 2 {
      forall ps: seq<Bytes> | NonEmpty(ps) ensures Within(ps, max) { WithinMax(ps, max); }
    } else {
      TwoInOneBatch(max);
      assert NonEmpty(TWO_SMALL) && |Batches(TWO_SMALL, max)[0]| == 2 && !Within(TWO_SMALL, max);
    }
  }

  lemma WithinMax(ps: seq<Bytes>, max: nat)
    requires NonEmpty(ps) && max >= 2
    ensures Within(ps, max)
  {
    hide Flatten, Segmentable;
    LoopInv(ps, max);
  }

  /** The state at the end of a write loop. */
  lemma LoopInv(ps: seq<Bytes>, max: nat)
    requires NonEmpty(ps)
    ensures BatcherInv(Flush(AddAll(Batcher([], []), ps, max)), ps, max)
  {
    var b := AddAll(Batcher([], []), ps, max);
    AddAllInv(Batcher([], []), [], ps, max);
    assert [] + ps == ps;
    EqualSegmentable(b.open);
    FlushInv(b, ps, max);
  }

  /** The first packet of a batch is never tested against the maximum. */
  lemma TwoInOneBatch(max: nat)
    requires max < 2
    ensures Batches(TWO_SMALL, max) == [TWO_SMALL]
  {
    var p: Bytes := [0];
    var b1 := Add(Batcher([], []), p, max);
    assert b1 == Batcher([p], []);
    var b2 := Add(b1, p, max);
    assert [p] + [p] == TWO_SMALL;
    assert TWO_SMALL[1..] == [p] && [p][1..] == [];
    assert AddAll(b2, [], max) == b2;
    assert AddAll(b1, [p], max) == b2;
  }

  // ------------------------------------------------------------------ the receiver

  function Concat(ps: seq<Bytes>): (r: Bytes) {
    if ps == [] then [] else Concat(ps[..|ps| - 1]) + ps[|ps| - 1]
  }

  /** The loop that cuts what one `recvmsg` returned at the segment size the kernel reports (0: not segmented). */
  function GroCut(data: Bytes, gro: nat): (r: seq<Bytes>)
    decreases |data|
  {
    if data == [] then []
    else if 0 < gro < |data| then [data[..gro]] + GroCut(data[gro..], gro)
    else [data]
  }

  method GroLoop(data: Bytes, gro: nat) returns (packets: seq<Bytes>)
    requires data != []
    ensures packets == GroCut(data, gro)
  {
    packets := [];
    if gro == 0 {
      return [data];
    }
    var remaining, offset := |data|, 0;
    while remaining > 0
      invariant 0 <= offset && 0 <= remaining && offset + remaining == |data|
      invariant packets + GroCut(data[offset..], gro) == GroCut(data, gro)
    {
      ghost var rest := data[offset..];
      if remaining > gro {
        assert rest[..gro] == data[offset..offset + gro] && rest[gro..] == data[offset + gro..];
        packets := packets + [data[offset..offset + gro]];
        offset := offset + gro;
        remaining := remaining - gro;
      } else {
        packets := packets + [data[offset..]];
        offset, remaining := |data|, 0;
      }
    }
  }

  lemma {:induction false} ConcatSize(g: seq<Bytes>, size: nat)
    requires forall i :: 0 <= i < |g| ==> |g[i]| == size
    ensures |Concat(g)| == |g| * size
    decreases |g|
  {
    if g != [] {
      ConcatSize(g[..|g| - 1], size);
      calc { |g| * size; (|g| - 1) * size + size; }
    }
  }

  lemma {:induction false} ConcatFront(g: seq<Bytes>)
    requires g != []
    ensures Concat(g) == g[0] + Concat(g[1..])
    decreases |g|
  {
    var n := |g| - 1;
    if n == 0 {
      assert g[..0] == [] && g[1..] == [];
    } else {
      ConcatFront(g[..n]);
      var mid := g[1..n];
      assert g[..n][1..] == mid && g[1..] == mid + [g[n]];
      LastJoins(mid, g[n]);
      hide Concat;
      assert g[0] + Concat(mid) + g[n] == g[0] + (Concat(mid) + g[n]);
    }
  }

  lemma LastJoins(ps: seq<Bytes>, p: Bytes)
    ensures Concat(ps + [p]) == Concat(ps) + p
  {
    assert (ps + [p])[..|ps|] == ps;
  }

  /** Cutting the bytes of a segmentable batch at its segment size gives back its packets. */
  lemma {:induction false} CutRestores(g: seq<Bytes>, gro: nat)
    requires Segmentable(g) && (if |g| > 1 then gro == |g[0]| else gro == 0 || gro >= |g[0]|)
    ensures GroCut(Concat(g), gro) == g
    decreases |g|
  {
    ConcatFront(g);
    if |g| == 1 {
      assert g[1..] == [] && Concat(g) == g[0];
      assert [g[0]] == g;
    } else {
      var t := g[1..];
      assert Segmentable(t) by {
        forall i | 0 <= i < |t| ensures 0 < |t[i]| <= |t[0]| { assert t[i] == g[i + 1]; }
        forall i | 0 <= i < |t| - 1 ensures |t[i]| == |t[0]| { assert t[i] == g[i + 1]; }
      }
      ConcatFront(t);
      assert Concat(g)[..gro] == g[0] && Concat(g)[gro..] == Concat(t);
      CutRestores(t, gro);
      assert g == [g[0]] + t;
    }
  }

  // ------------------------------------------------------------------ room in a shared buffer

  ghost predicate AtMost(ps: seq<Bytes>, len: nat) { forall i :: 0 <= i < |ps| ==> |ps[i]| <= len }

  /** After the packets `ps` the buffer has room behind the open batch for one more of the largest. */
  ghost predicate RoomFor(ps: seq<Bytes>, max: nat, len: nat, capacity: nat) {
    |Concat(AddAll(Batcher([], []), ps, max).open)| + len <= capacity
  }

  lemma {:induction false} AddAllSnoc(b: Batcher, ps: seq<Bytes>, p: Bytes, max: nat)
    ensures AddAll(b, ps + [p], max) == Add(AddAll(b, ps, max), p, max)
    decreases |ps|
  {
    if ps == [] {
      assert [p][1..] == [] && ps + [p] == [p];
    } else {
      AddAllSnoc(Add(b, ps[0], max), ps[1..], p, max);
      assert (ps + [p])[1..] == ps[1..] + [p];
    }
  }

  lemma {:induction false} OpenAtMost(ps: seq<Bytes>, max: nat, len: nat)
    requires AtMost(ps, len)
    ensures AtMost(AddAll(Batcher([], []), ps, max).open, len)
    decreases |ps|
  {
    if ps != [] {
      var n := |ps| - 1;
      assert ps == ps[..n] + [ps[n]];
      AddAllSnoc(Batcher([], []), ps[..n], ps[n], max);
      OpenAtMost(ps[..n], max, len);
    }
  }

  /** The builder never asks for room, and never needs to: the open batch leaves space for one more packet. */
  lemma AlwaysRoom(ps: seq<Bytes>, max: nat, len: nat, capacity: nat)
    requires NonEmpty(ps) && AtMost(ps, len) && max >= 2 && capacity >= max * len
    ensures RoomFor(ps, max, len, capacity)
  {
    assert BatcherInv(Batcher([], []), [], max);
    hide Flatten, Segmentable, Concat, AddAll;
    var open := AddAll(Batcher([], []), ps, max).open;
    AddAllInv(Batcher([], []), [], ps, max);
    OpenAtMost(ps, max, len);
    if open == [] {
      ConcatSize(open, 0);
      Products(0, max, len, len);
    } else {
      ConcatSize(open, |open[0]|);
      Products(|open|, max, |open[0]|, len);
    }
  }

  lemma Products(n: nat, max: nat, size: nat, len: nat)
    requires n < max && size <= len
    ensures n * size + len <= max * len
  {
    MulLess(n, max, len);
    MulLess(size, len, n);
    assert n * size <= n * len;
  }

  function Copies(p: Bytes, n: nat): (r: seq<Bytes>)
    ensures |r| == n && forall i :: 0 <= i < n ==> r[i] == p
  {
    seq(n, _ => p)
  }

  /** Equal packets stay in one batch up to the maximum, and without end below two. */
  lemma {:induction false} EqualStayOpen(p: Bytes, n: nat, max: nat)
    requires n < max || max < 2
    ensures AddAll(Batcher([], []), Copies(p, n), max) == Batcher(Copies(p, n), [])
    decreases n
  {
    if n > 0 {
      EqualStayOpen(p, n - 1, max);
      assert Copies(p, n) == Copies(p, n - 1) + [p];
      AddAllSnoc(Batcher([], []), Copies(p, n - 1), p, max);
    }
  }

  /** Whatever is written there is room for the next packet if and only if the buffer holds a batch of the largest. */
  lemma RoomExactly(max: nat, len: nat, capacity: nat)
    requires len > 0
    ensures (forall ps :: NonEmpty(ps) && AtMost(ps, len) ==> RoomFor(ps, max, len, capacity)) <==>
            max >= 2 && capacity >= max * len
  {
    hide AddAll, Concat, NonEmpty, AtMost;
    if max >= 2 && capacity >= max * len {
      forall ps: seq<Bytes> | NonEmpty(ps) && AtMost(ps, len) ensures RoomFor(ps, max, len, capacity) {
        AlwaysRoom(ps, max, len, capacity);
      }
    } else {
      NoRoom(if max >= 2 then max - 1 else capacity, max, len, capacity);
    }
  }

  lemma NoRoom(n: nat, max: nat, len: nat, capacity: nat)
    requires len > 0 && (if max >= 2 then n == max - 1 && capacity < max * len else n == capacity)
    ensures exists ps :: NonEmpty(ps) && AtMost(ps, len) && !RoomFor(ps, max, len, capacity)
  {
    var p: Bytes := seq(len, _ => 0);
    var ps := Copies(p, n);
    EqualStayOpen(p, n, max);
    ConcatSize(ps, len);
    assert n * len + len > capacity by {
      if max >= 2 { MulLess(max - 1, max, len); } else { MulLess(0, len, n); }
    }
    assert NonEmpty(ps) && AtMost(ps, len) && !RoomFor(ps, max, len, capacity);
  }

  /** Cut every socket write at the segment size it was sent with. */
  function CutAll(gs: seq<seq<Bytes>>): (r: seq<Bytes>) {
    if gs == [] then []
    else CutAll(gs[..|gs| - 1]) + GroCut(Concat(gs[|gs| - 1]), GsoValue(gs[|gs| - 1]))
  }

  /** The receiver gets exactly the packets of the write loop, in order. */
  lemma {:induction false} ReceiverGetsPackets(ps: seq<Bytes>, max: nat)
    requires NonEmpty(ps)
    ensures CutAll(Batches(ps, max)) == ps
  {
    BatchesKeepPackets(ps, max);
    CutAllRestores(Batches(ps, max));
  }

  lemma {:induction false} CutAllRestores(gs: seq<seq<Bytes>>)
    requires forall i :: 0 <= i < |gs| ==> Segmentable(gs[i])
    ensures CutAll(gs) == Flatten(gs)
    decreases |gs|
  {
    if gs != [] {
      CutAllRestores(gs[..|gs| - 1]);
      CutRestores(gs[|gs| - 1], GsoValue(gs[|gs| - 1]));
    }
  }
}
