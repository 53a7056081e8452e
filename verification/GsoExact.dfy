/**
 The batches of a segmentation offload write loop, characterised without the loop: they are the one way to cut the
 packets into segmentable writes in which no write ends before it must
 (quic/api/IoBufQuicBatch.cpp, quic/api/QuicGsoBatchWriters.cpp).
 */
module GsoExact {
  import opened Prelude
  import opened GsoBatching

  /** A last packet that is smaller, or the maximum; a maximum below two never ends a batch. */
  predicate Complete(g: seq<Bytes>, max: nat) {
    g != [] && ((max >= 2 && |g| == max) || |g[|g| - 1]| < |g[0]|)
  }

  /** A batch that `next` could not have joined: it is complete, or `next` is larger than its packets. */
  predicate Ended(g: seq<Bytes>, next: Bytes, max: nat) {
    g != [] && (Complete(g, max) || |next| > |g[0]|)
  }

  /** No batch ends before it must. */
  ghost predicate Maximal(gs: seq<seq<Bytes>>, max: nat) {
    forall i :: 0 <= i < |gs| - 1 ==> EndedAt(gs, i, max)
  }

  predicate EndedAt(gs: seq<seq<Bytes>>, i: nat, max: nat)
    requires i + 1 < |gs|
  {
    gs[i + 1] != [] && Ended(gs[i], gs[i + 1][0], max)
  }

  /** Every batch is segmentable and within the maximum. */
  ghost predicate Writable(gs: seq<seq<Bytes>>, max: nat) {
    forall i :: 0 <= i < |gs| ==> Segmentable(gs[i]) && (max >= 2 ==> |gs[i]| <= max)
  }

  ghost predicate Grouping(gs: seq<seq<Bytes>>, max: nat) { Writable(gs, max) && Maximal(gs, max) }

  // ------------------------------------------------------------------ the loop's batches are maximal

  ghost predicate LoopMaximal(b: Batcher, max: nat) {
    && Maximal(b.done, max)
    && (b.done != [] ==>
          var last := b.done[|b.done| - 1];
          if b.open == [] then Complete(last, max) else Ended(last, b.open[0], max))
  }

  lemma MaximalSnoc(gs: seq<seq<Bytes>>, g: seq<Bytes>, max: nat)
    requires Maximal(gs, max) && g != [] && (gs != [] ==> Ended(gs[|gs| - 1], g[0], max))
    ensures Maximal(gs + [g], max)
  {
    var all := gs + [g];
    forall i | 0 <= i < |all| - 1 ensures EndedAt(all, i, max) {
      assert all[i] == gs[i] && all[i + 1] == if i + 1 < |gs| then gs[i + 1] else g;
      assert i + 1 < |gs| ==> EndedAt(gs, i, max);
    }
  }

  lemma AddMaximal(b: Batcher, p: Bytes, max: nat)
    requires LoopMaximal(b, max)
    ensures LoopMaximal(Add(b, p, max), max)
  {
    hide Maximal;
    if b.open != [] { MaximalSnoc(b.done, b.open, max); }
    var b1 := if NeedsFlush(b, |p|) then Flush(b) else b;
    var g := b1.open + [p];
    assert g[0] == if b1.open == [] then p else b1.open[0];
    if b1.open != [] { MaximalSnoc(b1.done, g, max); }
  }

  lemma {:induction false} AddAllMaximal(b: Batcher, ps: seq<Bytes>, max: nat)
    requires LoopMaximal(b, max)
    ensures LoopMaximal(AddAll(b, ps, max), max)
    decreases |ps|
  {
    hide LoopMaximal, Add;
    if ps != [] {
      AddMaximal(b, ps[0], max);
      AddAllMaximal(Add(b, ps[0], max), ps[1..], max);
    }
  }

  /**
   Every batch but the last has the maximal number of packets, or ends with a smaller packet, or is followed by a larger
   packet.
   */
  lemma BatchesMaximal(ps: seq<Bytes>, max: nat)
    ensures Maximal(Batches(ps, max), max)
  {
    hide AddAll;
    var b := AddAll(Batcher([], []), ps, max);
    AddAllMaximal(Batcher([], []), ps, max);
    if b.open != [] { MaximalSnoc(b.done, b.open, max); }
  }

  lemma BatchesGrouped(ps: seq<Bytes>, max: nat)
    requires NonEmpty(ps)
    ensures Grouping(Batches(ps, max), max)
  {
    hide Maximal, Batches, Segmentable;
    BatchesKeepPackets(ps, max);
    BatchesMaximal(ps, max);
    if max >= 2 { WithinMax(ps, max); }
  }

  // ------------------------------------------------------------------ and there is no other grouping

  lemma {:induction false} FlattenFront(gs: seq<seq<Bytes>>)
    requires gs != []
    ensures Flatten(gs) == gs[0] + Flatten(gs[1..])
    decreases |gs|
  {
    var n := |gs| - 1;
    if n == 0 {
      assert gs[..0] == [] && gs[1..] == [];
    } else {
      FlattenFront(gs[..n]);
      var mid := gs[1..n];
      assert gs[..n][1..] == mid && gs[1..] == mid + [gs[n]];
      FlattenSnoc(mid, gs[n]);
      hide Flatten;
      assert gs[0] + Flatten(mid) + gs[n] == gs[0] + (Flatten(mid) + gs[n]);
    }
  }

  lemma GroupingTail(gs: seq<seq<Bytes>>, max: nat)
    requires gs != [] && Grouping(gs, max)
    ensures Grouping(gs[1..], max)
  {
    var t := gs[1..];
    assert forall i :: 0 <= i < |t| ==> t[i] == gs[i + 1];
    forall i | 0 <= i < |t| - 1 ensures EndedAt(t, i, max) { assert EndedAt(gs, i + 1, max); }
  }

  /** A batch that had to end is not the front of a longer one. */
  lemma CannotGrow(g: seq<Bytes>, h: seq<Bytes>, max: nat)
    requires Segmentable(h) && (max >= 2 ==> |h| <= max) && 0 < |g| < |h| && g == h[..|g|]
    ensures !Ended(g, h[|g|], max)
  {
    assert h[0] == g[0] && h[|g| - 1] == g[|g| - 1];
  }

  /** Packets behind the first batch start the second. */
  lemma SecondBatch(gs: seq<seq<Bytes>>, max: nat)
    requires gs != [] && Writable(gs, max) && |Flatten(gs)| > |gs[0]|
    ensures |gs| > 1 && gs[1] != [] && gs[1][0] == Flatten(gs)[|gs[0]|]
  {
    FlattenFront(gs);
    if |gs| > 1 {
      assert Segmentable(gs[1]);
      FlattenFront(gs[1..]);
    }
  }

  /** A first batch that is shorter than that of another way to write the same packets ends too early. */
  lemma ShorterEndsEarly(gs: seq<seq<Bytes>>, hs: seq<seq<Bytes>>, max: nat)
    requires gs != [] && hs != [] && Flatten(gs) == Flatten(hs) && Writable(gs, max) && Writable(hs, max)
    requires |gs[0]| < |hs[0]|
    ensures |gs| > 1 && !EndedAt(gs, 0, max)
  {
    FlattenFront(gs);
    FlattenFront(hs);
    assert Segmentable(gs[0]) && Segmentable(hs[0]);
    var (g, h, all) := (gs[0], hs[0], Flatten(gs));
    SecondBatch(gs, max);
    assert all[..|h|] == h && all[..|g|] == g && h[..|g|] == g && h[|g|] == all[|g|];
    CannotGrow(g, h, max);
  }

  lemma {:induction false} OneGrouping(gs: seq<seq<Bytes>>, hs: seq<seq<Bytes>>, max: nat)
    requires Flatten(gs) == Flatten(hs) && Grouping(gs, max) && Grouping(hs, max)
    ensures gs == hs
    decreases |gs|
  {
    if gs == [] || hs == [] {
      EmptyGrouping(gs, max);
      EmptyGrouping(hs, max);
    } else {
      if |gs[0]| < |hs[0]| { ShorterEndsEarly(gs, hs, max); }
      if |hs[0]| < |gs[0]| { ShorterEndsEarly(hs, gs, max); }
      hide Grouping;
      FlattenFront(gs);
      FlattenFront(hs);
      assert gs[0] == Flatten(gs)[..|gs[0]|] == hs[0];
      assert Flatten(gs[1..]) == Flatten(gs)[|gs[0]|..] == Flatten(hs[1..]);
      GroupingTail(gs, max);
      GroupingTail(hs, max);
      OneGrouping(gs[1..], hs[1..], max);
      assert gs == [gs[0]] + gs[1..] && hs == [hs[0]] + hs[1..];
    }
  }

  lemma EmptyGrouping(gs: seq<seq<Bytes>>, max: nat)
    requires Grouping(gs, max)
    ensures gs == [] <==> Flatten(gs) == []
  {
    if gs != [] {
      FlattenFront(gs);
      assert Segmentable(gs[0]);
    }
  }

  /** The write loop's batches are the only grouping of the packets. */
  lemma BatchesExactly(ps: seq<Bytes>, max: nat, gs: seq<seq<Bytes>>)
    requires NonEmpty(ps)
    ensures gs == Batches(ps, max) <==> Flatten(gs) == ps && Grouping(gs, max)
  {
    hide Grouping, Batches, Flatten;
    BatchesGrouped(ps, max);
    BatchesKeepPackets(ps, max);
    if Flatten(gs) == ps && Grouping(gs, max) { OneGrouping(gs, Batches(ps, max), max); }
  }
}
