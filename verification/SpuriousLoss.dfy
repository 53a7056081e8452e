/**
 What happens when a packet that was declared lost is acknowledged after all and
 the transport is set to take its bytes back out of the loss buffer
 (`removeFromLossBufferOnSpurious`): `removeFromLossBuffer` of
 quic/state/StreamData.h, driven by `modifyStateForSpuriousLoss` of
 quic/state/AckHandlers.cpp.

 The code can leave an entry with neither data nor FIN behind. This module says
 exactly when, and shows the failed CHECK that such an entry leads to.
 */
module SpuriousLoss {
  import opened Prelude
  import opened SendBuffers
  import opened SendBufferProofs
  import opened StreamSend
  import opened StreamSendProofs

  // ------------------------------------------------------------------ the operation

  /** The removed range lies within the entry, or the entry within the removed range. */
  predicate Overlaid(b: Buf, f: Frame) {
    || (f.offset >= b.offset && f.offset + f.len <= b.offset + |b.data|)
    || (b.offset >= f.offset && b.offset + |b.data| <= f.offset + f.len)
  }

  /** The entry the loop stops at: the first overlaid one before the entries that start past the range. */
  function FirstOverlaid(q: seq<Buf>, f: Frame, i: nat := 0): (r: Option<nat>)
    requires i <= |q|
    ensures r.Some? ==> i <= r.value < |q| && Overlaid(q[r.value], f)
    decreases |q| - i
  {
    if i == |q| || q[i].offset > f.offset + f.len then None
    else if Overlaid(q[i], f) then Some(i)
    else FirstOverlaid(q, f, i + 1)
  }

  /** Number of bytes of entry `b` in front of the removed range. */
  function SplitLen(b: Buf, f: Frame): (n: nat) { if f.offset > b.offset then f.offset - b.offset else 0 }

  /** Entry `b` without the bytes in front of the removed range and without the range. */
  function Trimmed(b: Buf, f: Frame): (r: Buf) {
    var n := SplitLen(b, f);
    var rest := Left(b.data, n);
    Buf(b.offset + n + |Taken(rest, f.len)|, Left(rest, f.len), b.eof)
  }

  /** The loss buffer between the trimming and the putting back of the front part. */
  function Shrunk(q: seq<Buf>, f: Frame, i: nat): (r: seq<Buf>)
    requires i < |q|
  {
    var rest := Trimmed(q[i], f);
    if rest.data == [] && rest.eof == f.fin then q[..i] + q[i + 1..] else q[i := rest]
  }

  function RemoveFromLossBuffer(q: seq<Buf>, f: Frame): (r: seq<Buf>) {
    if q == [] || f.len == 0 then q
    else
      var m := FirstOverlaid(q, f);
      if m.None? then q
      else
        var i := m.value;
        var head := Taken(q[i].data, SplitLen(q[i], f));
        var shrunk := Shrunk(q, f, i);
        if head == [] then shrunk else InsertIntoLossBuffer(shrunk, Buf(q[i].offset, head, false))
  }

  /** `modifyStateForSpuriousLoss` for one STREAM frame. */
  function SpuriousFrame(s: Stream, f: Frame): (r: Stream) {
    s.(lossBuffer := RemoveFromLossBuffer(s.lossBuffer, f), acked := s.acked + Positions(f))
  }

  function SpuriousFrames(s: Stream, fs: seq<Frame>): (r: Stream)
    decreases fs
  {
    if fs == [] then s else SpuriousFrames(SpuriousFrame(s, fs[0]), fs[1..])
  }

  /** A lost packet is acknowledged after all. */
  function SpuriousAck(c: Conn, n: nat): (r: Checked<Conn>)
    requires n in c.packets
  {
    if c.declaredLostCount == 0 then CheckFailed
    else Ok(c.(stream := SpuriousFrames(c.stream, c.packets[n].frames),
               packets := c.packets - {n},
               declaredLostCount := c.declaredLostCount - 1))
  }

  // ------------------------------------------------------------------ when it works

  /** The frame was sent on this stream at some time. */
  ghost predicate Sent(s: Stream, f: Frame) {
    && (f.len > 0 || f.fin)
    && f.offset + f.len <= |s.app|
    && (f.fin ==> s.finalWriteOffset.Some? && f.offset + f.len == |s.app|)
    && f.offset + f.len + (if f.fin then 1 else 0) <= s.currentWriteOffset
  }

  /** The frame carries data and FIN, but the entry the loop stops at has no FIN. */
  predicate LeavesHusk(q: seq<Buf>, f: Frame) {
    f.fin && f.len > 0 && FirstOverlaid(q, f).Some? && !q[FirstOverlaid(q, f).value].eof
  }

  /** The trimmed entry is empty and without FIN exactly in the case `LeavesHusk` names. */
  lemma TrimmedOk(s: Stream, b: Buf, f: Frame)
    requires BufOk(s, b) && Sent(s, f) && f.len > 0 && Overlaid(b, f)
    ensures var rest := Trimmed(b, f);
            && rest.offset + |rest.data| == b.offset + |b.data|
            && rest.offset >= b.offset + SplitLen(b, f)
            && SplitLen(b, f) <= |b.data|
            && (rest.data != [] ==> rest.offset == f.offset + f.len)
            && (rest.Husk() && rest.eof != f.fin <==> f.fin && !b.eof)
            && (!rest.Husk() ==> BufOk(s, rest))
  {
    var n, rest := SplitLen(b, f), Trimmed(b, f);
    assert n <= |b.data|;
    var m := rest.offset - b.offset;
    assert rest.data == b.data[m..];
    assert b.data[m..] == s.app[b.offset + m..b.offset + |b.data|];
  }

  /** Replacing an entry by part of it, or dropping it, keeps the loss buffer sorted. */
  lemma ShrinkOk(s: Stream, i: nat, e: Buf, q: seq<Buf>)
    requires LossOk(s) && i < |s.lossBuffer| && Inside(e, s.lossBuffer[i]) && e.offset <= e.End()
    requires q == s.lossBuffer[i := e] || q == s.lossBuffer[..i] + s.lossBuffer[i + 1..]
    ensures Sorted(q)
    ensures forall j :: 0 <= j < |q| ==> q[j] == e || BufOk(s, q[j])
    ensures forall j :: 0 <= j < |q| ==> q[j] == e || (exists k :: 0 <= k < |s.lossBuffer| && k != i && q[j] == s.lossBuffer[k])
  {
    var p := s.lossBuffer;
    if q == p[i := e] {
      forall j | 0 <= j < |q| && j != i ensures q[j] == p[j] {}
    } else {
      forall j | 0 <= j < |q| ensures q[j] == p[if j < i then j else j + 1] {}
    }
  }

  lemma RemoveGood(s: Stream, f: Frame)
    requires LossOk(s) && Sent(s, f) && !LeavesHusk(s.lossBuffer, f)
    ensures LossOk(s.(lossBuffer := RemoveFromLossBuffer(s.lossBuffer, f)))
  {
    var q := s.lossBuffer;
    if q != [] && f.len > 0 && FirstOverlaid(q, f).Some? {
      var i := FirstOverlaid(q, f).value;
      assert BufOk(s, q[i]);
      TrimmedOk(s, q[i], f);
      var head := Buf(q[i].offset, Taken(q[i].data, SplitLen(q[i], f)), false);
      hide BufOk, LossOk, InsertIntoLossBuffer, Trimmed, Sent;
      GoodAfterShrink(s, i, Trimmed(q[i], f), Shrunk(q, f, i), head);
    }
  }

  lemma RemoveBad(s: Stream, f: Frame)
    requires LossOk(s) && Sent(s, f) && LeavesHusk(s.lossBuffer, f)
    ensures var r := RemoveFromLossBuffer(s.lossBuffer, f); exists j :: 0 <= j < |r| && r[j].Husk()
  {
    var q := s.lossBuffer;
    var i := FirstOverlaid(q, f).value;
    var b := q[i];
    assert BufOk(s, b);
    TrimmedOk(s, b, f);
    var q1 := Shrunk(q, f, i);
    ShrinkOk(s, i, Trimmed(b, f), q1);
    assert forall j :: 0 <= j < i ==> BufOk(s, q[j]) && q[j].End() <= b.offset;
    var head := Buf(b.offset, Taken(b.data, SplitLen(b, f)), false);
    HuskStays(s, q1, i, head);
    assert RemoveFromLossBuffer(q, f) == if head.data == [] then q1 else InsertIntoLossBuffer(q1, head);
  }

  /** The exact condition, for one frame: the loss buffer keeps its invariant unless a husk is left. */
  lemma RemoveExact(s: Stream, f: Frame)
    requires LossOk(s) && Sent(s, f)
    ensures LossOk(s.(lossBuffer := RemoveFromLossBuffer(s.lossBuffer, f))) <==> !LeavesHusk(s.lossBuffer, f)
  {
    var r := s.(lossBuffer := RemoveFromLossBuffer(s.lossBuffer, f));
    if LeavesHusk(s.lossBuffer, f) {
      RemoveBad(s, f);
      var j :| 0 <= j < |r.lossBuffer| && r.lossBuffer[j].Husk();
      assert !BufOk(r, r.lossBuffer[j]);
    } else {
      RemoveGood(s, f);
    }
  }

  /** Without a husk, the shortened buffer is good, and the front part can be put back into it. */
  lemma FrontReady(s: Stream, i: nat, rest: Buf, q1: seq<Buf>, head: Buf) returns (t: Stream)
    requires LossOk(s) && i < |s.lossBuffer| && Inside(rest, s.lossBuffer[i])
    requires q1 == s.lossBuffer[i := rest] || q1 == s.lossBuffer[..i] + s.lossBuffer[i + 1..]
    requires rest in q1 ==> BufOk(s, rest)
    requires head.offset == s.lossBuffer[i].offset && head.End() <= rest.offset && !head.eof
    requires |head.data| <= |s.lossBuffer[i].data| && head.data == s.lossBuffer[i].data[..|head.data|]
    ensures t == s.(lossBuffer := q1) && LossOk(t)
    ensures head.data != [] ==> BufOk(t, head) && ApartFromAll(head, q1)
  {
    var b := s.lossBuffer[i];
    t := s.(lossBuffer := q1);
    assert BufOk(s, b);
    ShrinkOk(s, i, rest, q1);
    assert LossOk(t) by { assert forall c :: BufOk(s, c) <==> BufOk(t, c); }
    if head.data != [] {
      assert BufOk(t, head) by { assert head.data == s.app[head.offset..head.offset + |head.data|]; }
      forall j | 0 <= j < |q1| ensures Apart(head, q1[j]) {
        if q1[j] != rest {
          var k :| 0 <= k < |s.lossBuffer| && k != i && q1[j] == s.lossBuffer[k];
          assert BufOk(s, s.lossBuffer[k]);
          assert k < i ==> s.lossBuffer[k].End() <= b.offset;
          assert k > i ==> b.End() <= s.lossBuffer[k].offset;
        }
      }
    }
  }

  lemma GoodAfterShrink(s: Stream, i: nat, rest: Buf, q1: seq<Buf>, head: Buf)
    requires LossOk(s) && i < |s.lossBuffer| && Inside(rest, s.lossBuffer[i])
    requires q1 == s.lossBuffer[i := rest] || q1 == s.lossBuffer[..i] + s.lossBuffer[i + 1..]
    requires rest in q1 ==> BufOk(s, rest)
    requires head.offset == s.lossBuffer[i].offset && head.End() <= rest.offset && !head.eof
    requires |head.data| <= |s.lossBuffer[i].data| && head.data == s.lossBuffer[i].data[..|head.data|]
    ensures var q := if head.data == [] then q1 else InsertIntoLossBuffer(q1, head);
            LossOk(s.(lossBuffer := q))
  {
    var t := FrontReady(s, i, rest, q1, head);
    if head.data != [] {
      InsertOk(t, head);
      assert forall c :: BufOk(t, c) ==> BufOk(s.(lossBuffer := InsertIntoLossBuffer(q1, head)), c);
    }
  }

  /** A husk in the loss buffer is still there, or still breaks it, after the front part is put back. */
  lemma HuskStays(s: Stream, q1: seq<Buf>, i: nat, head: Buf)
    requires i < |q1| && q1[i].Husk() && head.offset + |head.data| <= q1[i].offset && !head.eof
    requires Sorted(q1) && forall j :: 0 <= j < i ==> q1[j].offset < q1[j].End() <= head.offset
    ensures var q := if head.data == [] then q1 else InsertIntoLossBuffer(q1, head);
            exists j :: 0 <= j < |q| && q[j].Husk()
  {
    if head.data == [] {
      assert q1[i].Husk();
    } else {
      var q := InsertIntoLossBuffer(q1, head);
      var k := LowerBound(q1, head.offset + 1);
      assert k == i;
      if k > 0 && q1[k - 1].offset + |q1[k - 1].data| == head.offset {
        assert q[i] == q1[i];
      } else {
        assert q[i + 1] == q1[i];
      }
    }
  }

  // ------------------------------------------------------------------ what is still held

  /** Entry `i` is the first that the frame lies in, or that lies in the frame. */
  ghost predicate FirstIn(q: seq<Buf>, f: Frame, i: nat) {
    i < |q| && Overlaid(q[i], f) && forall j :: 0 <= j < i ==> !Overlaid(q[j], f)
  }

  /** In a sorted loss buffer the loop stops at the first overlaid entry, and misses none. */
  lemma {:induction false} StopsAtFirst(q: seq<Buf>, f: Frame, i: nat)
    requires Sorted(q) && i <= |q| && forall j :: 0 <= j < i ==> !Overlaid(q[j], f)
    ensures match FirstOverlaid(q, f, i)
            case Some(k) => FirstIn(q, f, k)
            case None => forall j :: 0 <= j < |q| ==> !Overlaid(q[j], f)
    decreases |q| - i
  {
    if i < |q| {
      if q[i].offset > f.offset + f.len {
        assert forall j :: i < j < |q| ==> q[i].End() <= q[j].offset;
      } else if !Overlaid(q[i], f) {
        StopsAtFirst(q, f, i + 1);
      }
    }
  }

  /** Position `x` of the entry lies in front of the removed range. */
  predicate InFront(b: Buf, f: Frame, x: int) { b.offset <= x < b.offset + SplitLen(b, f) }

  /** What is left of a trimmed entry: neither what lies in front of the frame nor what the frame carries. */
  lemma TrimmedCovers(s: Stream, b: Buf, f: Frame, x: int)
    requires BufOk(s, b) && Sent(s, f) && f.len > 0 && Overlaid(b, f) && (f.fin ==> b.eof)
    ensures var rest := Trimmed(b, f);
            if rest.data == [] && rest.eof == f.fin then b.Covers(x) ==> InFront(b, f, x) || x in Positions(f)
            else rest.Covers(x) <==> b.Covers(x) && !InFront(b, f, x) && x !in Positions(f)
  {
    TrimmedOk(s, b, f);
  }

  /** Shrinking one entry takes exactly its front and the frame's positions out of the loss buffer. */
  lemma ShrunkHolds(s: Stream, f: Frame, i: nat, x: int)
    requires LossOk(s) && Sent(s, f) && f.len > 0 && i < |s.lossBuffer| && Overlaid(s.lossBuffer[i], f) && (f.fin ==> s.lossBuffer[i].eof)
    ensures var b := s.lossBuffer[i];
            Held(Shrunk(s.lossBuffer, f, i), x) <==>
            Held(s.lossBuffer, x) && !(b.Covers(x) && (InFront(b, f, x) || x in Positions(f)))
  {
    var (q, b, rest, r) := (s.lossBuffer, s.lossBuffer[i], Trimmed(s.lossBuffer[i], f), Shrunk(s.lossBuffer, f, i));
    assert BufOk(s, b);
    TrimmedCovers(s, b, f, x);
    hide Trimmed, Positions, InFront, Sent, BufOk;
    OnlyOneCovers(q, i, x);
    if rest.data == [] && rest.eof == f.fin {
      SpliceHolds(r, b, i, q);
      WithoutEntry(q, i, r, x);
    } else {
      assert forall j :: 0 <= j < |q| && j != i ==> r[j] == q[j];
      assert r[i] == rest;
    }
  }

  /** Sorted entries share no position. */
  lemma OnlyOneCovers(q: seq<Buf>, i: nat, x: int)
    requires Sorted(q) && i < |q|
    ensures q[i].Covers(x) ==> forall j :: 0 <= j < |q| && j != i ==> !q[j].Covers(x)
  {
  }

  lemma WithoutEntry(q: seq<Buf>, i: nat, r: seq<Buf>, x: int)
    requires i < |q| && r == q[..i] + q[i + 1..]
    requires q[i].Covers(x) ==> forall j :: 0 <= j < |q| && j != i ==> !q[j].Covers(x)
    ensures q[i].Covers(x) ==> !Held(r, x)
  {
    assert forall j :: 0 <= j < |r| ==> r[j] == q[if j < i then j else j + 1];
  }

  /** The frame takes position `x` out of the loss buffer: the first overlaid entry holds it, and the frame carries it. */
  ghost predicate TakesOut(q: seq<Buf>, f: Frame, x: int) {
    f.len > 0 && x in Positions(f) && exists i: nat :: FirstIn(q, f, i) && q[i].Covers(x)
  }

  /** A late acknowledgement takes exactly those positions out of the loss buffer. */
  lemma RemoveHolds(s: Stream, f: Frame, x: int)
    requires LossOk(s) && Sent(s, f) && !LeavesHusk(s.lossBuffer, f)
    ensures Held(RemoveFromLossBuffer(s.lossBuffer, f), x) <==> Held(s.lossBuffer, x) && !TakesOut(s.lossBuffer, f, x)
  {
    var q := s.lossBuffer;
    StopsAtFirst(q, f, 0);
    if q != [] && f.len > 0 && FirstOverlaid(q, f).Some? {
      var i := FirstOverlaid(q, f).value;
      RemoveHoldsAt(s, f, i, x);
      OneTakesOut(q, f, i, x);
    }
  }

  lemma OneTakesOut(q: seq<Buf>, f: Frame, i: nat, x: int)
    requires FirstIn(q, f, i) && f.len > 0
    ensures TakesOut(q, f, x) <==> q[i].Covers(x) && x in Positions(f)
  {
    hide Positions;
    if TakesOut(q, f, x) {
      var k: nat :| FirstIn(q, f, k) && q[k].Covers(x);
      assert k == i;
    }
  }

  lemma RemoveHoldsAt(s: Stream, f: Frame, i: nat, x: int)
    requires LossOk(s) && Sent(s, f) && f.len > 0 && FirstOverlaid(s.lossBuffer, f) == Some(i) && !LeavesHusk(s.lossBuffer, f)
    ensures Held(RemoveFromLossBuffer(s.lossBuffer, f), x) <==>
            Held(s.lossBuffer, x) && !(s.lossBuffer[i].Covers(x) && x in Positions(f))
  {
    var q := s.lossBuffer;
    ShrunkHolds(s, f, i, x);
    assert BufOk(s, q[i]);
    TrimmedOk(s, q[i], f);
    var head := Buf(q[i].offset, Taken(q[i].data, SplitLen(q[i], f)), false);
    assert head.Covers(x) <==> InFront(q[i], f, x);
    assert InFront(q[i], f, x) ==> q[i].Covers(x) && x !in Positions(f);
    assert q[i].Covers(x) ==> Held(q, x);
    if head.data != [] { FrontHolds(s, i, Trimmed(q[i], f), Shrunk(q, f, i), head, x); }
  }

  lemma FrontHolds(s: Stream, i: nat, rest: Buf, q1: seq<Buf>, head: Buf, x: int)
    requires LossOk(s) && i < |s.lossBuffer| && Inside(rest, s.lossBuffer[i])
    requires q1 == s.lossBuffer[i := rest] || q1 == s.lossBuffer[..i] + s.lossBuffer[i + 1..]
    requires rest in q1 ==> BufOk(s, rest)
    requires head.offset == s.lossBuffer[i].offset && head.End() <= rest.offset && !head.eof && head.data != []
    requires |head.data| <= |s.lossBuffer[i].data| && head.data == s.lossBuffer[i].data[..|head.data|]
    ensures Held(InsertIntoLossBuffer(q1, head), x) <==> Held(q1, x) || head.Covers(x)
  {
    var t := FrontReady(s, i, rest, q1, head);
    InsertOk(t, head);
  }

  /** Two buffers that share no position are apart. */
  lemma ApartByPositions(a: Buf, b: Buf)
    requires !a.Husk() && !b.Husk() && forall x :: !(a.Covers(x) && b.Covers(x))
    ensures Apart(a, b)
  {
    assert a.Covers(a.offset) && b.Covers(b.offset);
  }

  lemma SpuriousPositions(s: Stream, f: Frame, r: Stream)
    requires LossOk(s) && Sent(s, f) && r == SpuriousFrame(s, f) && !LeavesHusk(s.lossBuffer, f)
    ensures forall x :: Lost(r, x) <==> Lost(s, x) && !TakesOut(s.lossBuffer, f, x)
    ensures forall x :: InFlight(r, x) == InFlight(s, x)
  {
    hide LossOk, Sent, LeavesHusk, RemoveFromLossBuffer, TakesOut;
    forall x ensures Lost(r, x) <==> Lost(s, x) && !TakesOut(s.lossBuffer, f, x) {
      RemoveHolds(s, f, x);
      assert Lost(r, x) == Held(r.lossBuffer, x) && Lost(s, x) == Held(s.lossBuffer, x);
    }
  }

  /**
   A late acknowledgement marks exactly the frame's positions acknowledged, and takes exactly those of them out of the loss
   buffer that its first overlaid entry holds; nothing else changes.
   */
  lemma SpuriousMoves(s: Stream, f: Frame, x: int)
    requires LossOk(s) && Sent(s, f) && !LeavesHusk(s.lossBuffer, f)
    ensures var r := SpuriousFrame(s, f);
            && (x in r.acked <==> x in s.acked || f.offset <= x < f.offset + f.len + if f.fin then 1 else 0)
            && (Lost(r, x) <==> Lost(s, x) && !TakesOut(s.lossBuffer, f, x))
            && r == s.(acked := r.acked, lossBuffer := r.lossBuffer)
  {
    hide LossOk, Sent, LeavesHusk, RemoveFromLossBuffer, TakesOut;
    SpuriousPositions(s, f, SpuriousFrame(s, f));
  }

  /** Entry `j` holds a position of the frame. */
  ghost predicate Shares(q: seq<Buf>, f: Frame, j: nat) { j < |q| && exists x :: x in Positions(f) && q[j].Covers(x) }

  /** All of a frame's positions leave the loss buffer exactly when no other entry than the first overlaid one holds any. */
  lemma TakenOutWhole(s: Stream, f: Frame)
    requires LossOk(s) && Sent(s, f) && !LeavesHusk(s.lossBuffer, f) && f.len > 0
    ensures (forall x :: x in Positions(f) ==> !Lost(SpuriousFrame(s, f), x)) <==>
            (forall j: nat :: Shares(s.lossBuffer, f, j) ==> FirstIn(s.lossBuffer, f, j))
  {
    var (q, r) := (s.lossBuffer, SpuriousFrame(s, f));
    SpuriousPositions(s, f, r);
    assert Sorted(q);
    hide Sent, LeavesHusk, SpuriousFrame, FirstIn, Positions, LossOk;
    if forall x :: x in Positions(f) ==> !Lost(r, x) {
      forall j: nat | Shares(q, f, j) ensures FirstIn(q, f, j) {
        var x :| x in Positions(f) && q[j].Covers(x);
        assert Lost(s, x) && TakesOut(q, f, x);
        var i: nat :| FirstIn(q, f, i) && q[i].Covers(x);
        InRange(q, f, i);
        OnlyOneCovers(q, j, x);
      }
    }
    if forall j: nat :: Shares(q, f, j) ==> FirstIn(q, f, j) {
      forall x | x in Positions(f) ensures !Lost(r, x) {
        if Lost(s, x) {
          var j :| 0 <= j < |q| && q[j].Covers(x);
          assert Shares(q, f, j) && TakesOut(q, f, x);
        }
      }
    }
  }

  lemma InRange(q: seq<Buf>, f: Frame, i: nat)
    requires FirstIn(q, f, i)
    ensures i < |q|
  {
  }

  /** The buffers are good or not whatever was acknowledged. */
  lemma SameBufOk(s: Stream, f: Frame)
    ensures var r, t := SpuriousFrame(s, f), s.(lossBuffer := RemoveFromLossBuffer(s.lossBuffer, f));
            && (LossOk(r) <==> LossOk(t))
            && (RetxOk(s) ==> RetxOk(r)) && (PendingOk(s) ==> PendingOk(r))
  {
    hide RemoveFromLossBuffer;
    var r, t := SpuriousFrame(s, f), s.(lossBuffer := RemoveFromLossBuffer(s.lossBuffer, f));
    assert forall c :: (BufOk(r, c) <==> BufOk(s, c)) && (BufOk(t, c) <==> BufOk(s, c));
  }

  /**
   A spurious loss keeps the whole invariant of the send buffers (nothing forgotten, nothing
   corrupted, buffers apart) if and only if it does not leave a husk.
   */
  lemma SpuriousExact(s: Stream, f: Frame)
    requires StreamInv(s) && Sent(s, f)
    ensures StreamInv(SpuriousFrame(s, f)) <==> !LeavesHusk(s.lossBuffer, f)
  {
    hide LossOk, RetxOk, PendingOk, RetxLossApart, LeavesHusk, RemoveFromLossBuffer, InFlight, Lost;
    var r := SpuriousFrame(s, f);
    RemoveExact(s, f);
    SameBufOk(s, f);
    if !LeavesHusk(s.lossBuffer, f) {
      SpuriousPositions(s, f, r);
      SpuriousApart(s, f, r);
    }
  }

  lemma SpuriousApart(s: Stream, f: Frame, r: Stream)
    requires StreamInv(s) && r == SpuriousFrame(s, f) && LossOk(r)
    requires forall x :: Lost(r, x) ==> Lost(s, x)
    ensures RetxLossApart(r)
  {
    forall k, i | k in r.retransmissionBuffer && 0 <= i < |r.lossBuffer|
      ensures Apart(r.retransmissionBuffer[k], r.lossBuffer[i])
    {
      var a, b := s.retransmissionBuffer[k], r.lossBuffer[i];
      assert BufOk(s, a) && BufOk(r, b);
      forall x | b.Covers(x) ensures !a.Covers(x) {
        assert Lost(r, x) && Lost(s, x);
        var j :| 0 <= j < |s.lossBuffer| && s.lossBuffer[j].Covers(x);
        assert Apart(a, s.lossBuffer[j]);
      }
      ApartByPositions(a, b);
    }
  }

  // ------------------------------------------------------------------ packets

  /** Every frame of every outstanding packet, lost or not, was sent on the stream. */
  ghost predicate FramesSent(c: Conn) {
    forall n, f :: n in c.packets && f in c.packets[n].frames ==> Sent(c.stream, f)
  }

  /** What was sent stays sent: the application's bytes and the sent range only grow. */
  ghost predicate Later(s: Stream, r: Stream) {
    r.app == s.app && r.finalWriteOffset == s.finalWriteOffset && s.currentWriteOffset <= r.currentWriteOffset
  }

  lemma {:induction false} WriteFramesLater(s: Stream, fs: seq<Frame>)
    requires WriteFrames(s, fs).Ok?
    ensures Later(s, WriteFrames(s, fs).value)
    decreases |fs|
  {
    if fs != [] { WriteFramesLater(HandleStreamWritten(s, fs[0]).0.value, fs[1..]); }
  }

  lemma {:induction false} AckFramesLater(s: Stream, fs: seq<Frame>)
    requires AckFrames(s, fs).Ok?
    ensures Later(s, AckFrames(s, fs).value)
    decreases |fs|
  {
    if fs != [] { AckFramesLater(AckFrame(s, fs[0]).value, fs[1..]); }
  }

  lemma {:induction false} LoseFramesLater(s: Stream, fs: seq<Frame>)
    ensures Later(s, LoseFrames(s, fs))
    decreases |fs|
  {
    if fs != [] { LoseFramesLater(LoseFrame(s, fs[0]), fs[1..]); }
  }

  lemma MatchedIsSent(s: Stream, f: Frame)
    requires StreamInv(s) && Matches(s, f)
    ensures Sent(s, f)
  {
    assert BufOk(s, s.retransmissionBuffer[f.offset]);
  }

  lemma StepFramesSent(c: Conn, step: Step, r: Conn)
    requires ConnInv(c) && FramesSent(c) && Enabled(c, step) && Next(c, step) == Ok(r)
    ensures FramesSent(r)
  {
    hide ConnInv, StreamInv, WriteFrames, AckFrames, LoseFrames, RebuildFrames, Live;
    match step
    case Write(_, _) =>
      forall m, f | m in r.packets && f in r.packets[m].frames ensures Sent(r.stream, f) {
        assert Sent(c.stream, f);
      }
    case Send(grants, grant) =>
      WriteFramesLater(c.stream, Scheduled(c.stream, grants, grant));
      NewPacketSent(c, step, r);
      forall n, f | n in r.packets && f in r.packets[n].frames ensures Sent(r.stream, f) {
        if n != c.nextPacketNum { assert Sent(c.stream, f); }
      }
    case Clone(n) =>
      var r' := CloneShape(c, n);
    case Ack(n) =>
      if Live(c, n) { AckFramesLater(c.stream, c.packets[n].frames); }
      forall m, f | m in r.packets && f in r.packets[m].frames ensures Sent(r.stream, f) {
        assert Sent(c.stream, f);
      }
    case Lose(n) =>
      LoseFramesLater(c.stream, c.packets[n].frames);
      forall m, f | m in r.packets && f in r.packets[m].frames ensures Sent(r.stream, f) {
        assert Sent(c.stream, f);
      }
    case DropLost(_) =>
  }

  lemma NewPacketSent(c: Conn, step: Step, r: Conn)
    requires ConnInv(c) && step.Send? && Enabled(c, step) && Next(c, step) == Ok(r)
    ensures forall f :: f in r.packets[c.nextPacketNum].frames ==> Sent(r.stream, f)
  {
    hide StreamInv, IdsOk, GroupsOk, NoOrphans, CountsOk, WriteFrames;
    StepInv(c, step);
    var z := c.nextPacketNum;
    assert Live(r, z);
    forall f | f in r.packets[z].frames ensures Sent(r.stream, f) { MatchedIsSent(r.stream, f); }
  }

  lemma {:induction false} EveryRunFramesSent(steps: seq<Step>, c: Conn)
    requires Reaches(steps, c)
    ensures FramesSent(c)
    decreases |steps|
  {
    if steps != [] {
      var last := steps[|steps| - 1];
      var b: Conn :| Reaches(steps[..|steps| - 1], b) && Enabled(b, last) && Next(b, last) == Ok(c);
      EveryRunFramesSent(steps[..|steps| - 1], b);
      EveryRunKeepsBytes(steps[..|steps| - 1], b);
      StepFramesSent(b, last, c);
    }
  }

  /** No frame of the packet leaves a husk when the frames are taken out one after the other. */
  predicate SafeRemoval(s: Stream, fs: seq<Frame>)
    decreases fs
  {
    fs == [] || (!LeavesHusk(s.lossBuffer, fs[0]) && SafeRemoval(SpuriousFrame(s, fs[0]), fs[1..]))
  }

  lemma {:induction false} SpuriousFramesInv(s: Stream, fs: seq<Frame>)
    requires StreamInv(s) && (forall f :: f in fs ==> Sent(s, f)) && SafeRemoval(s, fs)
    ensures var r := SpuriousFrames(s, fs);
            StreamInv(r) && Later(s, r) && r.retransmissionBuffer == s.retransmissionBuffer
    decreases |fs|
  {
    hide StreamInv, LeavesHusk, RemoveFromLossBuffer;
    if fs != [] {
      assert fs[0] in fs && forall f :: f in fs[1..] ==> f in fs;
      SpuriousExact(s, fs[0]);
      SpuriousFramesInv(SpuriousFrame(s, fs[0]), fs[1..]);
    }
  }

  /** With the option on, a late acknowledgement keeps the whole connection invariant as long as no husk is left. */
  lemma SpuriousAckInv(c: Conn, n: nat)
    requires ConnInv(c) && FramesSent(c) && Enabled(c, DropLost(n)) && SafeRemoval(c.stream, c.packets[n].frames)
    ensures SpuriousAck(c, n).Ok? && ConnInv(SpuriousAck(c, n).value) && FramesSent(SpuriousAck(c, n).value)
  {
    hide StreamInv, IdsOk, LiveMatch, GroupsOk, NoOrphans, CountsOk, SafeRemoval, SpuriousFrames;
    SpuriousFramesInv(c.stream, c.packets[n].frames);
    DropLostInv(c, n);
    var d, s := DropLostPacket(c, n).value, SpuriousFrames(c.stream, c.packets[n].frames);
    SamePackets(d, s);
    assert SpuriousAck(c, n) == Ok(d.(stream := s));
    forall m, f | m in d.packets && f in d.packets[m].frames ensures Sent(s, f) { assert Sent(c.stream, f); }
  }

  // ------------------------------------------------------------------ when it does not work

  const BYTE_X: bv8 := 120
  const BYTE_Y: bv8 := 121
  const WHOLE := Buf(0, [BYTE_X, BYTE_Y], true)
  const FRONT := Buf(0, [BYTE_X], false)
  const BACK := Buf(1, [BYTE_Y], true)

  function Sender(retx: map<nat, Buf>, loss: seq<Buf>): (s: Stream) {
    Stream([BYTE_X, BYTE_Y], [], 3, Some(2), retx, loss, {})
  }

  function WholePacket(lost: bool): (p: Packet) { Packet([Frame(0, 2, true)], None, lost) }

  function FrontPacket(lost: bool): (p: Packet) { Packet([Frame(0, 1, false)], None, lost) }

  const BACK_PACKET := Packet([Frame(1, 1, true)], None, false)

  /**
   Two bytes and a FIN are sent in one packet and lost, sent again in two packets of which
   the first is lost too; then the first packet of all is acknowledged.
   */
  const HUSK_RUN: seq<Step> :=
    [Write([BYTE_X, BYTE_Y], true), Send([], Some(2)), Lose(0), Send([1], None), Send([1], None), Lose(1)]

  const ALL_WRITTEN := Conn(Stream([BYTE_X, BYTE_Y], [BYTE_X, BYTE_Y], 0, Some(2), map[], [], {}), map[], {}, 0, 0, 0, 0)
  const WHOLE_SENT := Conn(Sender(map[0 := WHOLE], []), map[0 := WholePacket(false)], {}, 1, 1, 0, 0)
  const WHOLE_LOST := Conn(Sender(map[], [WHOLE]), map[0 := WholePacket(true)], {}, 1, 0, 0, 1)
  const FRONT_SENT := Conn(Sender(map[0 := FRONT], [BACK]),
                       map[0 := WholePacket(true), 1 := FrontPacket(false)], {}, 2, 1, 0, 1)
  const BACK_SENT := Conn(Sender(map[0 := FRONT, 1 := BACK], []),
                       map[0 := WholePacket(true), 1 := FrontPacket(false), 2 := BACK_PACKET], {}, 3, 2, 0, 1)
  const FRONT_LOST := Conn(Sender(map[1 := BACK], [FRONT]),
                       map[0 := WholePacket(true), 1 := FrontPacket(true), 2 := BACK_PACKET], {}, 3, 1, 0, 2)

  lemma Extend(steps: seq<Step>, b: Conn, last: Step, c: Conn)
    requires Reaches(steps, b) && Enabled(b, last) && Next(b, last) == Ok(c)
    ensures Reaches(steps + [last], c)
  {
    var all := steps + [last];
    assert all[..|all| - 1] == steps && all[|all| - 1] == last;
    assert Reaches(all[..|all| - 1], b);
  }

  /** One frame: the packet's frames are written by one call. */
  lemma WriteOne(s: Stream, f: Frame, r: Stream, kind: WriteKind)
    requires HandleStreamWritten(s, f) == (Ok(r), kind) && kind != OffsetError
    ensures WriteFrames(s, [f]) == Ok(r)
  {
    assert [f][1..] == [];
  }

  lemma SendWhole()
    ensures Enabled(ALL_WRITTEN, HUSK_RUN[1]) && Next(ALL_WRITTEN, HUSK_RUN[1]) == Ok(WHOLE_SENT)
  {
    var f := Frame(0, 2, true);
    assert Scheduled(ALL_WRITTEN.stream, [], Some(2)) == [f];
    assert [BYTE_X, BYTE_Y][..2] == [BYTE_X, BYTE_Y];
    WriteOne(ALL_WRITTEN.stream, f, WHOLE_SENT.stream, NewData);
  }

  lemma SendFront()
    ensures Enabled(WHOLE_LOST, HUSK_RUN[3]) && Next(WHOLE_LOST, HUSK_RUN[3]) == Ok(FRONT_SENT)
  {
    var f := Frame(0, 1, false);
    assert [1][1..] == [] && [WHOLE][1..] == [];
    assert LossFrames([WHOLE], [1]) == [f] + LossFrames([], []);
    assert Scheduled(WHOLE_LOST.stream, [1], None) == [f];
    assert [BYTE_X, BYTE_Y][..1] == [BYTE_X] && [BYTE_X, BYTE_Y][1..] == [BYTE_Y];
    assert [WHOLE][0 := BACK] == [BACK];
    WriteOne(WHOLE_LOST.stream, f, FRONT_SENT.stream, Retransmission);
  }

  lemma SendBack()
    ensures Enabled(FRONT_SENT, HUSK_RUN[4]) && Next(FRONT_SENT, HUSK_RUN[4]) == Ok(BACK_SENT)
  {
    var f := Frame(1, 1, true);
    assert [1][1..] == [] && [BACK][1..] == [];
    assert LossFrames([BACK], [1]) == [f] + LossFrames([], []);
    assert Scheduled(FRONT_SENT.stream, [1], None) == [f];
    assert [BACK][..0] + [BACK][1..] == [];
    WriteOne(FRONT_SENT.stream, f, BACK_SENT.stream, Retransmission);
  }

  lemma LoseWhole()
    ensures Enabled(WHOLE_SENT, HUSK_RUN[2]) && Next(WHOLE_SENT, HUSK_RUN[2]) == Ok(WHOLE_LOST)
  {
    LoseOne(WHOLE_SENT.stream, Frame(0, 2, true));
    assert map[0 := WHOLE] - {0} == map[];
    assert InsertIntoLossBuffer([], WHOLE) == [WHOLE];
    assert Live(WHOLE_SENT, 0);
    assert WHOLE_SENT.packets[0 := WholePacket(true)] == WHOLE_LOST.packets;
  }

  lemma LoseFront()
    ensures Enabled(BACK_SENT, HUSK_RUN[5]) && Next(BACK_SENT, HUSK_RUN[5]) == Ok(FRONT_LOST)
  {
    LoseOne(BACK_SENT.stream, Frame(0, 1, false));
    assert map[0 := FRONT, 1 := BACK] - {0} == map[1 := BACK];
    assert InsertIntoLossBuffer([], FRONT) == [FRONT];
    assert Live(BACK_SENT, 1);
    assert BACK_SENT.packets[1 := FrontPacket(true)] == FRONT_LOST.packets;
  }

  lemma LoseOne(s: Stream, f: Frame)
    ensures LoseFrames(s, [f]) == LoseFrame(s, f)
  {
    assert [f][1..] == [];
  }

  lemma HuskRunReaches()
    ensures Reaches(HUSK_RUN, FRONT_LOST)
  {
    hide Next, Enabled, Reaches;
    assert HUSK_RUN[..1] + [HUSK_RUN[1]] == HUSK_RUN[..2];
    assert HUSK_RUN[..2] + [HUSK_RUN[2]] == HUSK_RUN[..3];
    assert HUSK_RUN[..3] + [HUSK_RUN[3]] == HUSK_RUN[..4];
    assert HUSK_RUN[..4] + [HUSK_RUN[4]] == HUSK_RUN[..5];
    assert HUSK_RUN[..5] + [HUSK_RUN[5]] == HUSK_RUN;
    StartRun();
    SendWhole();
    Extend(HUSK_RUN[..1], ALL_WRITTEN, HUSK_RUN[1], WHOLE_SENT);
    LoseWhole();
    Extend(HUSK_RUN[..2], WHOLE_SENT, HUSK_RUN[2], WHOLE_LOST);
    SendFront();
    Extend(HUSK_RUN[..3], WHOLE_LOST, HUSK_RUN[3], FRONT_SENT);
    SendBack();
    Extend(HUSK_RUN[..4], FRONT_SENT, HUSK_RUN[4], BACK_SENT);
    LoseFront();
    Extend(HUSK_RUN[..5], BACK_SENT, HUSK_RUN[5], FRONT_LOST);
  }

  lemma StartRun()
    ensures Reaches(HUSK_RUN[..1], ALL_WRITTEN)
  {
    assert [] + [BYTE_X, BYTE_Y] == [BYTE_X, BYTE_Y];
    assert Next(INITIAL_CONN, HUSK_RUN[0]) == Ok(ALL_WRITTEN);
    Extend([], INITIAL_CONN, HUSK_RUN[0], ALL_WRITTEN);
    assert HUSK_RUN[..1] == [] + [HUSK_RUN[0]];
  }

  /**
   After that run, the late acknowledgement of packet 0 leaves a husk at offset 1, and cloning
   packet 2, which the transport may do, fails the CHECK on the retransmission buffer.
   */
  lemma HuskFailsCheck()
    ensures Reaches(HUSK_RUN, FRONT_LOST) && Enabled(FRONT_LOST, DropLost(0))
    ensures LeavesHusk(FRONT_LOST.stream.lossBuffer, Frame(0, 2, true))
    ensures SpuriousAck(FRONT_LOST, 0).Ok?
    ensures var c := SpuriousAck(FRONT_LOST, 0).value;
            && c.stream.lossBuffer == [Buf(1, [], false)]
            && Enabled(c, Clone(2)) && Next(c, Clone(2)) == CheckFailed
  {
    HuskRunReaches();
    var f, s := Frame(0, 2, true), FRONT_LOST.stream;
    assert FirstOverlaid([FRONT], f) == Some(0);
    assert Trimmed(FRONT, f) == Buf(1, [], false);
    assert RemoveFromLossBuffer([FRONT], f) == [FRONT][0 := Buf(1, [], false)];
    assert [f][1..] == [];
    assert SpuriousFrames(s, [f]) == SpuriousFrame(s, f);
    var c := SpuriousAck(FRONT_LOST, 0).value;
    assert c.packets[2] == BACK_PACKET;
    CloneFails(c);
  }

  lemma CloneFails(c: Conn)
    requires 2 in c.packets && c.packets[2] == BACK_PACKET
    requires c.stream.currentWriteOffset == 3 && c.stream.lossBuffer == [Buf(1, [], false)]
    requires c.stream.retransmissionBuffer == map[1 := BACK]
    ensures Enabled(c, Clone(2)) && Next(c, Clone(2)) == CheckFailed
  {
    var f := Frame(1, 1, true);
    assert [f][1..] == [];
    assert RebuildFrames(c.stream, [f]) == Some([f] + []);
    assert [f] + [] == [f];
    assert HandleStreamWritten(c.stream, f) == (CheckFailed, Retransmission);
  }
}
