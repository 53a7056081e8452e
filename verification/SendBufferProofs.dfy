/** Every operation on the send buffers keeps `StreamInv`, and takes the branch its frame was built for. */
module SendBufferProofs {
  import opened Prelude
  import opened SendBuffers

  // ------------------------------------------------------------------ what the scheduler puts in frames

  /** A frame the scheduler cut from the front of `pendingWrites` (`writeStreamFrame`). */
  ghost predicate CutFromPending(s: Stream, f: Frame) {
    && f.offset == s.currentWriteOffset <= |s.app|
    && f.len <= |s.pendingWrites|
    && (f.fin ==> s.finalWriteOffset.Some? && f.len == |s.pendingWrites|)
    && (f.len > 0 || f.fin)
  }

  /** A frame the scheduler cut from the front of a loss buffer entry (`writeStreamLossBuffers`). */
  ghost predicate CutFromLoss(s: Stream, f: Frame, k: nat) {
    && k < |s.lossBuffer|
    && var b := s.lossBuffer[k];
       && f.offset == b.offset
       && f.len <= |b.data|
       && f.fin == (b.eof && f.len == |b.data|)
       && (f.len > 0 || f.fin)
  }

  // ------------------------------------------------------------------ application write

  lemma AppWriteInv(s: Stream, data: seq<bv8>, eof: bool)
    requires StreamInv(s) && s.finalWriteOffset.None?
    ensures StreamInv(AppWrite(s, data, eof))
    ensures AckedReleased(s) ==> AckedReleased(AppWrite(s, data, eof))
    ensures AppWrite(s, data, eof) == s.(app := s.app + data, pendingWrites := s.pendingWrites + data,
                                         finalWriteOffset := if eof then Some(|s.app| + |data|) else None)
  {
    var r := AppWrite(s, data, eof);
    forall b: Buf | BufOk(s, b) ensures BufOk(r, b) {
      assert r.app[b.offset..b.offset + |b.data|] == s.app[b.offset..b.offset + |b.data|];
    }
    assert r.pendingWrites == r.app[s.currentWriteOffset..];
    SameHeld(s, r);
  }

  /** Two streams with the same buffers hold the same positions. */
  lemma SameHeld(s: Stream, r: Stream)
    requires r.retransmissionBuffer == s.retransmissionBuffer && r.lossBuffer == s.lossBuffer
    ensures forall x :: InFlight(r, x) == InFlight(s, x)
    ensures forall x :: Lost(r, x) == Lost(s, x)
  {
  }

  // ------------------------------------------------------------------ new data

  /** What `handleNewStreamDataWritten` does with a frame cut from the pending bytes. */
  lemma NewDataShape(s: Stream, f: Frame)
    requires StreamInv(s) && CutFromPending(s, f)
    ensures var b := Buf(f.offset, s.app[f.offset..f.offset + f.len], f.fin);
            HandleStreamWritten(s, f) ==
              (Ok(s.(currentWriteOffset := b.End(),
                     pendingWrites := s.pendingWrites[f.len..],
                     retransmissionBuffer := s.retransmissionBuffer[f.offset := b])), NewData)
    ensures f.offset !in s.retransmissionBuffer
  {
    assert s.pendingWrites[..f.len] == s.app[f.offset..f.offset + f.len];
  }

  /** Adding an entry to the retransmission buffer puts exactly its positions in flight. */
  lemma AddToFlight(s: Stream, b: Buf, r: Stream)
    requires b.offset !in s.retransmissionBuffer
    requires r.retransmissionBuffer == s.retransmissionBuffer[b.offset := b]
    ensures forall x :: InFlight(r, x) <==> InFlight(s, x) || b.Covers(x)
  {
    forall x ensures InFlight(r, x) <==> InFlight(s, x) || b.Covers(x) {
      if InFlight(s, x) {
        var k :| k in s.retransmissionBuffer && s.retransmissionBuffer[k].Covers(x);
        assert r.retransmissionBuffer[k].Covers(x);
      }
      if b.Covers(x) { assert r.retransmissionBuffer[b.offset].Covers(x); }
      if InFlight(r, x) {
        var k :| k in r.retransmissionBuffer && r.retransmissionBuffer[k].Covers(x);
        assert k != b.offset ==> s.retransmissionBuffer[k].Covers(x);
      }
    }
  }

  /** New data adds exactly the positions past the old write offset. */
  lemma NewDataPositions(s: Stream, b: Buf, r: Stream)
    requires StreamInv(s) && b.offset == s.currentWriteOffset && b.offset !in s.retransmissionBuffer
    requires r == s.(currentWriteOffset := b.End(), pendingWrites := r.pendingWrites,
                     retransmissionBuffer := s.retransmissionBuffer[b.offset := b])
    ensures Covered(r) && AckedSent(r) && (AckedReleased(s) ==> AckedReleased(r))
  {
    AddToFlight(s, b, r);
    assert forall x :: Lost(r, x) <==> Lost(s, x);
  }

  /** A buffer stays good while the sent range grows. */
  lemma BufOkKept(s: Stream, r: Stream)
    requires r.app == s.app && r.finalWriteOffset == s.finalWriteOffset
    requires s.currentWriteOffset <= r.currentWriteOffset
    ensures forall c: Buf :: BufOk(s, c) ==> BufOk(r, c)
  {
  }

  lemma NewDataPending(s: Stream, f: Frame, r: Stream)
    requires PendingOk(s) && CutFromPending(s, f)
    requires r == s.(currentWriteOffset := f.offset + f.len + (if f.fin then 1 else 0),
                     pendingWrites := s.pendingWrites[f.len..], retransmissionBuffer := r.retransmissionBuffer)
    ensures PendingOk(r) && BufOk(r, Buf(f.offset, s.app[f.offset..f.offset + f.len], f.fin))
  {
  }

  /** What is new lies behind every buffer held so far. */
  lemma NewDataApart(s: Stream, b: Buf, r: Stream)
    requires RetxOk(s) && LossOk(s) && RetxLossApart(s) && b.offset == s.currentWriteOffset && BufOk(r, b)
    requires r == s.(currentWriteOffset := b.End(), pendingWrites := r.pendingWrites,
                     retransmissionBuffer := s.retransmissionBuffer[b.offset := b])
    ensures RetxOk(r) && LossOk(r) && RetxLossApart(r)
  {
    forall c: Buf | BufOk(s, c) ensures BufOk(r, c) && Apart(b, c) && Apart(c, b) { BufOkKept(s, r); }
    hide BufOk, Apart;
  }

  lemma NewDataInv(s: Stream, f: Frame)
    requires StreamInv(s) && CutFromPending(s, f)
    ensures HandleStreamWritten(s, f).1 == NewData
    ensures var r := HandleStreamWritten(s, f).0;
            r.Ok? && StreamInv(r.value) && (AckedReleased(s) ==> AckedReleased(r.value))
  {
    NewDataShape(s, f);
    var r := HandleStreamWritten(s, f).0.value;
    hide HandleStreamWritten;
    NewDataPending(s, f, r);
    NewDataPositions(s, r.retransmissionBuffer[f.offset], r);
    NewDataApart(s, r.retransmissionBuffer[f.offset], r);
  }

  // ------------------------------------------------------------------ clone

  /** The frame of a cloned packet is still in flight, so writing it moves nothing. */
  lemma CloneIsClone(s: Stream, f: Frame)
    requires StreamInv(s) && f.offset in s.retransmissionBuffer
    ensures HandleStreamWritten(s, f) == (Ok(s), CloneWrite)
  {
    var b := s.retransmissionBuffer[f.offset];
    assert BufOk(s, b);
    assert forall k :: 0 <= k < |s.lossBuffer| ==> BufOk(s, s.lossBuffer[k]) && Apart(b, s.lossBuffer[k]);
  }

  // ------------------------------------------------------------------ retransmission

  lemma LowerBoundFinds(q: seq<Buf>, k: nat)
    requires k < |q| && Sorted(q) && forall i :: 0 <= i < |q| ==> q[i].offset < q[i].End()
    ensures LowerBound(q, q[k].offset) == k
  {
    assert forall m :: 0 <= m < k ==> q[m].offset < q[k].offset;
  }

  /** The loss buffer after the frame was cut from entry `k`. */
  ghost function LossAfterCut(q: seq<Buf>, f: Frame, k: nat): seq<Buf>
    requires k < |q| && f.len <= |q[k].data|
  {
    if f.len == |q[k].data| && f.fin == q[k].eof then q[..k] + q[k + 1..]
    else q[k := Buf(q[k].offset + f.len, q[k].data[f.len..], q[k].eof)]
  }

  lemma RetransmitShape(s: Stream, f: Frame, k: nat)
    requires StreamInv(s) && CutFromLoss(s, f, k)
    ensures var w := Buf(f.offset, s.app[f.offset..f.offset + f.len], f.fin);
            HandleStreamWritten(s, f) ==
              (Ok(s.(retransmissionBuffer := s.retransmissionBuffer[f.offset := w],
                     lossBuffer := LossAfterCut(s.lossBuffer, f, k))), Retransmission)
    ensures f.offset !in s.retransmissionBuffer
  {
    var b := s.lossBuffer[k];
    assert BufOk(s, b);
    LowerBoundFinds(s.lossBuffer, k);
    assert forall m :: m in s.retransmissionBuffer ==>
      BufOk(s, s.retransmissionBuffer[m]) && Apart(s.retransmissionBuffer[m], b);
    assert b.data[..f.len] == s.app[f.offset..f.offset + f.len];
    assert f.len == |b.data| ==> b.data == b.data[..f.len];
  }

  ghost predicate Inside(a: Buf, b: Buf) { b.offset <= a.offset && a.End() <= b.End() }

  /** What is left of a good buffer after its first `n` bytes were cut off. */
  lemma RestOk(s: Stream, b: Buf, n: nat)
    requires BufOk(s, b) && n <= |b.data| && (n < |b.data| || b.eof)
    ensures BufOk(s, Buf(b.offset + n, b.data[n..], b.eof))
  {
    assert b.data[n..] == s.app[b.offset + n..b.offset + |b.data|];
  }

  /** Every entry left after the cut is part of an old entry and apart from what was cut. */
  lemma LossAfterCutEntry(s: Stream, f: Frame, k: nat, i: nat) returns (j: nat)
    requires LossOk(s) && CutFromLoss(s, f, k)
    requires i < |LossAfterCut(s.lossBuffer, f, k)|
    ensures j < |s.lossBuffer|
    ensures var e := LossAfterCut(s.lossBuffer, f, k)[i];
            && BufOk(s, e) && Inside(e, s.lossBuffer[j])
            && (e.offset >= f.offset + f.len + (if f.fin then 1 else 0) || e.End() <= f.offset)
    ensures j == if f.len == |s.lossBuffer[k].data| && f.fin == s.lossBuffer[k].eof && i >= k then i + 1 else i
  {
    var b := s.lossBuffer[k];
    j := if f.len == |b.data| && f.fin == b.eof && i >= k then i + 1 else i;
    assert BufOk(s, b) && BufOk(s, s.lossBuffer[j]);
    if i == j == k {
      RestOk(s, b, f.len);
    } else {
      assert LossAfterCut(s.lossBuffer, f, k)[i] == s.lossBuffer[j];
    }
  }

  lemma LossAfterCutOk(s: Stream, f: Frame, k: nat)
    requires LossOk(s) && CutFromLoss(s, f, k)
    ensures var q := LossAfterCut(s.lossBuffer, f, k);
            Sorted(q) && (forall i :: 0 <= i < |q| ==> BufOk(s, q[i]))
  {
    var q := LossAfterCut(s.lossBuffer, f, k);
    forall i | 0 <= i < |q| ensures BufOk(s, q[i]) {
      var _ := LossAfterCutEntry(s, f, k, i);
    }
    forall i, j | 0 <= i < j < |q| ensures q[i].End() <= q[j].offset {
      var i' := LossAfterCutEntry(s, f, k, i);
      var j' := LossAfterCutEntry(s, f, k, j);
    }
  }

  /** The positions of the loss buffer before the cut are those after it and those of the frame. */
  lemma CutSplitsLoss(s: Stream, f: Frame, k: nat, x: int)
    requires LossOk(s) && CutFromLoss(s, f, k)
    ensures Held(s.lossBuffer, x) <==>
              Held(LossAfterCut(s.lossBuffer, f, k), x)
              || Buf(f.offset, s.app[f.offset..f.offset + f.len], f.fin).Covers(x)
  {
    var p, q, b := s.lossBuffer, LossAfterCut(s.lossBuffer, f, k), s.lossBuffer[k];
    assert BufOk(s, b);
    if f.len == |b.data| && f.fin == b.eof {
      SpliceHolds(q, b, k, p);
    } else {
      assert forall i :: 0 <= i < |p| && i != k ==> q[i] == p[i];
      assert p[k].Covers(x) <==> q[k].Covers(x) || f.offset <= x < f.offset + f.len;
    }
  }

  lemma RetransmitInv(s: Stream, f: Frame, k: nat)
    requires StreamInv(s) && CutFromLoss(s, f, k)
    ensures HandleStreamWritten(s, f).1 == Retransmission
    ensures var r := HandleStreamWritten(s, f).0;
            r.Ok? && StreamInv(r.value) && (AckedReleased(s) ==> AckedReleased(r.value))
  {
    RetransmitShape(s, f, k);
    LossAfterCutOk(s, f, k);
    var r := HandleStreamWritten(s, f).0.value;
    RetransmitPositions(s, f, k, r);
    RetransmitApart(s, f, k, r);
    assert BufOk(s, s.lossBuffer[k]);
    assert BufOk(r, r.retransmissionBuffer[f.offset]);
    forall c: Buf | BufOk(s, c) ensures BufOk(r, c) {}
  }

  lemma RetransmitPositions(s: Stream, f: Frame, k: nat, r: Stream)
    requires StreamInv(s) && CutFromLoss(s, f, k)
    requires HandleStreamWritten(s, f).0 == Ok(r)
    ensures forall x :: InFlight(s, x) || Lost(s, x) <==> InFlight(r, x) || Lost(r, x)
  {
    RetransmitShape(s, f, k);
    AddToFlight(s, r.retransmissionBuffer[f.offset], r);
    forall x ensures InFlight(s, x) || Lost(s, x) <==> InFlight(r, x) || Lost(r, x) {
      CutSplitsLoss(s, f, k, x);
      assert Lost(s, x) == Held(s.lossBuffer, x) && Lost(r, x) == Held(r.lossBuffer, x);
    }
  }

  lemma RetransmitApart(s: Stream, f: Frame, k: nat, r: Stream)
    requires StreamInv(s) && CutFromLoss(s, f, k)
    requires HandleStreamWritten(s, f).0 == Ok(r)
    ensures RetxLossApart(r)
    ensures forall m :: m in s.retransmissionBuffer ==>
              Apart(r.retransmissionBuffer[f.offset], s.retransmissionBuffer[m])
  {
    RetransmitShape(s, f, k);
    assert BufOk(s, s.lossBuffer[k]);
    assert forall m :: m in s.retransmissionBuffer ==> Apart(s.retransmissionBuffer[m], s.lossBuffer[k]);
    forall m, i | m in r.retransmissionBuffer && 0 <= i < |r.lossBuffer|
      ensures Apart(r.retransmissionBuffer[m], r.lossBuffer[i])
    {
      var j := LossAfterCutEntry(s, f, k, i);
      if m != f.offset { assert Apart(s.retransmissionBuffer[m], s.lossBuffer[j]); }
    }
  }

  // ------------------------------------------------------------------ acknowledgement

  /** The frame is in flight as one entry of the retransmission buffer, with the same length and FIN. */
  ghost predicate Matches(s: Stream, f: Frame) {
    && f.offset in s.retransmissionBuffer
    && |s.retransmissionBuffer[f.offset].data| == f.len
    && s.retransmissionBuffer[f.offset].eof == f.fin
  }

  /** Removing one entry of the retransmission buffer takes exactly its positions out of flight. */
  lemma RemoveFromFlight(s: Stream, o: nat, r: Stream)
    requires RetxOk(s) && o in s.retransmissionBuffer
    requires r.retransmissionBuffer == s.retransmissionBuffer - {o}
    ensures forall x :: InFlight(r, x) <==> InFlight(s, x) && !s.retransmissionBuffer[o].Covers(x)
  {
    forall x | InFlight(s, x) && !s.retransmissionBuffer[o].Covers(x) ensures InFlight(r, x) {
      var k :| k in s.retransmissionBuffer && s.retransmissionBuffer[k].Covers(x);
      assert r.retransmissionBuffer[k].Covers(x);
    }
    forall x | InFlight(r, x) ensures InFlight(s, x) && !s.retransmissionBuffer[o].Covers(x) {
      var k :| k in r.retransmissionBuffer && r.retransmissionBuffer[k].Covers(x);
      assert s.retransmissionBuffer[k].Covers(x);
      assert Apart(s.retransmissionBuffer[k], s.retransmissionBuffer[o]);
    }
  }

  lemma AckInv(s: Stream, f: Frame)
    requires StreamInv(s) && Matches(s, f)
    ensures var r := AckFrame(s, f);
            && r.Ok? && StreamInv(r.value)
            && r.value.retransmissionBuffer == s.retransmissionBuffer - {f.offset}
            && (AckedReleased(s) ==> AckedReleased(r.value))
  {
    var b := s.retransmissionBuffer[f.offset];
    assert BufOk(s, b);
    var r := AckFrame(s, f).value;
    RemoveFromFlight(s, f.offset, r);
    forall c: Buf | BufOk(s, c) ensures BufOk(r, c) {}
    assert forall x :: x in Positions(f) <==> b.Covers(x);
    assert forall x :: Lost(r, x) == Lost(s, x);
    assert forall i :: 0 <= i < |s.lossBuffer| ==> Apart(b, s.lossBuffer[i]);
  }

  // ------------------------------------------------------------------ loss

  ghost predicate Held(q: seq<Buf>, x: int) { exists i :: 0 <= i < |q| && q[i].Covers(x) }

  ghost predicate ApartFromAll(b: Buf, q: seq<Buf>) { forall i :: 0 <= i < |q| ==> Apart(b, q[i]) }

  /** The insertion point splits the loss buffer into what lies before and what lies after the new buffer. */
  lemma InsertionPoint(s: Stream, b: Buf) returns (k: nat)
    requires LossOk(s) && BufOk(s, b) && ApartFromAll(b, s.lossBuffer)
    ensures k == LowerBound(s.lossBuffer, b.offset + 1) <= |s.lossBuffer|
    ensures forall i :: 0 <= i < k ==> s.lossBuffer[i].End() <= b.offset
    ensures forall i :: k <= i < |s.lossBuffer| ==> b.End() <= s.lossBuffer[i].offset
  {
    var q := s.lossBuffer;
    k := LowerBound(q, b.offset + 1);
    forall i | 0 <= i < |q| ensures i < k ==> q[i].End() <= b.offset
                            ensures k <= i ==> b.End() <= q[i].offset {
      assert BufOk(s, q[i]) && Apart(b, q[i]);
      if k < i { assert BufOk(s, q[k]) && q[k].End() <= q[i].offset; }
    }
  }

  /** `c` is `b`, an entry of `p`, or an entry of `p` with `b` appended to it. */
  ghost predicate FromInsertion(c: Buf, p: seq<Buf>, b: Buf) {
    || c == b || c in p
    || exists j :: 0 <= j < |p| && p[j].offset == c.offset && p[j].End() == b.offset && c.End() == b.End()
  }

  ghost predicate SplitAt(p: seq<Buf>, b: Buf, k: nat) {
    && k <= |p|
    && (forall i :: 0 <= i < k ==> p[i].End() <= b.offset)
    && (forall i :: k <= i < |p| ==> b.End() <= p[i].offset)
  }

  /** `q` is `p` with `b` put in front of entry `k`. */
  ghost predicate Spliced(p: seq<Buf>, b: Buf, k: nat, q: seq<Buf>) {
    && k <= |p| && |q| == |p| + 1 && q[k] == b
    && (forall i :: 0 <= i < k ==> q[i] == p[i])
    && (forall i :: k < i < |q| ==> q[i] == p[i - 1])
  }

  lemma SpliceHolds(p: seq<Buf>, b: Buf, k: nat, q: seq<Buf>)
    requires Spliced(p, b, k, q)
    ensures forall x :: Held(q, x) <==> Held(p, x) || b.Covers(x)
  {
    forall x ensures Held(q, x) <==> Held(p, x) || b.Covers(x) {
      if Held(p, x) {
        var i :| 0 <= i < |p| && p[i].Covers(x);
        assert q[if i < k then i else i + 1].Covers(x);
      }
    }
  }

  /** The branch of the insertion that adds an entry. */
  lemma SpliceOk(s: Stream, b: Buf, k: nat, q: seq<Buf>)
    requires LossOk(s) && BufOk(s, b) && SplitAt(s.lossBuffer, b, k)
    requires Spliced(s.lossBuffer, b, k, q)
    ensures Sorted(q)
    ensures forall i :: 0 <= i < |q| ==> BufOk(s, q[i]) && FromInsertion(q[i], s.lossBuffer, b)
    ensures forall x :: Held(q, x) <==> Held(s.lossBuffer, x) || b.Covers(x)
  {
    SpliceHolds(s.lossBuffer, b, k, q);
  }

  /** The branch of the insertion that grows entry `k`. */
  lemma MergeOk(s: Stream, b: Buf, k: nat, q: seq<Buf>)
    requires LossOk(s) && BufOk(s, b) && k < |s.lossBuffer| && SplitAt(s.lossBuffer, b, k + 1)
    requires var a := s.lossBuffer[k];
             a.offset + |a.data| == b.offset && q == s.lossBuffer[k := Buf(a.offset, a.data + b.data, b.eof)]
    ensures Sorted(q)
    ensures forall i :: 0 <= i < |q| ==> BufOk(s, q[i]) && FromInsertion(q[i], s.lossBuffer, b)
    ensures forall x :: Held(q, x) <==> Held(s.lossBuffer, x) || b.Covers(x)
  {
    var p, m := s.lossBuffer, q[k];
    assert BufOk(s, p[k]);
    assert m.data == s.app[m.offset..m.offset + |m.data|];
    assert forall i :: 0 <= i < |q| ==> q[i] == if i == k then m else p[i];
    assert p[k].End() == b.offset && m.End() == b.End();
    forall x ensures Held(q, x) <==> Held(p, x) || b.Covers(x) {
      assert forall i :: 0 <= i < |p| && i != k ==> (q[i].Covers(x) <==> p[i].Covers(x));
      assert q[k].Covers(x) <==> p[k].Covers(x) || b.Covers(x);
    }
  }

  /** `a` ends where `b` begins, the FIN not counted. */
  predicate Adjacent(a: Buf, b: Buf) { a.offset + |a.data| == b.offset }

  lemma InsertShape(p: seq<Buf>, b: Buf, k: nat)
    requires k == LowerBound(p, b.offset + 1)
    ensures var q := InsertIntoLossBuffer(p, b);
            if k > 0 && Adjacent(p[k - 1], b) then q == p[k - 1 := Buf(p[k - 1].offset, p[k - 1].data + b.data, b.eof)]
            else Spliced(p, b, k, q)
  {
  }

  /** Inserting a buffer apart from all others keeps the loss buffer sorted and adds exactly its positions. */
  lemma InsertOk(s: Stream, b: Buf)
    requires LossOk(s) && BufOk(s, b) && ApartFromAll(b, s.lossBuffer)
    ensures var q := InsertIntoLossBuffer(s.lossBuffer, b);
            && Sorted(q)
            && (forall i :: 0 <= i < |q| ==> BufOk(s, q[i]) && FromInsertion(q[i], s.lossBuffer, b))
            && (forall x :: Held(q, x) <==> Held(s.lossBuffer, x) || b.Covers(x))
  {
    hide LossOk, BufOk, ApartFromAll, Held, FromInsertion, Sorted, Spliced, InsertIntoLossBuffer, LowerBound;
    var p, q := s.lossBuffer, InsertIntoLossBuffer(s.lossBuffer, b);
    var k := InsertionPoint(s, b);
    InsertShape(p, b, k);
    if k > 0 && Adjacent(p[k - 1], b) {
      MergeOk(s, b, k - 1, q);
    } else {
      SpliceOk(s, b, k, q);
    }
  }

  lemma LoseInv(s: Stream, f: Frame)
    requires StreamInv(s) && f.offset in s.retransmissionBuffer
    ensures var r := LoseFrame(s, f);
            && StreamInv(r)
            && r.retransmissionBuffer == s.retransmissionBuffer - {f.offset}
            && (AckedReleased(s) ==> AckedReleased(r))
  {
    var b, r := s.retransmissionBuffer[f.offset], LoseFrame(s, f);
    InsertOk(s, b);
    LosePositions(s, f, r);
    LoseApart(s, f, r);
    forall c: Buf | BufOk(s, c) ensures BufOk(r, c) {}
  }

  lemma LosePositions(s: Stream, f: Frame, r: Stream)
    requires StreamInv(s) && f.offset in s.retransmissionBuffer && r == LoseFrame(s, f)
    ensures forall x :: InFlight(s, x) || Lost(s, x) <==> InFlight(r, x) || Lost(r, x)
  {
    var b := s.retransmissionBuffer[f.offset];
    RemoveFromFlight(s, f.offset, r);
    InsertOk(s, b);
    forall x ensures InFlight(s, x) || Lost(s, x) <==> InFlight(r, x) || Lost(r, x) {
      assert Lost(s, x) == Held(s.lossBuffer, x) && Lost(r, x) == Held(r.lossBuffer, x);
      assert b.Covers(x) ==> InFlight(s, x);
    }
  }

  lemma LoseApart(s: Stream, f: Frame, r: Stream)
    requires StreamInv(s) && f.offset in s.retransmissionBuffer && r == LoseFrame(s, f)
    ensures RetxLossApart(r)
  {
    var b := s.retransmissionBuffer[f.offset];
    InsertOk(s, b);
    forall m, i | m in r.retransmissionBuffer && 0 <= i < |r.lossBuffer|
      ensures Apart(r.retransmissionBuffer[m], r.lossBuffer[i])
    {
      var e, c := s.retransmissionBuffer[m], r.lossBuffer[i];
      assert Apart(e, b) && BufOk(s, e);
      assert FromInsertion(c, s.lossBuffer, b);
      assert forall j :: 0 <= j < |s.lossBuffer| ==> BufOk(s, s.lossBuffer[j]) && Apart(e, s.lossBuffer[j]);
    }
  }

  // ------------------------------------------------------------------ closing

  /** The stream is closed only when every byte the application wrote, and the FIN, was acknowledged. */
  lemma ClosedMeansDelivered(s: Stream)
    requires StreamInv(s) && AllBytesTillFinAcked(s)
    ensures forall x :: 0 <= x <= |s.app| ==> x in s.acked
  {
    assert forall x :: 0 <= x < s.currentWriteOffset ==> !InFlight(s, x) && !Lost(s, x);
  }
}
