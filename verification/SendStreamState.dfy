/**
 The send side of a stream as the transport keeps it, updated in place:
 `QuicStreamLike` of quic/state/StreamData.h and the functions of
 quic/api/QuicTransportFunctions.cpp, quic/loss/QuicLossFunctions.cpp and
 quic/state/stream/StreamSendHandlers.cpp that change it. Each method computes
 the function of the same name on the state's value; the invariants are proved
 on those functions.
 */
module SendStreamState {
  import opened Prelude
  import opened SendBuffers
  import opened SendBufferProofs
  import opened SpuriousLoss
  import opened ReliableReset
  import opened StreamHistory

  class QuicStreamLike {
    var pendingWrites: seq<bv8>
    var currentWriteOffset: nat
    var finalWriteOffset: Option<nat>
    var retransmissionBuffer: map<nat, Buf>
    var lossBuffer: seq<Buf>
    var acked: set<int>
    ghost var app: seq<bv8>

    ghost function View(): Stream
      reads this
    {
      Stream(app, pendingWrites, currentWriteOffset, finalWriteOffset, retransmissionBuffer, lossBuffer, acked)
    }

    constructor ()
      ensures View() == INITIAL_STREAM && StreamInv(View())
    {
      pendingWrites, currentWriteOffset, finalWriteOffset := [], 0, None;
      retransmissionBuffer, lossBuffer, acked, app := map[], [], {}, [];
    }

    method WriteData(data: seq<bv8>, eof: bool)
      requires StreamInv(View()) && finalWriteOffset.None?
      modifies this
      ensures View() == AppWrite(old(View()), data, eof) && StreamInv(View())
      ensures app == old(app) + data && pendingWrites == old(pendingWrites) + data
      ensures finalWriteOffset == if eof then Some(|old(app)| + |data|) else None
      ensures currentWriteOffset == old(currentWriteOffset) && retransmissionBuffer == old(retransmissionBuffer)
      ensures lossBuffer == old(lossBuffer) && acked == old(acked)
    {
      AppWriteInv(View(), data, eof);
      pendingWrites := pendingWrites + data;
      app := app + data;
      if eof {
        finalWriteOffset := Some(currentWriteOffset + |pendingWrites|);
      }
    }

    /** `handleNewStreamDataWritten`, where its CHECK passes. */
    method NewDataWritten(f: Frame)
      requires f.offset == currentWriteOffset && HandleNewStreamDataWritten(View(), f).Ok?
      modifies this`pendingWrites, this`currentWriteOffset, this`retransmissionBuffer
      ensures Ok(View()) == HandleNewStreamDataWritten(old(View()), f)
    {
      var data := Taken(pendingWrites, f.len);
      pendingWrites := Left(pendingWrites, f.len);
      currentWriteOffset := currentWriteOffset + f.len + if f.fin then 1 else 0;
      retransmissionBuffer := retransmissionBuffer[f.offset := Buf(f.offset, data, f.fin)];
    }

    /** `handleRetransmissionWritten`, where its CHECK passes. */
    method RetransmissionWritten(f: Frame, k: nat)
      requires k < |lossBuffer| && HandleRetransmissionWritten(View(), f, k).Ok?
      modifies this`lossBuffer, this`retransmissionBuffer
      ensures Ok(View()) == HandleRetransmissionWritten(old(View()), f, k)
    {
      var b := lossBuffer[k];
      if f.len == |b.data| && f.fin == b.eof {
        lossBuffer := lossBuffer[..k] + lossBuffer[k + 1..];
        retransmissionBuffer := retransmissionBuffer[f.offset := Buf(f.offset, b.data, f.fin)];
      } else {
        lossBuffer := lossBuffer[k := Buf(b.offset + f.len, Left(b.data, f.len), b.eof)];
        retransmissionBuffer := retransmissionBuffer[f.offset := Buf(f.offset, Taken(b.data, f.len), f.fin)];
      }
    }

    /**
     The offset comparisons that sort a written frame into new data, retransmission or clone; a frame past
     the write offset is an error and changes nothing.
     */
    method Written(f: Frame) returns (kind: WriteKind)
      requires StreamInv(View())
      requires CutFromPending(View(), f) || f.offset in retransmissionBuffer || f.offset > currentWriteOffset
               || exists k :: 0 <= k < |lossBuffer| && CutFromLoss(View(), f, k)
      modifies this
      ensures (Ok(View()), kind) == HandleStreamWritten(old(View()), f)
      ensures StreamInv(View())
      ensures kind == if CutFromPending(old(View()), f) then NewData
                      else if f.offset > old(currentWriteOffset) then OffsetError
                      else if f.offset in old(retransmissionBuffer) then CloneWrite else Retransmission
      ensures kind == OffsetError || kind == CloneWrite ==> View() == old(View())
      ensures kind == NewData || kind == Retransmission ==>
                && app == old(app) && finalWriteOffset == old(finalWriteOffset) && acked == old(acked)
                && (forall x :: InFlight(View(), x) <==> old(InFlight(View(), x)) || FrameCarries(f, x))
                && (forall x :: Lost(View(), x) <==> old(Lost(View(), x)) && !FrameCarries(f, x))
    {
      assert Sorted(lossBuffer);
      assert f.offset > currentWriteOffset ==> !CutFromPending(View(), f);
      hide StreamInv, CutFromPending, CutFromLoss, LowerBound, Sorted, HandleNewStreamDataWritten, HandleRetransmissionWritten, InFlight, Lost;
      if f.offset <= currentWriteOffset { WrittenFacts(View(), f); WrittenMoves(View(), f); }
      if f.offset == currentWriteOffset {
        NewDataWritten(f);
        return NewData;
      }
      if f.offset > currentWriteOffset {
        return OffsetError;
      }
      var k := FindLost(f.offset);
      if k == |lossBuffer| || lossBuffer[k].offset != f.offset {
        return CloneWrite;
      }
      RetransmissionWritten(f, k);
      return Retransmission;
    }

    /** `std::lower_bound`: the binary search of the loss buffer for the first entry at `offset` or past it. */
    method FindLost(offset: nat) returns (k: nat)
      requires Sorted(lossBuffer)
      ensures k == LowerBound(lossBuffer, offset)
    {
      k := 0;
      var count := |lossBuffer|;
      while count > 0
        invariant 0 <= k <= k + count <= |lossBuffer|
        invariant forall i :: 0 <= i < k ==> lossBuffer[i].offset < offset
        invariant forall i :: k + count <= i < |lossBuffer| ==> lossBuffer[i].offset >= offset
      {
        var half := count / 2;
        if lossBuffer[k + half].offset < offset {
          assert forall i :: 0 <= i < k + half ==> lossBuffer[i].End() <= lossBuffer[k + half].offset;
          k, count := k + half + 1, count - half - 1;
        } else {
          assert forall i :: k + half < i < |lossBuffer| ==> lossBuffer[k + half].End() <= lossBuffer[i].offset;
          count := half;
        }
      }
      FirstNotBelow(lossBuffer, offset, k, 0);
    }

    /** `sendAckSMHandler` for a frame of a live packet. */
    method Acked(f: Frame)
      requires StreamInv(View()) && Matches(View(), f)
      modifies this
      ensures Ok(View()) == AckFrame(old(View()), f) && StreamInv(View())
      ensures View() == old(View()).(acked := acked, retransmissionBuffer := old(retransmissionBuffer) - {f.offset})
      ensures forall x :: x in acked <==> x in old(acked) || FrameCarries(f, x)
    {
      AckInv(View(), f);
      acked := acked + Positions(f);
      retransmissionBuffer := retransmissionBuffer - {f.offset};
    }

    /** `markPacketLoss` for a frame, with the search and the merge of `insertIntoLossBuffer`. */
    method MarkLost(f: Frame)
      requires StreamInv(View())
      modifies this
      ensures View() == LoseFrame(old(View()), f) && StreamInv(View())
      ensures View() == old(View()).(lossBuffer := lossBuffer, retransmissionBuffer := old(retransmissionBuffer) - {f.offset})
      ensures forall x :: Lost(View(), x) <==>
                (old(Lost(View(), x)) || (f.offset in old(retransmissionBuffer) && old(retransmissionBuffer)[f.offset].Covers(x)))
    {
      if f.offset !in retransmissionBuffer {
        return;
      }
      LoseInv(View(), f);
      LostPositions(View(), f.offset);
      hide StreamInv, Lost;
      var b := retransmissionBuffer[f.offset];
      retransmissionBuffer := retransmissionBuffer - {f.offset};
      InsertLost(b);
    }

    method InsertLost(b: Buf)
      requires Sorted(lossBuffer)
      modifies this`lossBuffer
      ensures lossBuffer == InsertIntoLossBuffer(old(lossBuffer), b)
    {
      var k := FindLost(b.offset + 1);
      if k > 0 && lossBuffer[k - 1].offset + |lossBuffer[k - 1].data| == b.offset {
        lossBuffer := lossBuffer[k - 1 := Buf(lossBuffer[k - 1].offset, lossBuffer[k - 1].data + b.data, b.eof)];
      } else {
        lossBuffer := lossBuffer[..k] + [b] + lossBuffer[k..];
      }
    }

    /** `removeFromLossBuffer` */
    method RemoveLost(f: Frame)
      requires Sorted(lossBuffer)
      modifies this`lossBuffer
      ensures lossBuffer == RemoveFromLossBuffer(old(lossBuffer), f)
    {
      if lossBuffer == [] || f.len == 0 {
        return;
      }
      var i := 0;
      while i < |lossBuffer|
        invariant 0 <= i <= |lossBuffer| && lossBuffer == old(lossBuffer) && Sorted(lossBuffer)
        invariant FirstOverlaid(lossBuffer, f, i) == FirstOverlaid(lossBuffer, f)
      {
        var b := lossBuffer[i];
        if b.offset > f.offset + f.len {
          return;
        }
        if Overlaid(b, f) {
          var head := Taken(b.data, SplitLen(b, f));
          var rest := Trimmed(b, f);
          ShrunkSorted(lossBuffer, f, i);
          if rest.data == [] && rest.eof == f.fin {
            lossBuffer := lossBuffer[..i] + lossBuffer[i + 1..];
          } else {
            lossBuffer := lossBuffer[i := rest];
          }
          if head != [] {
            InsertLost(Buf(b.offset, head, false));
          }
          return;
        }
        i := i + 1;
      }
    }
  }

  /** The index that separates the offsets below from the others is the bound. */
  lemma {:induction false} FirstNotBelow(q: seq<Buf>, offset: nat, k: nat, i: nat)
    requires i <= k <= |q| && (forall j :: 0 <= j < k ==> q[j].offset < offset) && (k < |q| ==> q[k].offset >= offset)
    ensures LowerBound(q, offset, i) == k
    decreases k - i
  {
    if i < k { FirstNotBelow(q, offset, k, i + 1); }
  }

  /** Trimming or dropping an entry keeps the order. */
  lemma ShrunkSorted(q: seq<Buf>, f: Frame, i: nat)
    requires Sorted(q) && i < |q| && Overlaid(q[i], f)
    ensures Sorted(Shrunk(q, f, i))
  {
    var r, rest := Shrunk(q, f, i), Trimmed(q[i], f);
    assert q[i].offset <= rest.offset && rest.End() <= q[i].End();
    hide Trimmed;
    if r == q[..i] + q[i + 1..] {
      assert forall j :: 0 <= j < |r| ==> r[j] == q[if j < i then j else j + 1];
    } else {
      assert r == q[i := rest];
    }
  }

  /** The three kinds of frame exclude each other. */
  lemma WrittenFacts(s: Stream, f: Frame)
    requires StreamInv(s)
    requires CutFromPending(s, f) || f.offset in s.retransmissionBuffer
             || exists k :: 0 <= k < |s.lossBuffer| && CutFromLoss(s, f, k)
    ensures HandleStreamWritten(s, f).0.Ok? && StreamInv(HandleStreamWritten(s, f).0.value)
    ensures HandleStreamWritten(s, f).1 ==
              if CutFromPending(s, f) then NewData
              else if f.offset in s.retransmissionBuffer then CloneWrite else Retransmission
  {
    hide StreamInv, HandleStreamWritten;
    if CutFromPending(s, f) {
      NewDataInv(s, f);
    } else if f.offset in s.retransmissionBuffer {
      CloneIsClone(s, f);
    } else {
      var k :| 0 <= k < |s.lossBuffer| && CutFromLoss(s, f, k);
      RetransmitInv(s, f, k);
    }
  }

  /** A frame of new data or of a retransmission goes into flight, out of what was lost. */
  lemma WrittenMoves(s: Stream, f: Frame)
    requires StreamInv(s)
    requires CutFromPending(s, f) || f.offset in s.retransmissionBuffer
             || exists k :: 0 <= k < |s.lossBuffer| && CutFromLoss(s, f, k)
    ensures HandleStreamWritten(s, f).0.Ok?
    ensures var (r, kind) := HandleStreamWritten(s, f);
            if kind == CloneWrite then r.value == s
            else
              && r.value.app == s.app && r.value.finalWriteOffset == s.finalWriteOffset && r.value.acked == s.acked
              && forall x :: && (InFlight(r.value, x) <==> InFlight(s, x) || FrameCarries(f, x))
                             && (Lost(r.value, x) <==> Lost(s, x) && !FrameCarries(f, x))
  {
    hide StreamInv, HandleStreamWritten, InFlight, Lost, FrameCarries;
    if CutFromPending(s, f) {
      NewDataShape(s, f);
      forall x ensures var r := HandleStreamWritten(s, f).0.value;
                       && (InFlight(r, x) <==> InFlight(s, x) || FrameCarries(f, x))
                       && (Lost(r, x) <==> Lost(s, x) && !FrameCarries(f, x)) {
        NewDataMoves(s, f, x);
      }
    } else if f.offset in s.retransmissionBuffer {
      CloneIsClone(s, f);
    } else {
      var k :| 0 <= k < |s.lossBuffer| && CutFromLoss(s, f, k);
      RetransmitShape(s, f, k);
      forall x ensures var r := HandleStreamWritten(s, f).0.value;
                       && (InFlight(r, x) <==> InFlight(s, x) || FrameCarries(f, x))
                       && (Lost(r, x) <==> Lost(s, x) && !FrameCarries(f, x)) {
        RetransmissionMoves(s, f, k, x);
      }
    }
  }

  lemma NewDataMoves(s: Stream, f: Frame, x: int)
    requires StreamInv(s) && CutFromPending(s, f)
    ensures var r := HandleStreamWritten(s, f).0;
            && r.Ok? && (InFlight(r.value, x) <==> InFlight(s, x) || FrameCarries(f, x))
            && (Lost(r.value, x) <==> Lost(s, x) && !FrameCarries(f, x))
  {
    NewDataShape(s, f);
    var r := HandleStreamWritten(s, f).0.value;
    AddToFlight(s, r.retransmissionBuffer[f.offset], r);
    SameLost(s, r, x);
    NewDataInv(s, f);
    NotBoth(r, x);
  }

  lemma RetransmissionMoves(s: Stream, f: Frame, k: nat, x: int)
    requires StreamInv(s) && CutFromLoss(s, f, k)
    ensures var r := HandleStreamWritten(s, f).0;
            && r.Ok? && (InFlight(r.value, x) <==> InFlight(s, x) || FrameCarries(f, x))
            && (Lost(r.value, x) <==> Lost(s, x) && !FrameCarries(f, x))
  {
    RetransmitShape(s, f, k);
    var r := HandleStreamWritten(s, f).0.value;
    AddToFlight(s, r.retransmissionBuffer[f.offset], r);
    assert BufOk(s, s.lossBuffer[k]);
    CutSplitsLoss(s, f, k, x);
    assert Lost(s, x) == Held(s.lossBuffer, x) && Lost(r, x) == Held(r.lossBuffer, x);
    RetransmitInv(s, f, k);
    NotBoth(r, x);
  }

  /** A lost frame's buffer adds exactly its positions to what is lost. */
  lemma LostPositions(s: Stream, o: nat)
    requires StreamInv(s) && o in s.retransmissionBuffer
    ensures forall x :: Held(InsertIntoLossBuffer(s.lossBuffer, s.retransmissionBuffer[o]), x) <==>
                          Lost(s, x) || s.retransmissionBuffer[o].Covers(x)
  {
    var b := s.retransmissionBuffer[o];
    assert BufOk(s, b) && forall i :: 0 <= i < |s.lossBuffer| ==> Apart(b, s.lossBuffer[i]);
    InsertOk(s, b);
    assert forall x :: Lost(s, x) == Held(s.lossBuffer, x);
  }
}
