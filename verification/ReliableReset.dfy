/**
 `resetQuicStream` with a reliable size (quic/state/stream/StreamStateFunctions.cpp)
 and the trimming functions of quic/state/StreamData.h. A reliable reset at `size`
 gives up everything from position `size` on and keeps delivering what lies before.

 The trimming shortens buffers of frames that are already in flight. This module
 says exactly when an acknowledgement of such a frame still passes the CHECKs of
 `sendAckSMHandler`, and what the shortened buffers do to the FIN.
 */
module ReliableReset {
  import opened Prelude
  import opened SendBuffers
  import opened SendBufferProofs
  import opened StreamSend
  import opened StreamSendProofs
  import opened SpuriousLoss

  // ------------------------------------------------------------------ the operation

  /** A buffer cut off at `size`; the FIN flag is left as it was. */
  function CutAt(b: Buf, size: nat): (r: Buf)
    requires b.offset < size
  {
    if b.offset + |b.data| >= size then Buf(b.offset, b.data[..size - b.offset], b.eof) else b
  }

  /** `removeFromRetransmissionBufStartingAtOffset` */
  function TrimRetransmission(m: map<nat, Buf>, size: nat): (r: map<nat, Buf>)
    requires forall k :: k in m ==> m[k].offset == k
  {
    map k | k in m && k < size :: CutAt(m[k], size)
  }

  /** `removeFromLossBufStartingAtOffset`: from the back, drop or cut until an entry lies before `size`. */
  function TrimLoss(q: seq<Buf>, size: nat): (r: seq<Buf>) {
    if q == [] then []
    else
      var last := q[|q| - 1];
      if last.offset >= size then TrimLoss(q[..|q| - 1], size)
      else q[|q| - 1 := CutAt(last, size)]
  }

  /** `removeFromPendingWritesStartingAtOffset` */
  function TrimPending(s: Stream, size: nat): (r: seq<bv8>) {
    if s.currentWriteOffset + |s.pendingWrites| <= size then s.pendingWrites
    else if size > s.currentWriteOffset then s.pendingWrites[..size - s.currentWriteOffset]
    else []
  }

  function ResetAt(s: Stream, size: nat): (r: Stream)
    requires RetxOk(s)
  {
    s.(retransmissionBuffer := TrimRetransmission(s.retransmissionBuffer, size),
       pendingWrites := TrimPending(s, size),
       lossBuffer := TrimLoss(s.lossBuffer, size))
  }

  /** The loop of `removeFromLossBufStartingAtOffset`. */
  method RemoveFromLossBufStartingAtOffset(q: seq<Buf>, size: nat) returns (r: seq<Buf>)
    ensures r == TrimLoss(q, size)
  {
    r := q;
    while r != []
      invariant TrimLoss(r, size) == TrimLoss(q, size)
      decreases |r|
    {
      var last := r[|r| - 1];
      if last.offset >= size {
        r := r[..|r| - 1];
      } else if last.offset + |last.data| >= size {
        r := r[|r| - 1 := Buf(last.offset, last.data[..size - last.offset], last.eof)];
        return;
      } else {
        assert r[|r| - 1 := last] == r;
        return;
      }
    }
  }

  // ------------------------------------------------------------------ the loss buffer, entry by entry

  /** Trimming keeps the entries that start before `size`, each cut at `size`. */
  lemma {:induction false} TrimLossEntries(q: seq<Buf>, size: nat)
    requires Sorted(q) && forall i :: 0 <= i < |q| ==> q[i].offset < q[i].End()
    ensures var r := TrimLoss(q, size);
            && |r| <= |q|
            && (forall i :: 0 <= i < |r| ==> q[i].offset < size && r[i] == CutAt(q[i], size))
            && (forall i :: |r| <= i < |q| ==> q[i].offset >= size)
    decreases |q|
  {
    if q != [] {
      var n := |q| - 1;
      if q[n].offset >= size {
        TrimLossEntries(q[..n], size);
      } else {
        assert forall i :: 0 <= i < n ==> q[i].End() <= q[n].offset < size && CutAt(q[i], size) == q[i];
      }
    }
  }

  // ------------------------------------------------------------------ reliable data is kept

  /** What a buffer cut at `size` holds: everything before `size`, and its end, which is told at `size`. */
  lemma CutCovers(b: Buf, size: nat, x: int)
    requires b.offset < size
    ensures CutAt(b, size).Covers(x) <==>
              (b.Covers(x) && x < size) || (x == size && b.eof && size <= b.offset + |b.data|)
  {
  }

  /** A buffer tells its end at `size` once it is cut there. */
  predicate EndsAtCut(b: Buf, size: nat) { b.offset < size && b.eof && size <= b.offset + |b.data| }

  /**
   After the reset exactly the positions before `size` are held as they were before; of those behind nothing is left but
   the end of a buffer with the FIN that reached `size`.
   */
  lemma ResetExactly(s: Stream, size: nat, x: int)
    requires RetxOk(s) && LossOk(s)
    ensures var r := ResetAt(s, size);
            && (InFlight(r, x) <==>
                (x < size && InFlight(s, x)) ||
                (x == size && exists k :: k in s.retransmissionBuffer && EndsAtCut(s.retransmissionBuffer[k], size)))
            && (Lost(r, x) <==>
                (x < size && Lost(s, x)) ||
                (x == size && exists i :: 0 <= i < |s.lossBuffer| && EndsAtCut(s.lossBuffer[i], size)))
  {
    FlightAfterTrim(s, size, x);
    LossAfterTrim(s, size, x);
    hide InFlight, Lost, EndsAtCut, TrimLoss, TrimRetransmission;
  }

  lemma FlightAfterTrim(s: Stream, size: nat, x: int)
    requires RetxOk(s)
    ensures InFlight(ResetAt(s, size), x) <==>
            (x < size && InFlight(s, x)) ||
            (x == size && exists k :: k in s.retransmissionBuffer && EndsAtCut(s.retransmissionBuffer[k], size))
  {
    var r := ResetAt(s, size);
    forall k | k in s.retransmissionBuffer && k < size
      ensures k in r.retransmissionBuffer && r.retransmissionBuffer[k] == CutAt(s.retransmissionBuffer[k], size)
      ensures r.retransmissionBuffer[k].Covers(x) <==>
                (s.retransmissionBuffer[k].Covers(x) && x < size) || (x == size && EndsAtCut(s.retransmissionBuffer[k], size))
    {
      CutCovers(s.retransmissionBuffer[k], size, x);
    }
  }

  lemma LossAfterTrim(s: Stream, size: nat, x: int)
    requires RetxOk(s) && LossOk(s)
    ensures Lost(ResetAt(s, size), x) <==>
            (x < size && Lost(s, x)) ||
            (x == size && exists i :: 0 <= i < |s.lossBuffer| && EndsAtCut(s.lossBuffer[i], size))
  {
    forall i | 0 <= i < |s.lossBuffer| ensures s.lossBuffer[i].offset < s.lossBuffer[i].End() {
      assert BufOk(s, s.lossBuffer[i]);
    }
    var (q, r) := (s.lossBuffer, TrimLoss(s.lossBuffer, size));
    assert ResetAt(s, size).lossBuffer == r;
    TrimLossEntries(q, size);
    hide TrimLoss, Sorted, CutAt, RetxOk, LossOk;
    forall i | 0 <= i < |r|
      ensures r[i].Covers(x) <==> (q[i].Covers(x) && x < size) || (x == size && EndsAtCut(q[i], size))
    {
      CutCovers(q[i], size, x);
    }
  }

  /** The reliable part of the stream is still acknowledged, in flight, lost or pending after the reset. */
  lemma ReliablePartKept(s: Stream, size: nat)
    requires StreamInv(s) && size <= |s.app|
    ensures var r := ResetAt(s, size);
            && r.app == s.app && r.currentWriteOffset == s.currentWriteOffset && r.acked == s.acked
            && (forall x :: 0 <= x < size && x < s.currentWriteOffset ==> x in r.acked || InFlight(r, x) || Lost(r, x))
            && (forall x :: x > size ==> !InFlight(r, x) && !Lost(r, x))
            && (s.currentWriteOffset <= size ==> r.pendingWrites == s.app[s.currentWriteOffset..size])
            && (s.currentWriteOffset > size ==> r.pendingWrites == [])
  {
    assert TrimPending(s, size) == if s.currentWriteOffset <= size then s.app[s.currentWriteOffset..size] else [];
    forall x
      ensures 0 <= x < size && x < s.currentWriteOffset ==> x in s.acked || InFlight(ResetAt(s, size), x) || Lost(ResetAt(s, size), x)
      ensures x > size ==> !InFlight(ResetAt(s, size), x) && !Lost(ResetAt(s, size), x)
    {
      ResetExactly(s, size, x);
    }
  }

  /** What is kept of a buffer is still the application's data for those positions. */
  lemma CutKeepsData(s: Stream, b: Buf, size: nat)
    requires BufOk(s, b) && b.offset < size
    ensures var c := CutAt(b, size);
            c.data == s.app[c.offset..c.offset + |c.data|] && c.offset + |c.data| <= size
  {
  }

  // ------------------------------------------------------------------ acknowledgements after the reset

  /** The reset point lies strictly inside the data of the frame. */
  predicate Straddles(f: Frame, size: nat) { f.offset < size < f.offset + f.len }

  /** An in-flight frame can still be acknowledged after the reset if and only if the reset point is not inside it. */
  lemma AckAfterReset(s: Stream, f: Frame, size: nat)
    requires StreamInv(s) && Matches(s, f)
    ensures AckFrame(ResetAt(s, size), f).Ok? <==> !Straddles(f, size)
  {
    assert BufOk(s, s.retransmissionBuffer[f.offset]);
  }

  /** A connection after the reset. */
  function ResetConn(c: Conn, size: nat): (r: Conn)
    requires RetxOk(c.stream)
  {
    c.(stream := ResetAt(c.stream, size))
  }

  /** A packet acknowledged right after the reset fails a CHECK exactly when the reset point is inside one of its frames. */
  lemma AckPacketAfterReset(steps: seq<Step>, c: Conn, n: nat, size: nat)
    requires Reaches(steps, c) && Enabled(c, Ack(n)) && Live(c, n) && RetxOk(c.stream)
    ensures AckPacket(ResetConn(c, size), n).CheckFailed? <==>
              exists f :: f in c.packets[n].frames && Straddles(f, size)
  {
    hide RetxOk, CountOut, AckFrames, Reaches, AllMatch, Distinct;
    LivePacketFacts(steps, c, n);
    ResetBuffers(c.stream, c.packets[n].frames, size);
    AckFramesAfterReset(c.stream, ResetAt(c.stream, size), c.packets[n].frames, size);
    CountAfterReset(c, n, size);
  }

  lemma LivePacketFacts(steps: seq<Step>, c: Conn, n: nat)
    requires Reaches(steps, c) && Enabled(c, Ack(n)) && Live(c, n)
    ensures AllMatch(c.stream, c.packets[n].frames) && Distinct(c.packets[n].frames)
    ensures forall f :: f in c.packets[n].frames ==> f.len > 0 || f.fin
    ensures CountOut(c, n).Ok?
  {
    hide CountOut, Reaches;
    EveryRunKeepsBytes(steps, c);
    LiveFrames(c, n);
    StepInv(c, Ack(n));
    hide ConnInv;
    forall f | f in c.packets[n].frames ensures f.len > 0 || f.fin {
      assert Matches(c.stream, f);
      LiveFrameSent(c, f);
    }
  }

  lemma LiveFrameSent(c: Conn, f: Frame)
    requires ConnInv(c) && Matches(c.stream, f)
    ensures f.len > 0 || f.fin
  {
    MatchedIsSent(c.stream, f);
  }

  lemma ResetBuffers(s: Stream, fs: seq<Frame>, size: nat)
    requires RetxOk(s) && AllMatch(s, fs)
    ensures var r := ResetAt(s, size);
            forall f :: f in fs ==>
              (f.offset in r.retransmissionBuffer <==> f.offset < size)
              && (f.offset < size ==> r.retransmissionBuffer[f.offset] == CutAt(s.retransmissionBuffer[f.offset], size))
  {
  }

  lemma CountAfterReset(c: Conn, n: nat, size: nat)
    requires RetxOk(c.stream) && n in c.packets && CountOut(c, n).Ok?
    ensures CountOut(ResetConn(c, size), n).Ok? && Live(ResetConn(c, size), n) == Live(c, n)
  {
  }

  /** The buffers of `fs` in `r` are those of `s`, cut at `size`; acknowledging removes them one by one. */
  lemma {:induction false} AckFramesAfterReset(s: Stream, r: Stream, fs: seq<Frame>, size: nat)
    requires RetxOk(s) && AllMatch(s, fs) && Distinct(fs) && (forall f :: f in fs ==> f.len > 0 || f.fin)
    requires forall f :: f in fs ==>
               (f.offset in r.retransmissionBuffer <==> f.offset < size)
               && (f.offset < size ==> r.retransmissionBuffer[f.offset] == CutAt(s.retransmissionBuffer[f.offset], size))
    ensures AckFrames(r, fs).CheckFailed? <==> exists f :: f in fs && Straddles(f, size)
    decreases |fs|
  {
    if fs != [] {
      assert fs[0] in fs && forall f :: f in fs <==> f == fs[0] || f in fs[1..];
      var a := AckFrame(r, fs[0]);
      assert a.CheckFailed? <==> Straddles(fs[0], size);
      if a.Ok? {
        forall f | f in fs[1..] ensures f.offset != fs[0].offset {
          var j :| 0 <= j < |fs[1..]| && fs[1..][j] == f;
          assert fs[j + 1] == f;
        }
        AckFramesAfterReset(s, a.value, fs[1..], size);
      }
    }
  }

  // ------------------------------------------------------------------ the FIN after the reset

  /** A buffer that keeps its FIN through the reset tells the true final size exactly when it was not shortened. */
  lemma FinAfterReset(s: Stream, b: Buf, size: nat)
    requires PendingOk(s) && BufOk(s, b) && b.eof && b.offset < size
    ensures var c := CutAt(b, size);
            c.eof && (c.offset + |c.data| == s.finalWriteOffset.value <==> b.offset + |b.data| <= size)
  {
  }

  // ------------------------------------------------------------------ a run that fails

  /** One byte is written and made the reliable checkpoint, a second byte follows, and both leave in one frame. */
  const STRADDLE_RUN: seq<Step> := [Write([BYTE_X], false), Write([BYTE_Y], false), Send([], Some(2))]

  const ONE_WRITTEN := INITIAL_CONN.(stream := Stream([BYTE_X], [BYTE_X], 0, None, map[], [], {}))
  const TWO_WRITTEN := INITIAL_CONN.(stream := Stream([BYTE_X, BYTE_Y], [BYTE_X, BYTE_Y], 0, None, map[], [], {}))
  const TWO_IN_FLIGHT := Conn(Stream([BYTE_X, BYTE_Y], [], 2, None, map[0 := Buf(0, [BYTE_X, BYTE_Y], false)], [], {}),
                          map[0 := Packet([Frame(0, 2, false)], None, false)], {}, 1, 1, 0, 0)

  lemma StraddleRunReaches()
    ensures Reaches(STRADDLE_RUN, TWO_IN_FLIGHT)
  {
    assert [] + [BYTE_X] == [BYTE_X] && [BYTE_X] + [BYTE_Y] == [BYTE_X, BYTE_Y];
    assert Next(INITIAL_CONN, STRADDLE_RUN[0]) == Ok(ONE_WRITTEN);
    Extend([], INITIAL_CONN, STRADDLE_RUN[0], ONE_WRITTEN);
    assert Next(ONE_WRITTEN, STRADDLE_RUN[1]) == Ok(TWO_WRITTEN);
    assert STRADDLE_RUN[..1] == [] + [STRADDLE_RUN[0]];
    Extend(STRADDLE_RUN[..1], ONE_WRITTEN, STRADDLE_RUN[1], TWO_WRITTEN);
    assert STRADDLE_RUN[..2] == STRADDLE_RUN[..1] + [STRADDLE_RUN[1]];
    SendBoth();
    Extend(STRADDLE_RUN[..2], TWO_WRITTEN, STRADDLE_RUN[2], TWO_IN_FLIGHT);
    assert STRADDLE_RUN == STRADDLE_RUN[..2] + [STRADDLE_RUN[2]];
  }

  lemma SendBoth()
    ensures Enabled(TWO_WRITTEN, STRADDLE_RUN[2]) && Next(TWO_WRITTEN, STRADDLE_RUN[2]) == Ok(TWO_IN_FLIGHT)
  {
    var f := Frame(0, 2, false);
    assert Scheduled(TWO_WRITTEN.stream, [], Some(2)) == [f];
    assert [BYTE_X, BYTE_Y][..2] == [BYTE_X, BYTE_Y];
    WriteOne(TWO_WRITTEN.stream, f, TWO_IN_FLIGHT.stream, NewData);
  }

  /** Resetting that stream reliably at 1 and then acknowledging its packet fails the length CHECK. */
  lemma AckAfterResetFailsCheck()
    ensures Reaches(STRADDLE_RUN, TWO_IN_FLIGHT) && RetxOk(TWO_IN_FLIGHT.stream)
    ensures Enabled(TWO_IN_FLIGHT, Ack(0)) && AckPacket(ResetConn(TWO_IN_FLIGHT, 1), 0).CheckFailed?
  {
    StraddleRunReaches();
    EveryRunKeepsBytes(STRADDLE_RUN, TWO_IN_FLIGHT);
    var f := Frame(0, 2, false);
    assert f in TWO_IN_FLIGHT.packets[0].frames && Straddles(f, 1);
    AckPacketAfterReset(STRADDLE_RUN, TWO_IN_FLIGHT, 0, 1);
  }
}
