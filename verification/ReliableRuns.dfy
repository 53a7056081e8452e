/**
 Runs of a connection with a reliable reset in them (quic/state/stream/StreamStateFunctions.cpp,
 quic/state/stream/StreamSendHandlers.cpp). The steps after the reset are followed on the shorter stream, whose
 invariant is known; a step fails a CHECK exactly when it acknowledges a frame that the reset made shorter.
 After a reset the application writes no more, and the rebuilder passes over the stream's frames.
 */
module ReliableRuns {
  import opened Prelude
  import opened SendBuffers
  import opened SendBufferProofs
  import opened StreamSend
  import opened StreamSendProofs
  import opened SpuriousLoss
  import opened ReliableReset
  import opened ShorterStreams

  // ------------------------------------------------------------------ following a stream on the shorter one

  /** `s`, some time after its reset at `size`, has the buffers of `v`, a stream of `size` bytes. */
  ghost predicate Follows(s: Stream, v: Stream, size: nat) {
    && size <= |s.app| && v.app == s.app[..size] && !FinWaits(s, size)
    && v.pendingWrites == s.pendingWrites && v.retransmissionBuffer == s.retransmissionBuffer && v.lossBuffer == s.lossBuffer
    && v.finalWriteOffset == (if s.finalWriteOffset.Some? then Some(size) else None)
    && (s.finalWriteOffset.Some? ==> s.finalWriteOffset.value == |s.app|)
    && (s.currentWriteOffset > |s.app| ==> s.finalWriteOffset.Some?)
    && v.currentWriteOffset == (if s.currentWriteOffset > |s.app| then size + 1 else Min(s.currentWriteOffset, size))
    && forall x :: 0 <= x < size && x in v.acked ==> x in s.acked
  }

  /** Bytes before `size`, and not just a FIN. */
  ghost predicate Low(b: Buf, size: nat) { b.data != [] && b.offset + |b.data| <= size }

  /** Nothing is held under an offset at `size` or past it, and nothing will be. */
  ghost predicate Quiet(v: Stream, size: nat) {
    && (forall k :: k in v.retransmissionBuffer ==> v.retransmissionBuffer[k].offset == k && Low(v.retransmissionBuffer[k], size))
    && (forall i :: 0 <= i < |v.lossBuffer| ==> Low(v.lossBuffer[i], size))
    && (v.finalWriteOffset.None? || v.currentWriteOffset == size + 1)
  }

  /** The frames of the packets sent before packet `z` lie before `size`. */
  ghost predicate FramesBefore(c: Conn, size: nat, z: nat) {
    forall n, f :: n in c.packets && n < z && f in c.packets[n].frames ==> f.offset < size
  }

  /** The packets below `z` were sent before the reset and are seen cut. */
  ghost predicate FollowsConn(c: Conn, v: Conn, size: nat, z: nat) {
    && SameBut(c, v) && z <= c.nextPacketNum && Follows(c.stream, v.stream, size)
    && (forall n :: n in c.packets ==> v.packets[n].frames == Seen(c.packets[n].frames, size, n < z))
    && (Quiet(v.stream, size) || FramesBefore(c, size, z))
  }

  function Seen(fs: seq<Frame>, size: nat, before: bool): seq<Frame> { if before then CutFrames(fs, size) else fs }

  lemma ResetFollows(c: Conn, size: nat)
    requires ConnInv(c) && FramesSent(c) && size <= |c.stream.app| && !FinWaits(c.stream, size)
    ensures FollowsConn(ResetConn(c, size), ShorterConn(c, size), size, c.nextPacketNum)
  {
    hide CutFrames, TrimPending, TrimLoss, IdsOk, CountsOk, LiveMatch, GroupsOk, NoOrphans, LossOk, Covered, RetxLossApart, AckedSent;
    var (r, v, s) := (ResetConn(c, size), ShorterConn(c, size), c.stream);
    NumbersBelow(c);
    if s.finalWriteOffset.Some? && s.currentWriteOffset <= |s.app| {
      forall n, f | n in c.packets && f in c.packets[n].frames ensures f.offset < size { assert Sent(s, f); }
    } else {
      ResetQuiet(s, size);
    }
  }

  lemma NumbersBelow(c: Conn)
    requires IdsOk(c)
    ensures forall n :: n in c.packets ==> n < c.nextPacketNum
  {
  }

  lemma ResetQuiet(s: Stream, size: nat)
    requires StreamInv(s) && size <= |s.app| && !(s.finalWriteOffset.Some? && s.currentWriteOffset <= |s.app|)
    ensures Quiet(Shorter(s, size), size)
  {
    hide TrimLoss, CutAt;
    ShorterEntries(s, size);
    forall i | 0 <= i < |TrimLoss(s.lossBuffer, size)| ensures Low(TrimLoss(s.lossBuffer, size)[i], size) {
      CutLow(s, s.lossBuffer[i], size);
    }
    forall k | k in s.retransmissionBuffer && k < size
      ensures CutAt(s.retransmissionBuffer[k], size).offset == k && Low(CutAt(s.retransmissionBuffer[k], size), size)
    {
      CutLow(s, s.retransmissionBuffer[k], size);
      CutOffset(s.retransmissionBuffer[k], size);
    }
  }

  lemma CutLow(s: Stream, b: Buf, size: nat)
    requires BufOk(s, b) && b.offset < size <= |s.app|
    ensures Low(CutAt(b, size), size)
  {
  }

  // ------------------------------------------------------------------ acknowledging and losing

  ghost predicate Keyed(v: Stream) {
    forall k :: k in v.retransmissionBuffer ==> v.retransmissionBuffer[k].offset == k && !v.retransmissionBuffer[k].Husk()
  }

  /** No frame at or past `size` is held under its offset. */
  ghost predicate Past(v: Stream, fs: seq<Frame>, size: nat) {
    forall f :: f in fs && f.offset >= size ==> f.offset !in v.retransmissionBuffer
  }

  /** Acknowledging frames sent before the reset fails exactly at a frame that the reset made shorter. */
  lemma {:induction false} AckFollows(s: Stream, v: Stream, fs: seq<Frame>, size: nat)
    requires Follows(s, v, size) && Keyed(v) && Past(v, fs, size)
    requires AllMatch(v, CutFrames(fs, size)) && Distinct(CutFrames(fs, size))
    ensures AckFrames(s, fs).CheckFailed? <==> exists f :: f in fs && Straddles(f, size)
    ensures AckFrames(s, fs).Ok? ==>
              var (a, b) := (AckFrames(s, fs), AckFrames(v, CutFrames(fs, size)));
              b.Ok? && Follows(a.value, b.value, size) && (Quiet(v, size) ==> Quiet(b.value, size))
    decreases |fs|
  {
    if fs != [] {
      var (f, t) := (fs[0], CutFrames(fs[1..], size));
      assert forall g :: g in fs <==> g == f || g in fs[1..];
      if f.offset >= size {
        assert CutFrames(fs, size) == t;
        assert AckFrame(s, f) == Ok(s);
        AckFollows(s, v, fs[1..], size);
      } else {
        var g := CutFrame(f, size);
        assert CutFrames(fs, size) == [g] + t && ([g] + t)[0] == g && ([g] + t)[1..] == t;
        AckHead(s, v, f, t, size);
        if !Straddles(f, size) {
          hide AckFrame, Follows, Quiet, Straddles;
          AckFollows(AckFrame(s, f).value, AckFrame(v, g).value, fs[1..], size);
        }
      }
    }
  }

  lemma AckHead(s: Stream, v: Stream, f: Frame, t: seq<Frame>, size: nat)
    requires Follows(s, v, size) && Keyed(v) && f.offset < size
    requires AllMatch(v, [CutFrame(f, size)] + t) && Distinct([CutFrame(f, size)] + t)
    ensures AckFrame(s, f).CheckFailed? <==> Straddles(f, size)
    ensures AckFrame(v, CutFrame(f, size)).Ok? && Distinct(t)
    ensures !Straddles(f, size) ==>
              var (a, b) := (AckFrame(s, f).value, AckFrame(v, CutFrame(f, size)).value);
              && CutFrame(f, size) == f && Follows(a, b, size) && Keyed(b) && AllMatch(b, t)
              && (Quiet(v, size) ==> Quiet(b, size))
              && b.retransmissionBuffer == v.retransmissionBuffer - {f.offset}
  {
    var g := CutFrame(f, size);
    var all := [g] + t;
    assert all[0] == g && Matches(v, g);
    assert forall i :: 0 <= i < |t| ==> all[i + 1] == t[i];
    forall h | h in t ensures h.offset != g.offset && Matches(v, h) {
      var i :| 0 <= i < |t| && t[i] == h;
      assert all[i + 1] == h && h in all;
    }
  }

  lemma InsertLow(q: seq<Buf>, b: Buf, size: nat)
    requires Low(b, size) && forall i :: 0 <= i < |q| ==> Low(q[i], size)
    ensures forall i :: 0 <= i < |InsertIntoLossBuffer(q, b)| ==> Low(InsertIntoLossBuffer(q, b)[i], size)
  {
    hide LowerBound;
    var k := LowerBound(q, b.offset + 1);
    var r := InsertIntoLossBuffer(q, b);
    forall i | 0 <= i < |r| ensures Low(r[i], size) {
      if |r| == |q| + 1 { assert r[i] == if i < k then q[i] else if i == k then b else q[i - 1]; }
    }
  }

  /** Losing frames sent before the reset moves the same buffers. */
  lemma {:induction false} LoseFollows(s: Stream, v: Stream, fs: seq<Frame>, size: nat)
    requires Follows(s, v, size) && Keyed(v) && Past(v, fs, size)
    ensures var (a, b) := (LoseFrames(s, fs), LoseFrames(v, CutFrames(fs, size)));
            Follows(a, b, size) && (Quiet(v, size) ==> Quiet(b, size))
    decreases |fs|
  {
    if fs != [] {
      var (f, t) := (fs[0], CutFrames(fs[1..], size));
      assert forall g :: g in fs <==> g == f || g in fs[1..];
      if f.offset >= size {
        assert CutFrames(fs, size) == t;
        LoseFollows(s, v, fs[1..], size);
      } else {
        var g := CutFrame(f, size);
        assert CutFrames(fs, size) == [g] + t && ([g] + t)[0] == g && ([g] + t)[1..] == t;
        LoseHead(s, v, f, size);
        assert Past(LoseFrame(v, g), fs[1..], size);
        hide LoseFrame, Follows, Quiet;
        LoseFollows(LoseFrame(s, f), LoseFrame(v, g), fs[1..], size);
      }
    }
  }

  lemma LoseHead(s: Stream, v: Stream, f: Frame, size: nat)
    requires Follows(s, v, size) && Keyed(v) && f.offset < size
    ensures var (a, b) := (LoseFrame(s, f), LoseFrame(v, CutFrame(f, size)));
            && Follows(a, b, size) && Keyed(b) && (Quiet(v, size) ==> Quiet(b, size))
            && b.retransmissionBuffer.Keys <= v.retransmissionBuffer.Keys
  {
    hide InsertIntoLossBuffer;
    if f.offset in v.retransmissionBuffer && Quiet(v, size) {
      InsertLow(v.lossBuffer, v.retransmissionBuffer[f.offset], size);
    }
  }

  /** Frames sent after the reset are acknowledged alike. */
  lemma {:induction false} AckSame(s: Stream, v: Stream, fs: seq<Frame>, size: nat)
    requires Follows(s, v, size)
    ensures AckFrames(s, fs).Ok? <==> AckFrames(v, fs).Ok?
    ensures AckFrames(v, fs).Ok? ==>
              var (a, b) := (AckFrames(s, fs).value, AckFrames(v, fs).value);
              Follows(a, b, size) && (Quiet(v, size) ==> Quiet(b, size))
    decreases |fs|
  {
    if fs != [] && AckFrame(v, fs[0]).Ok? {
      var (a, b) := (AckFrame(s, fs[0]).value, AckFrame(v, fs[0]).value);
      assert Follows(a, b, size) && (Quiet(v, size) ==> Quiet(b, size));
      hide Follows, Quiet;
      AckSame(a, b, fs[1..], size);
    }
  }

  lemma {:induction false} LoseSame(s: Stream, v: Stream, fs: seq<Frame>, size: nat)
    requires Follows(s, v, size)
    ensures var (a, b) := (LoseFrames(s, fs), LoseFrames(v, fs));
            Follows(a, b, size) && (Quiet(v, size) ==> Quiet(b, size))
    decreases |fs|
  {
    if fs != [] {
      var (a, b) := (LoseFrame(s, fs[0]), LoseFrame(v, fs[0]));
      if Quiet(v, size) && fs[0].offset in v.retransmissionBuffer {
        InsertLow(v.lossBuffer, v.retransmissionBuffer[fs[0].offset], size);
      }
      hide InsertIntoLossBuffer;
      assert Follows(a, b, size) && (Quiet(v, size) ==> Quiet(b, size));
      hide Follows, Quiet;
      LoseSame(a, b, fs[1..], size);
    }
  }

  // ------------------------------------------------------------------ sending

  lemma RetransmitFollows(s: Stream, v: Stream, f: Frame, k: nat, size: nat)
    requires Follows(s, v, size) && StreamInv(v) && CutFromLoss(v, f, k)
    ensures var (a, b) := (HandleStreamWritten(s, f), HandleStreamWritten(v, f));
            && a.1 == b.1 == Retransmission && a.0.Ok? && b.0.Ok?
            && Follows(a.0.value, b.0.value, size) && (Quiet(v, size) ==> Quiet(b.0.value, size))
            && a.0.value.currentWriteOffset == s.currentWriteOffset
  {
    RetransmitShape(v, f, k);
    assert BufOk(v, v.lossBuffer[k]);
    assert f.offset < v.currentWriteOffset && f.offset < s.currentWriteOffset;
    var b := HandleStreamWritten(v, f).0.value;
    hide StreamInv, HandleStreamWritten, BufOk, Quiet;
    SameBranch(s, v, f, b);
    if Quiet(v, size) { QuietCut(v, f, k, b, size); }
  }

  /** Offsets below both write offsets and the same buffers: the same branch and the same buffers afterwards. */
  lemma SameBranch(s: Stream, v: Stream, f: Frame, b: Stream)
    requires s.retransmissionBuffer == v.retransmissionBuffer && s.lossBuffer == v.lossBuffer
    requires f.offset < s.currentWriteOffset && f.offset < v.currentWriteOffset
    requires HandleStreamWritten(v, f) == (Ok(b), Retransmission)
    ensures HandleStreamWritten(s, f) ==
            (Ok(s.(retransmissionBuffer := b.retransmissionBuffer, lossBuffer := b.lossBuffer)), Retransmission)
  {
    hide LowerBound;
  }

  lemma QuietCut(v: Stream, f: Frame, k: nat, b: Stream, size: nat)
    requires Quiet(v, size) && CutFromLoss(v, f, k) && f.offset + f.len <= |v.app|
    requires b == v.(retransmissionBuffer := v.retransmissionBuffer[f.offset := Buf(f.offset, v.app[f.offset..f.offset + f.len], f.fin)],
                     lossBuffer := LossAfterCut(v.lossBuffer, f, k))
    ensures Quiet(b, size)
  {
    var q := v.lossBuffer;
    assert Low(q[k], size);
    forall i | 0 <= i < |b.lossBuffer| ensures Low(b.lossBuffer[i], size) {
      if |b.lossBuffer| < |q| { assert b.lossBuffer[i] == q[if i < k then i else i + 1]; }
      else if i != k { assert b.lossBuffer[i] == q[i]; }
    }
  }

  lemma NewFollows(s: Stream, v: Stream, f: Frame, size: nat)
    requires Follows(s, v, size) && StreamInv(v) && CutFromPending(v, f) && s.currentWriteOffset == v.currentWriteOffset
    ensures var (a, b) := (HandleStreamWritten(s, f), HandleStreamWritten(v, f));
            && a.1 == b.1 == NewData && a.0.Ok? && b.0.Ok?
            && Follows(a.0.value, b.0.value, size) && (Quiet(v, size) ==> Quiet(b.0.value, size))
  {
    NewDataShape(v, f);
    assert PendingOk(v);
    hide StreamInv;
  }

  /** What can be sent of new data is the same. */
  lemma NewSame(s: Stream, v: Stream, grant: nat, size: nat)
    requires Follows(s, v, size) && PendingOk(v) && NewGranted(s, grant)
    ensures NewGranted(v, grant) && s.currentWriteOffset == v.currentWriteOffset && NewFrame(s, grant) == NewFrame(v, grant)
    ensures CutFromPending(v, NewFrame(v, grant))
  {
  }

  lemma {:induction false} ScheduledFollows(s: Stream, v: Stream, q: seq<Buf>, grants: seq<nat>, tail: seq<Frame>, size: nat)
    requires Follows(s, v, size) && StreamInv(v) && |q| <= |v.lossBuffer| && q == v.lossBuffer[|v.lossBuffer| - |q|..]
    requires Granted(q, grants)
    requires tail == [] || (|tail| == 1 && CutFromPending(v, tail[0]) && s.currentWriteOffset == v.currentWriteOffset)
    ensures var fs := LossFrames(q, grants) + tail;
            var (a, b) := (WriteFrames(s, fs), WriteFrames(v, fs));
            a.Ok? && b.Ok? && Follows(a.value, b.value, size) && (Quiet(v, size) ==> Quiet(b.value, size))
    decreases |grants|
  {
    hide StreamInv, Follows, Quiet, HandleStreamWritten, AckedReleased, Added;
    var fs := LossFrames(q, grants) + tail;
    if grants == [] {
      assert fs == tail;
      if tail != [] {
        assert tail[1..] == [];
        NewFollows(s, v, tail[0], size);
      }
    } else {
      var k, f := |v.lossBuffer| - |q|, LossFrames(q, grants)[0];
      FirstCut(v, q, grants, k);
      RetransmitFollows(s, v, f, k, size);
      var m := WriteRetransmission(v, f, k, q);
      var rest := LossFrames(q[1..], grants[1..]) + tail;
      StillPending(v, m, tail);
      ScheduledFollows(HandleStreamWritten(s, f).0.value, m, q[1..], grants[1..], tail, size);
      assert fs == [f] + rest && ([f] + rest)[1..] == rest;
    }
  }

  lemma StillPending(v: Stream, m: Stream, tail: seq<Frame>)
    requires m.currentWriteOffset == v.currentWriteOffset && m.pendingWrites == v.pendingWrites
    requires m.app == v.app && m.finalWriteOffset == v.finalWriteOffset
    ensures forall f :: CutFromPending(v, f) ==> CutFromPending(m, f)
  {
  }

  // ------------------------------------------------------------------ steps after the reset

  /** What still happens to a stream after its reset. */
  predicate LaterStep(step: Step) { !step.Write? && !step.Clone? }

  /** The step acknowledges, in a live packet sent before the reset, a frame that the reset made shorter. */
  ghost predicate AcksShortened(c: Conn, step: Step, size: nat, z: nat) {
    step.Ack? && Live(c, step.num) && step.num < z && exists f :: f in c.packets[step.num].frames && Straddles(f, size)
  }

  lemma ScheduleSame(c: Conn, v: Conn, step: Step, size: nat)
    requires StreamInv(v.stream) && Follows(c.stream, v.stream, size) && step.Send? && Enabled(c, step)
    ensures Enabled(v, step)
    ensures var fs := Scheduled(c.stream, step.lossGrants, step.newGrant);
            var (a, b) := (WriteFrames(c.stream, fs), WriteFrames(v.stream, fs));
            && fs == Scheduled(v.stream, step.lossGrants, step.newGrant)
            && a.Ok? && b.Ok? && Follows(a.value, b.value, size) && (Quiet(v.stream, size) ==> Quiet(b.value, size))
  {
    var (grants, grant) := (step.lossGrants, step.newGrant);
    if grant.Some? { NewSame(c.stream, v.stream, grant.value, size); }
    SameLoss(c.stream, v.stream, size);
    hide StreamInv, Follows, Quiet, WriteFrames, LossFrames, NewFrame, CutFromPending;
    var q := v.stream.lossBuffer;
    assert q == q[|q| - |q|..];
    var tail := if grant.Some? then [NewFrame(v.stream, grant.value)] else [];
    ScheduledFollows(c.stream, v.stream, q, grants, tail, size);
  }

  /** A connection with one more packet. */
  ghost function WithPacket(c: Conn, s: Stream, fs: seq<Frame>): Conn {
    c.(stream := s, packets := c.packets[c.nextPacketNum := Packet(fs, None, false)],
       nextPacketNum := c.nextPacketNum + 1, packetCount := c.packetCount + 1)
  }

  lemma WithPacketFollows(c: Conn, v: Conn, a: Stream, b: Stream, fs: seq<Frame>, size: nat, z: nat)
    requires FollowsConn(c, v, size, z) && Follows(a, b, size) && (Quiet(v.stream, size) ==> Quiet(b, size))
    ensures FollowsConn(WithPacket(c, a, fs), WithPacket(v, b, fs), size, z)
  {
    hide Follows, Quiet, CutFrames;
    var (r, w) := (WithPacket(c, a, fs), WithPacket(v, b, fs));
    assert w.packets.Keys == r.packets.Keys by {
      assert w.packets.Keys == v.packets.Keys + {c.nextPacketNum} && r.packets.Keys == c.packets.Keys + {c.nextPacketNum};
    }
    if !Quiet(b, size) { assert FramesBefore(c, size, z); }
  }

  lemma SendFollows(c: Conn, v: Conn, step: Step, size: nat, z: nat)
    requires ConnInv(v) && FollowsConn(c, v, size, z) && step.Send? && Enabled(c, step)
    ensures Enabled(v, step) && Next(c, step).Ok? && Next(v, step).Ok?
    ensures FollowsConn(Next(c, step).value, Next(v, step).value, size, z)
  {
    assert StreamInv(v.stream) && Follows(c.stream, v.stream, size);
    hide StreamInv, Follows, Quiet, WriteFrames, CutFrames, Scheduled, ConnInv, Granted, NewGranted, FollowsConn;
    ScheduleSame(c, v, step, size);
    var fs := Scheduled(c.stream, step.lossGrants, step.newGrant);
    WithPacketFollows(c, v, WriteFrames(c.stream, fs).value, WriteFrames(v.stream, fs).value, fs, size, z);
  }

  lemma SameLoss(s: Stream, v: Stream, size: nat)
    requires Follows(s, v, size)
    ensures s.lossBuffer == v.lossBuffer
  {
  }

  lemma LivePast(c: Conn, v: Conn, n: nat, size: nat, z: nat)
    requires ConnInv(v) && FollowsConn(c, v, size, z) && Live(c, n) && n < z
    ensures Keyed(v.stream) && Past(v.stream, c.packets[n].frames, size)
    ensures AllMatch(v.stream, CutFrames(c.packets[n].frames, size)) && Distinct(CutFrames(c.packets[n].frames, size))
  {
    hide CutFrames, Follows;
    assert Live(v, n);
    LiveFrames(v, n);
    forall k | k in v.stream.retransmissionBuffer ensures !v.stream.retransmissionBuffer[k].Husk() {
      assert BufOk(v.stream, v.stream.retransmissionBuffer[k]);
    }
  }

  lemma CountsFollow(c: Conn, v: Conn, n: nat)
    requires SameBut(c, v) && n in c.packets
    ensures CountOut(c, n).Ok? <==> CountOut(v, n).Ok?
    ensures CountOut(c, n).Ok? ==>
              var (a, b) := (CountOut(c, n).value, CountOut(v, n).value);
              && SameBut(a, b) && a.packets == c.packets && b.packets == v.packets
              && a.stream == c.stream && b.stream == v.stream && a.nextPacketNum == c.nextPacketNum
  {
    SameLive(c, v);
  }

  lemma AckStep(c: Conn, v: Conn, n: nat, size: nat, z: nat)
    requires ConnInv(v) && FollowsConn(c, v, size, z) && Enabled(c, Ack(n))
    ensures Enabled(v, Ack(n)) && Next(v, Ack(n)).Ok?
    ensures Next(c, Ack(n)).CheckFailed? <==> AcksShortened(c, Ack(n), size, z)
    ensures Next(c, Ack(n)).Ok? ==> FollowsConn(Next(c, Ack(n)).value, Next(v, Ack(n)).value, size, z)
  {
    hide CutFrames, Follows, Quiet, AckFrames, CountOut, ConnInv, Straddles;
    SameLive(c, v);
    StepInv(v, Ack(n));
    CountsFollow(c, v, n);
    if Live(c, n) {
      if n < z {
        LivePast(c, v, n, size, z);
        AckFollows(c.stream, v.stream, c.packets[n].frames, size);
      } else {
        AckSame(c.stream, v.stream, c.packets[n].frames, size);
      }
    }
  }

  lemma LoseStep(c: Conn, v: Conn, n: nat, size: nat, z: nat)
    requires ConnInv(v) && FollowsConn(c, v, size, z) && Enabled(c, Lose(n))
    ensures Enabled(v, Lose(n)) && Next(v, Lose(n)).Ok? && Next(c, Lose(n)).Ok?
    ensures FollowsConn(Next(c, Lose(n)).value, Next(v, Lose(n)).value, size, z)
  {
    hide CutFrames, Follows, Quiet, LoseFrames, CountOut, ConnInv;
    SameLive(c, v);
    StepInv(v, Lose(n));
    CountsFollow(c, v, n);
    if Live(c, n) {
      if n < z {
        LivePast(c, v, n, size, z);
        LoseFollows(c.stream, v.stream, c.packets[n].frames, size);
      } else {
        LoseSame(c.stream, v.stream, c.packets[n].frames, size);
      }
    }
  }

  /** After the reset a step fails a CHECK exactly when it acknowledges a shortened frame; else the shorter stream is followed on. */
  lemma StepFollows(c: Conn, v: Conn, step: Step, size: nat, z: nat)
    requires ConnInv(v) && FollowsConn(c, v, size, z) && LaterStep(step) && Enabled(c, step)
    ensures Enabled(v, step) && Next(v, step).Ok? && ConnInv(Next(v, step).value)
    ensures Next(c, step).CheckFailed? <==> AcksShortened(c, step, size, z)
    ensures Next(c, step).Ok? ==> FollowsConn(Next(c, step).value, Next(v, step).value, size, z)
  {
    match step
    case Send(_, _) =>
      hide ConnInv, FollowsConn, Next, Enabled;
      SendFollows(c, v, step, size, z);
      StepInv(v, step);
    case Ack(n) =>
      hide ConnInv, FollowsConn, Next, Enabled, AcksShortened;
      AckStep(c, v, n, size, z);
      StepInv(v, step);
    case Lose(n) =>
      hide ConnInv, FollowsConn, Next, Enabled;
      LoseStep(c, v, n, size, z);
      StepInv(v, step);
    case DropLost(n) =>
      hide ConnInv, FollowsConn, Next, Enabled;
      DropStep(c, v, n, size, z);
      StepInv(v, step);
  }

  lemma DropStep(c: Conn, v: Conn, n: nat, size: nat, z: nat)
    requires ConnInv(v) && FollowsConn(c, v, size, z) && Enabled(c, DropLost(n))
    ensures Enabled(v, DropLost(n)) && Next(v, DropLost(n)).Ok? && Next(c, DropLost(n)).Ok?
    ensures FollowsConn(Next(c, DropLost(n)).value, Next(v, DropLost(n)).value, size, z)
  {
    hide ConnInv, Follows, Quiet, CutFrames;
    StepInv(v, DropLost(n));
  }

  // ------------------------------------------------------------------ runs

  /** The states from a reset of `c` at `size` on. */
  ghost predicate RunFromReset(c: Conn, size: nat, steps: seq<Step>, states: seq<Conn>)
    requires RetxOk(c.stream)
  {
    && |states| == |steps| + 1 && states[0] == ResetConn(c, size)
    && forall k :: 0 <= k < |steps| ==> StepTaken(steps, states, k)
  }

  ghost predicate StepTaken(steps: seq<Step>, states: seq<Conn>, k: nat)
    requires k < |steps| < |states|
  {
    LaterStep(steps[k]) && Enabled(states[k], steps[k]) && Next(states[k], steps[k]) == Ok(states[k + 1])
  }

  lemma {:induction false} RunFollows(c: Conn, size: nat, steps: seq<Step>, states: seq<Conn>, k: nat) returns (v: Conn)
    requires ConnInv(c) && FramesSent(c) && size <= |c.stream.app| && !FinWaits(c.stream, size)
    requires RetxOk(c.stream) && RunFromReset(c, size, steps, states) && k < |states|
    ensures ConnInv(v) && FollowsConn(states[k], v, size, c.nextPacketNum)
    decreases k
  {
    hide ConnInv, FollowsConn, FramesSent, FinWaits, RetxOk, Next, Enabled;
    if k == 0 {
      v := ShorterConn(c, size);
      ShorterConnInv(c, size);
      ResetFollows(c, size);
    } else {
      var u := RunFollows(c, size, steps, states, k - 1);
      assert StepTaken(steps, states, k - 1);
      StepFollows(states[k - 1], u, steps[k - 1], size, c.nextPacketNum);
      v := Next(u, steps[k - 1]).value;
    }
  }

  /** Every position before `size` that was sent is acknowledged, in flight or lost, in buffers of the application's own bytes. */
  ghost predicate ReliablePart(s: Stream, size: nat) {
    && (forall x :: 0 <= x < size && x < s.currentWriteOffset ==> x in s.acked || InFlight(s, x) || Lost(s, x))
    && (forall k :: k in s.retransmissionBuffer ==> ReliableBuf(s, s.retransmissionBuffer[k], size))
    && (forall i :: 0 <= i < |s.lossBuffer| ==> ReliableBuf(s, s.lossBuffer[i], size))
  }

  ghost predicate ReliableBuf(s: Stream, b: Buf, size: nat) {
    b.offset + |b.data| <= size <= |s.app| && b.data == s.app[b.offset..b.offset + |b.data|]
  }

  lemma FollowsReliable(s: Stream, v: Stream, size: nat)
    requires Follows(s, v, size) && StreamInv(v)
    ensures ReliablePart(s, size)
  {
    assert forall b :: BufOk(v, b) ==> ReliableBuf(s, b, size);
    forall x | 0 <= x < size && x < s.currentWriteOffset ensures x in s.acked || InFlight(s, x) || Lost(s, x) {
      assert x < v.currentWriteOffset;
      assert InFlight(v, x) == InFlight(s, x) && Lost(v, x) == Lost(s, x);
    }
  }

  /**
   Whatever happened before a reliable reset and whatever happens after it: the reliable part of the stream is
   kept in every state, and a step fails a CHECK exactly when it acknowledges, in a live packet sent before
   the reset, a frame with the reset point strictly inside.
   */
  lemma EveryResetRun(before: seq<Step>, c: Conn, size: nat, steps: seq<Step>, states: seq<Conn>, k: nat, step: Step)
    requires Reaches(before, c) && RetxOk(c.stream) && size <= |c.stream.app| && !FinWaits(c.stream, size)
    requires RunFromReset(c, size, steps, states) && k < |states|
    ensures ReliablePart(states[k].stream, size)
    ensures LaterStep(step) && Enabled(states[k], step) ==>
              (Next(states[k], step).CheckFailed? <==> AcksShortened(states[k], step, size, c.nextPacketNum))
  {
    hide Reaches, RetxOk, FramesSent, FinWaits, RunFromReset, Next, Enabled, AcksShortened;
    EveryRunKeepsBytes(before, c);
    EveryRunFramesSent(before, c);
    var v := RunFollows(c, size, steps, states, k);
    FollowsReliable(states[k].stream, v.stream, size);
    if LaterStep(step) && Enabled(states[k], step) { StepFollows(states[k], v, step, size, c.nextPacketNum); }
  }

  // ------------------------------------------------------------------ the FIN after the reset

  /**
   A FIN that is sent with new data after the reset tells the true final size exactly when the reset dropped
   nothing that was waiting; when it did drop something, there is still such a frame to send.
   */
  lemma FinSentAfterReset(s: Stream, size: nat, grant: nat)
    requires StreamInv(s) && size <= |s.app|
    ensures var r := ResetAt(s, size);
            && (NewGranted(r, grant) && NewFrame(r, grant).fin ==>
                  (NewFrame(r, grant).offset + grant == s.finalWriteOffset.value <==> size == |s.app| || s.currentWriteOffset == |s.app|))
            && (FinWaits(s, size) ==> NewGranted(r, |r.pendingWrites|) && NewFrame(r, |r.pendingWrites|).fin)
  {
    hide TrimRetransmission, TrimLoss;
  }

  /** Two bytes and the end are written and the stream is reset at 1: the FIN goes out behind the first byte. */
  lemma FinTooEarly()
    ensures Reaches(HUSK_RUN[..1], ALL_WRITTEN) && RetxOk(ALL_WRITTEN.stream) && ALL_WRITTEN.stream.finalWriteOffset == Some(2)
    ensures NewGranted(ResetAt(ALL_WRITTEN.stream, 1), 1) && NewFrame(ResetAt(ALL_WRITTEN.stream, 1), 1) == Frame(0, 1, true)
  {
    StartRun();
    assert TrimPending(ALL_WRITTEN.stream, 1) == [BYTE_X];
  }
}
