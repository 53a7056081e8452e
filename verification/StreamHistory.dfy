/**
 What each step of the send side does to every position of the stream, and what a state of a run has to do with
 the steps that led to it (quic/state/QuicStreamFunctions.cpp, quic/api/QuicTransportFunctions.cpp,
 quic/state/stream/StreamSendHandlers.cpp, quic/loss/QuicLossFunctions.cpp). Everything here is said in terms of
 the steps, the frames and the packets, not of the functions that compute the buffers.
 */
module StreamHistory {
  import opened Prelude
  import opened SendBuffers
  import opened SendBufferProofs
  import opened StreamSend
  import opened StreamSendProofs
  import opened SpuriousRuns

  // ------------------------------------------------------------------ positions of frames

  /** Some frame carries position `x`; the FIN is the position behind the data. */
  ghost predicate Carries(fs: seq<Frame>, x: int) { exists f :: f in fs && FrameCarries(f, x) }

  predicate FrameCarries(f: Frame, x: int) { f.offset <= x < f.offset + f.len + if f.fin then 1 else 0 }

  /** A step sends position `x`: of a granted front of a loss entry, or of the bytes that were pending. */
  ghost predicate SendsNow(s: Stream, step: Step, x: int) {
    && step.Send?
    && (|| (exists i :: 0 <= i < |step.lossGrants| && i < |s.lossBuffer| && EntrySends(s.lossBuffer[i], step.lossGrants[i], x))
        || (step.newGrant.Some? && PendingSends(s, step.newGrant.value, x)))
  }

  predicate EntrySends(b: Buf, grant: nat, x: int) {
    b.offset <= x < b.offset + grant + if b.eof && grant == |b.data| then 1 else 0
  }

  predicate PendingSends(s: Stream, grant: nat, x: int) {
    s.currentWriteOffset <= x <
      s.currentWriteOffset + grant + if s.finalWriteOffset.Some? && grant == |s.pendingWrites| then 1 else 0
  }

  lemma ScheduledCarries(s: Stream, step: Step, x: int)
    requires step.Send? && |step.lossGrants| <= |s.lossBuffer|
    ensures Carries(Scheduled(s, step.lossGrants, step.newGrant), x) <==> SendsNow(s, step, x)
  {
    hide LossFrames;
    var (grants, fs) := (step.lossGrants, Scheduled(s, step.lossGrants, step.newGrant));
    assert forall i :: 0 <= i < |grants| ==> fs[i] == LossFrames(s.lossBuffer, grants)[i];
    if Carries(fs, x) {
      var f :| f in fs && FrameCarries(f, x);
      var i :| 0 <= i < |fs| && fs[i] == f;
      if i < |grants| {
        LossFrameAt(s.lossBuffer, grants, i);
        assert EntrySends(s.lossBuffer[i], grants[i], x);
      }
    }
    if i :| 0 <= i < |grants| && EntrySends(s.lossBuffer[i], grants[i], x) {
      LossFrameAt(s.lossBuffer, grants, i);
      assert fs[i] in fs && FrameCarries(fs[i], x);
    }
    if step.newGrant.Some? && PendingSends(s, step.newGrant.value, x) {
      assert fs[|grants|] in fs && FrameCarries(fs[|grants|], x);
    }
  }

  // ------------------------------------------------------------------ one packet's frames

  lemma NotBoth(s: Stream, x: int)
    requires StreamInv(s)
    ensures !(InFlight(s, x) && Lost(s, x))
  {
  }

  /** Fields that a processed packet leaves alone. */
  ghost predicate SameRest(s: Stream, r: Stream) {
    && r.app == s.app && r.pendingWrites == s.pendingWrites
    && r.currentWriteOffset == s.currentWriteOffset && r.finalWriteOffset == s.finalWriteOffset
  }

  lemma CarriesCons(fs: seq<Frame>, x: int)
    requires fs != []
    ensures Carries(fs, x) <==> FrameCarries(fs[0], x) || Carries(fs[1..], x)
  {
    assert forall f :: f in fs <==> f == fs[0] || f in fs[1..];
  }

  lemma MatchedCovers(s: Stream, f: Frame, x: int)
    requires RetxOk(s) && Matches(s, f)
    ensures s.retransmissionBuffer[f.offset].Covers(x) <==> FrameCarries(f, x)
  {
  }

  /** Acknowledging frames in flight acknowledges exactly their positions, and takes them out of flight. */
  lemma {:induction false} AckFramesEffect(s: Stream, fs: seq<Frame>, x: int)
    requires StreamInv(s) && AllMatch(s, fs) && Distinct(fs)
    ensures var r := AckFrames(s, fs);
            && r.Ok? && SameRest(s, r.value) && r.value.lossBuffer == s.lossBuffer
            && (x in r.value.acked <==> x in s.acked || Carries(fs, x))
            && (InFlight(r.value, x) <==> InFlight(s, x) && !Carries(fs, x))
    decreases |fs|
  {
    if fs != [] {
      assert fs[0] in fs;
      AckFrameEffect(s, fs[0], x);
      AckInv(s, fs[0]);
      RestMatches(s, fs, AckFrame(s, fs[0]).value);
      CarriesCons(fs, x);
      hide StreamInv, AckFrame, InFlight, Matches, AllMatch, Distinct, Carries;
      AckFramesEffect(AckFrame(s, fs[0]).value, fs[1..], x);
    }
  }

  lemma AckFrameEffect(s: Stream, f: Frame, x: int)
    requires StreamInv(s) && Matches(s, f)
    ensures var r := AckFrame(s, f);
            && r.Ok? && SameRest(s, r.value) && r.value.lossBuffer == s.lossBuffer
            && (x in r.value.acked <==> x in s.acked || FrameCarries(f, x))
            && (InFlight(r.value, x) <==> InFlight(s, x) && !FrameCarries(f, x))
  {
    assert BufOk(s, s.retransmissionBuffer[f.offset]);
    RemoveFromFlight(s, f.offset, AckFrame(s, f).value);
    MatchedCovers(s, f, x);
  }

  /** Losing frames in flight makes exactly their positions lost, and takes them out of flight. */
  lemma {:induction false} LoseFramesEffect(s: Stream, fs: seq<Frame>, x: int)
    requires StreamInv(s) && AllMatch(s, fs) && Distinct(fs)
    ensures var r := LoseFrames(s, fs);
            && SameRest(s, r) && r.acked == s.acked
            && (Lost(r, x) <==> Lost(s, x) || Carries(fs, x))
            && (InFlight(r, x) <==> InFlight(s, x) && !Carries(fs, x))
    decreases |fs|
  {
    if fs != [] {
      assert fs[0] in fs;
      LoseFrameEffect(s, fs[0], x);
      LoseInv(s, fs[0]);
      RestMatches(s, fs, LoseFrame(s, fs[0]));
      CarriesCons(fs, x);
      hide StreamInv, LoseFrame, InFlight, Lost, Matches, AllMatch, Distinct, Carries;
      LoseFramesEffect(LoseFrame(s, fs[0]), fs[1..], x);
    }
  }

  lemma LoseFrameEffect(s: Stream, f: Frame, x: int)
    requires StreamInv(s) && Matches(s, f)
    ensures var r := LoseFrame(s, f);
            && SameRest(s, r) && r.acked == s.acked
            && (Lost(r, x) <==> Lost(s, x) || FrameCarries(f, x))
            && (InFlight(r, x) <==> InFlight(s, x) && !FrameCarries(f, x))
  {
    var (b, r) := (s.retransmissionBuffer[f.offset], LoseFrame(s, f));
    RemoveFromFlight(s, f.offset, r);
    MatchedCovers(s, f, x);
    assert BufOk(s, b) && forall i :: 0 <= i < |s.lossBuffer| ==> Apart(b, s.lossBuffer[i]);
    InsertOk(s, b);
    assert Lost(s, x) == Held(s.lossBuffer, x) && Lost(r, x) == Held(r.lossBuffer, x);
  }

  // ------------------------------------------------------------------ sending

  /** What is in flight or lost together grows by exactly the new data. */
  lemma {:induction false} ScheduledUnion(s: Stream, q: seq<Buf>, grants: seq<nat>, tail: seq<Frame>, x: int)
    requires StreamInv(s) && |q| <= |s.lossBuffer| && q == s.lossBuffer[|s.lossBuffer| - |q|..] && Granted(q, grants)
    requires tail == [] || (|tail| == 1 && CutFromPending(s, tail[0]))
    ensures var r := WriteFrames(s, LossFrames(q, grants) + tail);
            && r.Ok? && r.value.acked == s.acked && r.value.app == s.app && r.value.finalWriteOffset == s.finalWriteOffset
            && (InFlight(r.value, x) || Lost(r.value, x) <==> InFlight(s, x) || Lost(s, x) || Carries(tail, x))
            && r.value.currentWriteOffset ==
                 s.currentWriteOffset + if tail == [] then 0 else tail[0].len + if tail[0].fin then 1 else 0
    decreases |grants|
  {
    hide StreamInv, HandleStreamWritten, AckedReleased, Added, InFlight, Lost;
    var fs := LossFrames(q, grants) + tail;
    if grants == [] {
      assert fs == tail;
      if tail != [] {
        assert tail == [tail[0]] && tail[1..] == [];
        NewDataEffect(s, tail[0], x);
        CarriesCons(tail, x);
      }
    } else {
      var k, f := |s.lossBuffer| - |q|, LossFrames(q, grants)[0];
      FirstCut(s, q, grants, k);
      var m := WriteRetransmission(s, f, k, q);
      RetransmitKeeps(s, f, k, m, x);
      var rest := LossFrames(q[1..], grants[1..]) + tail;
      ScheduledUnion(m, q[1..], grants[1..], tail, x);
      assert fs == [f] + rest && ([f] + rest)[1..] == rest;
    }
  }

  lemma NewDataEffect(s: Stream, f: Frame, x: int)
    requires StreamInv(s) && CutFromPending(s, f)
    ensures var (r, kind) := HandleStreamWritten(s, f);
            && r.Ok? && kind == NewData && r.value.acked == s.acked && r.value.app == s.app
            && r.value.finalWriteOffset == s.finalWriteOffset
            && r.value.currentWriteOffset == s.currentWriteOffset + f.len + (if f.fin then 1 else 0)
            && (InFlight(r.value, x) || Lost(r.value, x) <==> InFlight(s, x) || Lost(s, x) || FrameCarries(f, x))
  {
    NewDataShape(s, f);
    var r := HandleStreamWritten(s, f).0.value;
    AddToFlight(s, r.retransmissionBuffer[f.offset], r);
    assert Lost(r, x) == Lost(s, x);
  }

  lemma RetransmitKeeps(s: Stream, f: Frame, k: nat, m: Stream, x: int)
    requires StreamInv(s) && CutFromLoss(s, f, k) && HandleStreamWritten(s, f) == (Ok(m), Retransmission)
    ensures m.acked == s.acked && (InFlight(m, x) || Lost(m, x) <==> InFlight(s, x) || Lost(s, x))
  {
    RetransmitShape(s, f, k);
    RetransmitPositions(s, f, k, m);
  }

  lemma AddedInFlight(s: Stream, fs: seq<Frame>, r: Stream, x: int)
    requires RetxOk(s) && RetxOk(r) && Added(s, fs, r)
    ensures InFlight(r, x) <==> InFlight(s, x) || Carries(fs, x)
  {
    if InFlight(r, x) && !InFlight(s, x) {
      var k :| k in r.retransmissionBuffer && r.retransmissionBuffer[k].Covers(x);
      assert k !in s.retransmissionBuffer && k in Offsets(fs);
      var f :| f in fs && f.offset == k;
      MatchedCovers(r, f, x);
    }
    if InFlight(s, x) {
      var k :| k in s.retransmissionBuffer && s.retransmissionBuffer[k].Covers(x);
      assert r.retransmissionBuffer[k].Covers(x);
    }
    if f :| f in fs && FrameCarries(f, x) { MatchedCovers(r, f, x); }
  }

  // ------------------------------------------------------------------ what each step does

  ghost predicate PacketCarries(c: Conn, n: nat, x: int) { n in c.packets && Carries(c.packets[n].frames, x) }

  /** The step acknowledges position `x`: it names a live packet that carries it. */
  ghost predicate AcksNow(c: Conn, step: Step, x: int) {
    step.Ack? && Live(c, step.num) && PacketCarries(c, step.num, x)
  }

  ghost predicate LosesNow(c: Conn, step: Step, x: int) {
    step.Lose? && Live(c, step.num) && PacketCarries(c, step.num, x)
  }

  /** Bytes of the application that a step adds, and whether they are the last. */
  function Adds(step: Step): seq<bv8> { if step.Write? then step.data else [] }

  /** Every position is where the step put it: acknowledged for good, in flight once sent, lost until sent again. */
  ghost predicate MovesPosition(c: Conn, step: Step, r: Conn, x: int) {
    && (x in r.stream.acked <==> x in c.stream.acked || AcksNow(c, step, x))
    && (InFlight(r.stream, x) <==> SendsNow(c.stream, step, x) || (InFlight(c.stream, x) && !AcksNow(c, step, x) && !LosesNow(c, step, x)))
    && (Lost(r.stream, x) <==> LosesNow(c, step, x) || (Lost(c.stream, x) && !SendsNow(c.stream, step, x)))
  }

  /** The application's bytes and the end of the stream. */
  ghost predicate WritesBytes(c: Conn, step: Step, r: Conn) {
    && r.stream.app == c.stream.app + Adds(step)
    && r.stream.finalWriteOffset ==
         (if step.Write? && step.eof then Some(|c.stream.app| + |step.data|) else c.stream.finalWriteOffset)
  }

  /** A packet that was sent or cloned carries what was sent with it; the others stay, or leave. */
  ghost predicate MovesPackets(c: Conn, step: Step, r: Conn) {
    match step
    case Write(_, _) => r.packets == c.packets && r.nextPacketNum == c.nextPacketNum
    case Send(_, _) =>
      && r.nextPacketNum == c.nextPacketNum + 1 && c.nextPacketNum in r.packets
      && r.packets == c.packets[c.nextPacketNum := Packet(r.packets[c.nextPacketNum].frames, None, false)]
      && forall x :: Carries(r.packets[c.nextPacketNum].frames, x) <==> SendsNow(c.stream, step, x)
    case Clone(n) =>
      && n in c.packets && r.nextPacketNum == c.nextPacketNum + 1
      && r.packets == c.packets[n := c.packets[n].(cloneId := Some(Group(c, n)))]
                               [c.nextPacketNum := Packet(c.packets[n].frames, Some(Group(c, n)), false)]
    case Ack(n) => r.packets == c.packets - {n} && r.nextPacketNum == c.nextPacketNum
    case Lose(n) => n in c.packets && r.packets == c.packets[n := c.packets[n].(declaredLost := true)] && r.nextPacketNum == c.nextPacketNum
    case DropLost(n) => r.packets == c.packets - {n} && r.nextPacketNum == c.nextPacketNum
  }

  /** A packet can still be processed until it, or a clone of it, is acknowledged or lost. */
  ghost predicate EndsLives(c: Conn, step: Step, r: Conn) {
    forall m :: Live(r, m) <==>
      || (step.Send? && m == c.nextPacketNum)
      || (step.Clone? && m == c.nextPacketNum)
      || (Live(c, m) && !((step.Ack? || step.Lose?) && Live(c, step.num) && Group(c, m) == Group(c, step.num)))
  }

  lemma SendShape(c: Conn, step: Step) returns (r: Conn)
    requires ConnInv(c) && step.Send? && Enabled(c, step)
    ensures Next(c, step) == Ok(r) && WritesBytes(c, step, r) && |step.lossGrants| <= |c.stream.lossBuffer|
    ensures var fs := Scheduled(c.stream, step.lossGrants, step.newGrant);
            && WriteFrames(c.stream, fs) == Ok(r.stream) && StreamInv(r.stream) && Added(c.stream, fs, r.stream)
            && r.nextPacketNum == c.nextPacketNum + 1 && r.packets == c.packets[c.nextPacketNum := Packet(fs, None, false)]
  {
    SendFrames(c, step);
    hide ConnInv, StreamInv, WriteFrames, Scheduled, Added, Granted, NewGranted;
    assert c.stream.app + [] == c.stream.app;
    r := Next(c, step).value;
  }

  lemma SendMoves(c: Conn, step: Step)
    requires ConnInv(c) && step.Send? && Enabled(c, step)
    ensures var r := Next(c, step);
            r.Ok? && WritesBytes(c, step, r.value) && MovesPackets(c, step, r.value) && forall x :: MovesPosition(c, step, r.value, x)
  {
    hide ConnInv, StreamInv, WriteFrames, Scheduled, Added, Enabled, Next, SendsNow, Carries, InFlight, Lost, WritesBytes;
    var r := SendShape(c, step);
    var (s, fs) := (c.stream, Scheduled(c.stream, step.lossGrants, step.newGrant));
    forall x ensures MovesPosition(c, step, r, x) { SendMovesOne(c, step, fs, r.stream, x); }
    forall x ensures Carries(fs, x) <==> SendsNow(s, step, x) { ScheduledCarries(s, step, x); }
  }

  lemma SendFrames(c: Conn, step: Step)
    requires ConnInv(c) && step.Send? && Enabled(c, step)
    ensures |step.lossGrants| <= |c.stream.lossBuffer|
    ensures var fs := Scheduled(c.stream, step.lossGrants, step.newGrant);
            var r := WriteFrames(c.stream, fs);
            && r.Ok? && StreamInv(r.value) && Added(c.stream, fs, r.value) && r.value.acked == c.stream.acked
            && r.value.app == c.stream.app && r.value.finalWriteOffset == c.stream.finalWriteOffset
  {
    var s := c.stream;
    var tail := if step.newGrant.Some? then [NewFrame(s, step.newGrant.value)] else [];
    assert s.lossBuffer == s.lossBuffer[|s.lossBuffer| - |s.lossBuffer|..];
    assert tail != [] ==> CutFromPending(s, tail[0]);
    hide StreamInv, WriteFrames, Added, LossFrames, NewFrame, CutFromPending, InFlight, Lost, Carries;
    WriteScheduled(s, s.lossBuffer, step.lossGrants, tail);
    ScheduledUnion(s, s.lossBuffer, step.lossGrants, tail, 0);
  }

  lemma SendMovesOne(c: Conn, step: Step, fs: seq<Frame>, t: Stream, x: int)
    requires ConnInv(c) && step.Send? && Enabled(c, step) && fs == Scheduled(c.stream, step.lossGrants, step.newGrant)
    requires WriteFrames(c.stream, fs) == Ok(t) && StreamInv(t) && Added(c.stream, fs, t)
    ensures InFlight(t, x) <==> InFlight(c.stream, x) || SendsNow(c.stream, step, x)
    ensures Lost(t, x) <==> Lost(c.stream, x) && !SendsNow(c.stream, step, x)
    ensures t.acked == c.stream.acked
  {
    var s := c.stream;
    var tail := if step.newGrant.Some? then [NewFrame(s, step.newGrant.value)] else [];
    assert s.lossBuffer == s.lossBuffer[|s.lossBuffer| - |s.lossBuffer|..];
    assert tail != [] ==> CutFromPending(s, tail[0]);
    assert RetxOk(s) && RetxOk(t);
    AddedInFlight(s, fs, t, x);
    ScheduledUnion(s, s.lossBuffer, step.lossGrants, tail, x);
    ScheduledCarries(s, step, x);
    NotBoth(s, x);
    NotBoth(t, x);
    TailCarries(fs, tail, x);
  }

  lemma TailCarries(fs: seq<Frame>, tail: seq<Frame>, x: int)
    requires forall f :: f in tail ==> f in fs
    ensures Carries(tail, x) ==> Carries(fs, x)
  {
  }

  lemma AckShape(c: Conn, n: nat) returns (r: Conn)
    requires ConnInv(c) && Enabled(c, Ack(n))
    ensures Next(c, Ack(n)) == Ok(r) && r.packets == c.packets - {n} && r.nextPacketNum == c.nextPacketNum
    ensures if Live(c, n) then AckFrames(c.stream, c.packets[n].frames) == Ok(r.stream) else r.stream == c.stream
  {
    StepInv(c, Ack(n));
    hide ConnInv, AckFrames, Live;
    r := Next(c, Ack(n)).value;
    CountedOut(c, n);
  }

  lemma AckMoves(c: Conn, n: nat)
    requires ConnInv(c) && Enabled(c, Ack(n))
    ensures var r := Next(c, Ack(n));
            r.Ok? && WritesBytes(c, Ack(n), r.value) && MovesPackets(c, Ack(n), r.value) && forall x :: MovesPosition(c, Ack(n), r.value, x)
  {
    var r := AckShape(c, n);
    assert c.stream.app + [] == c.stream.app;
    assert StreamInv(c.stream);
    if Live(c, n) { LiveFrames(c, n); }
    hide StreamInv, AckFrames, InFlight, Lost, Carries, ConnInv, Next, Enabled, Live, AllMatch, Distinct;
    AckFramesEffectAt(c, n, 0);
    forall x ensures MovesPosition(c, Ack(n), r, x) {
      AckFramesEffectAt(c, n, x);
      SameLost(c.stream, r.stream, x);
    }
  }

  lemma AckFramesEffectAt(c: Conn, n: nat, x: int)
    requires StreamInv(c.stream) && n in c.packets
    requires Live(c, n) ==> AllMatch(c.stream, c.packets[n].frames) && Distinct(c.packets[n].frames)
    ensures Live(c, n) ==>
              var (fs, r) := (c.packets[n].frames, AckFrames(c.stream, c.packets[n].frames));
              && r.Ok? && SameRest(c.stream, r.value) && r.value.lossBuffer == c.stream.lossBuffer
              && (x in r.value.acked <==> x in c.stream.acked || Carries(fs, x))
              && (InFlight(r.value, x) <==> InFlight(c.stream, x) && !Carries(fs, x))
  {
    hide StreamInv, AckFrames, InFlight, Carries, Live, AllMatch, Distinct;
    if Live(c, n) { AckFramesEffect(c.stream, c.packets[n].frames, x); }
  }

  lemma SameLost(s: Stream, r: Stream, x: int)
    ensures r.lossBuffer == s.lossBuffer ==> Lost(r, x) == Lost(s, x)
  {
  }

  lemma LoseShape(c: Conn, n: nat) returns (r: Conn)
    requires ConnInv(c) && Enabled(c, Lose(n))
    ensures Next(c, Lose(n)) == Ok(r) && r.nextPacketNum == c.nextPacketNum
    ensures n in c.packets && r.packets == c.packets[n := c.packets[n].(declaredLost := true)]
    ensures r.stream == if Live(c, n) then LoseFrames(c.stream, c.packets[n].frames) else c.stream
  {
    StepInv(c, Lose(n));
    hide ConnInv, LoseFrames, Live;
    r := Next(c, Lose(n)).value;
    CountedOut(c, n);
  }

  lemma LoseMoves(c: Conn, n: nat)
    requires ConnInv(c) && Enabled(c, Lose(n))
    ensures var r := Next(c, Lose(n));
            r.Ok? && WritesBytes(c, Lose(n), r.value) && MovesPackets(c, Lose(n), r.value) && forall x :: MovesPosition(c, Lose(n), r.value, x)
  {
    var r := LoseShape(c, n);
    assert c.stream.app + [] == c.stream.app;
    assert StreamInv(c.stream);
    if Live(c, n) { LiveFrames(c, n); }
    hide StreamInv, LoseFrames, InFlight, Lost, Carries, ConnInv, Next, Enabled, Live, AllMatch, Distinct;
    if Live(c, n) { LoseFramesEffect(c.stream, c.packets[n].frames, 0); }
    forall x ensures MovesPosition(c, Lose(n), r, x) {
      if Live(c, n) { LoseFramesEffect(c.stream, c.packets[n].frames, x); }
    }
  }

  lemma OtherMoves(c: Conn, step: Step)
    requires ConnInv(c) && Enabled(c, step) && (step.Write? || step.Clone? || step.DropLost?)
    ensures var r := Next(c, step);
            r.Ok? && WritesBytes(c, step, r.value) && MovesPackets(c, step, r.value) && forall x :: MovesPosition(c, step, r.value, x)
  {
    hide StreamInv, ConnInv, Next, Enabled, InFlight, Lost, MovesPackets;
    var r := OtherShape(c, step);
    assert c.stream.app + [] == c.stream.app;
    forall x ensures MovesPosition(c, step, r, x) { SameBuffers(c.stream, r.stream, x); }
  }

  lemma OtherShape(c: Conn, step: Step) returns (r: Conn)
    requires ConnInv(c) && Enabled(c, step) && (step.Write? || step.Clone? || step.DropLost?)
    ensures Next(c, step) == Ok(r) && MovesPackets(c, step, r) && r.stream.acked == c.stream.acked
    ensures r.stream.retransmissionBuffer == c.stream.retransmissionBuffer && r.stream.lossBuffer == c.stream.lossBuffer
    ensures r.stream.app == (if step.Write? then c.stream.app + step.data else c.stream.app)
    ensures r.stream.finalWriteOffset ==
              (if step.Write? && step.eof then Some(|c.stream.app| + |step.data|) else c.stream.finalWriteOffset)
  {
    StepInv(c, step);
    if step.Clone? {
      r := CloneShape(c, step.num);
      hide ConnInv, ClonePacket;
    } else {
      assert PendingOk(c.stream);
      hide ConnInv;
      r := Next(c, step).value;
    }
  }

  lemma SameBuffers(s: Stream, r: Stream, x: int)
    requires r.retransmissionBuffer == s.retransmissionBuffer && r.lossBuffer == s.lossBuffer
    ensures InFlight(r, x) == InFlight(s, x) && Lost(r, x) == Lost(s, x)
  {
  }

  /** What a step does to the application's bytes, to the packets, and to every position of the stream. */
  lemma StepMoves(c: Conn, step: Step)
    requires ConnInv(c) && Enabled(c, step)
    ensures var r := Next(c, step);
            && r.Ok? && WritesBytes(c, step, r.value) && MovesPackets(c, step, r.value)
            && forall x :: MovesPosition(c, step, r.value, x)
  {
    hide ConnInv, Enabled, Next, WritesBytes, MovesPackets, MovesPosition;
    match step
    case Send(_, _) => SendMoves(c, step);
    case Ack(n) => AckMoves(c, n);
    case Lose(n) => LoseMoves(c, n);
    case _ => OtherMoves(c, step);
  }

  /** A packet stays live until it or a packet cloned from the same one is acknowledged or lost. */
  lemma LivesEnd(c: Conn, step: Step)
    requires ConnInv(c) && Enabled(c, step)
    ensures Next(c, step).Ok? && EndsLives(c, step, Next(c, step).value)
  {
    hide EndsLives, ConnInv, Next, Enabled;
    match step
    case Ack(n) => AckLives(c, n);
    case Lose(n) => LoseLives(c, n);
    case Send(_, _) => SendLives(c, step);
    case _ => OtherLives(c, step);
  }

  lemma AckLives(c: Conn, n: nat)
    requires ConnInv(c) && Enabled(c, Ack(n))
    ensures Next(c, Ack(n)).Ok? && EndsLives(c, Ack(n), Next(c, Ack(n)).value)
  {
    StepInv(c, Ack(n));
    assert IdsOk(c);
    hide ConnInv, EndsLives, IdsOk, AckFrames, Live;
    CountedOut(c, n);
    GoneLives(c, n, Next(c, Ack(n)).value, Ack(n));
  }

  lemma LoseLives(c: Conn, n: nat)
    requires ConnInv(c) && Enabled(c, Lose(n))
    ensures Next(c, Lose(n)).Ok? && EndsLives(c, Lose(n), Next(c, Lose(n)).value)
  {
    StepInv(c, Lose(n));
    assert IdsOk(c);
    hide ConnInv, EndsLives, IdsOk, LoseFrames, Live;
    CountedOut(c, n);
    GoneLives(c, n, Next(c, Lose(n)).value, Lose(n));
  }

  lemma SendLives(c: Conn, step: Step)
    requires ConnInv(c) && step.Send? && Enabled(c, step)
    ensures Next(c, step).Ok? && EndsLives(c, step, Next(c, step).value)
  {
    SendFrames(c, step);
    hide ConnInv, WriteFrames, Scheduled, Added, Granted, NewGranted, Live, IdsOk;
    SendIds(c, Scheduled(c.stream, step.lossGrants, step.newGrant), Next(c, step).value);
    Numbered(c);
  }

  lemma Numbered(c: Conn)
    requires ConnInv(c)
    ensures forall n :: n in c.packets ==> n < c.nextPacketNum
    ensures !Live(c, c.nextPacketNum)
  {
    hide StreamInv, LiveMatch, GroupsOk, NoOrphans, CountsOk;
  }

  lemma OtherLives(c: Conn, step: Step)
    requires ConnInv(c) && Enabled(c, step) && (step.Write? || step.Clone? || step.DropLost?)
    ensures Next(c, step).Ok? && EndsLives(c, step, Next(c, step).value)
  {
    hide EndsLives, ConnInv;
    match step
    case Clone(n) => CloneLives(c, n);
    case DropLost(n) => DropLives(c, n);
    case Write(data, eof) => WriteLives(c, data, eof);
  }

  lemma CloneLives(c: Conn, n: nat)
    requires ConnInv(c) && Live(c, n)
    ensures ClonePacket(c, n).Ok? && EndsLives(c, Clone(n), ClonePacket(c, n).value)
  {
    var r := CloneShape(c, n);
    assert IdsOk(c);
    hide ConnInv, ClonePacket, ClonedTo, IdsOk, Live;
    CloneLive(c, n, r);
  }

  lemma DropLives(c: Conn, n: nat)
    requires ConnInv(c) && Enabled(c, DropLost(n))
    ensures DropLostPacket(c, n).Ok? && EndsLives(c, DropLost(n), DropLostPacket(c, n).value)
  {
    assert CountsOk(c);
    hide ConnInv, CountsOk, Live;
    DropSets(c, n);
  }

  lemma WriteLives(c: Conn, data: seq<bv8>, eof: bool)
    ensures EndsLives(c, Write(data, eof), c.(stream := AppWrite(c.stream, data, eof)))
  {
    hide Live;
    SameSets(c, c.(stream := AppWrite(c.stream, data, eof)));
  }

  lemma GoneLives(c: Conn, n: nat, r: Conn, step: Step)
    requires IdsOk(c) && (step == Ack(n) || step == Lose(n)) && n in c.packets && !c.packets[n].declaredLost
    requires r.cloneIds == EraseId(c, n) && r.nextPacketNum == c.nextPacketNum
    requires r.packets == c.packets - {n} || r.packets == c.packets[n := c.packets[n].(declaredLost := true)]
    ensures EndsLives(c, step, r)
  {
    GoneLive(c, n, r);
    hide Live, IdsOk;
  }

  // ------------------------------------------------------------------ runs and the states in them

  /** The states of a run, from the fresh connection on. */
  ghost predicate Trace(steps: seq<Step>, states: seq<Conn>) {
    && |states| == |steps| + 1 && states[0] == INITIAL_CONN
    && forall k :: 0 <= k < |steps| ==> TakenAt(steps, states, k)
  }

  ghost predicate TakenAt(steps: seq<Step>, states: seq<Conn>, k: nat)
    requires k < |steps| < |states|
  {
    Enabled(states[k], steps[k]) && Next(states[k], steps[k]) == Ok(states[k + 1])
  }

  /** Every reachable state ends a trace. */
  lemma {:induction false} ReachedByTrace(steps: seq<Step>, c: Conn) returns (states: seq<Conn>)
    requires Reaches(steps, c)
    ensures Trace(steps, states) && states[|steps|] == c
    decreases |steps|
  {
    hide Enabled, Next;
    if steps == [] {
      states := [c];
    } else {
      var n := |steps| - 1;
      var b: Conn :| Reaches(steps[..n], b) && Enabled(b, steps[n]) && Next(b, steps[n]) == Ok(c);
      var before := ReachedByTrace(steps[..n], b);
      states := before + [c];
      forall k | 0 <= k < |steps| ensures TakenAt(steps, states, k) {
        if k < n { assert TakenAt(steps[..n], before, k) && steps[..n][k] == steps[k]; }
      }
    }
  }

  lemma {:induction false} TraceInv(steps: seq<Step>, states: seq<Conn>, k: nat)
    requires Trace(steps, states) && k < |states|
    ensures ConnInv(states[k])
    decreases k
  {
    hide ConnInv, Enabled, Next;
    if k == 0 {
      InitialInv();
    } else {
      TraceInv(steps, states, k - 1);
      assert TakenAt(steps, states, k - 1);
      StepInv(states[k - 1], steps[k - 1]);
    }
  }

  /** The bytes of all writes, in order. */
  function AllWritten(steps: seq<Step>): seq<bv8> {
    if steps == [] then [] else AllWritten(steps[..|steps| - 1]) + Adds(steps[|steps| - 1])
  }

  /** Whether the last write was the end. */
  predicate LastWriteEnds(steps: seq<Step>) {
    steps != [] && (if steps[|steps| - 1].Write? then steps[|steps| - 1].eof else LastWriteEnds(steps[..|steps| - 1]))
  }

  /** The stream is exactly what the application wrote, and has an end exactly when its last write said so. */
  lemma {:induction false} RunKeepsWrites(steps: seq<Step>, c: Conn)
    requires Reaches(steps, c)
    ensures c.stream.app == AllWritten(steps)
    ensures c.stream.finalWriteOffset == if LastWriteEnds(steps) then Some(|AllWritten(steps)|) else None
    decreases |steps|
  {
    hide ConnInv, Enabled, Next, MovesPackets, MovesPosition;
    if steps != [] {
      var (before, last) := (steps[..|steps| - 1], steps[|steps| - 1]);
      var b: Conn :| Reaches(before, b) && Enabled(b, last) && Next(b, last) == Ok(c);
      RunKeepsWrites(before, b);
      EveryRunKeepsBytes(before, b);
      StepMoves(b, last);
      if last.Write? { WritesOnlyOpen(b, last); }
      hide Reaches;
    }
  }

  lemma WritesOnlyOpen(c: Conn, step: Step)
    requires Enabled(c, step) && step.Write?
    ensures c.stream.finalWriteOffset.None?
  {
  }

  /** A position is acknowledged exactly when some step acknowledged a live packet that carried it. */
  lemma {:induction false} AckedExactly(steps: seq<Step>, states: seq<Conn>, k: nat, x: int)
    requires Trace(steps, states) && k < |states|
    ensures x in states[k].stream.acked <==> exists j :: 0 <= j < k && AcksNow(states[j], steps[j], x)
    decreases k
  {
    hide ConnInv, Enabled, Next, AcksNow, LosesNow, SendsNow, WritesBytes, MovesPackets, InFlight, Lost;
    if k > 0 {
      AckedExactly(steps, states, k - 1, x);
      Moved(steps, states, k - 1, x);
    }
  }

  lemma Moved(steps: seq<Step>, states: seq<Conn>, k: nat, x: int)
    requires Trace(steps, states) && k < |steps|
    ensures MovesPosition(states[k], steps[k], states[k + 1], x)
  {
    hide ConnInv, Enabled, Next, MovesPosition, WritesBytes, MovesPackets;
    assert TakenAt(steps, states, k);
    TraceInv(steps, states, k);
    StepMoves(states[k], steps[k]);
  }

  ghost predicate SettlesNow(c: Conn, step: Step, x: int) { AcksNow(c, step, x) || LosesNow(c, step, x) }

  /** Step `j` sent position `x`, and no step from there to `k` acknowledged or lost a live packet with it. */
  ghost predicate SentBefore(steps: seq<Step>, states: seq<Conn>, j: nat, k: nat, x: int)
    requires j < k <= |steps| < |states|
  {
    SendsNow(states[j].stream, steps[j], x) && forall i :: j < i < k ==> !SettlesNow(states[i], steps[i], x)
  }

  /** Step `j` lost a live packet with position `x`, and no step from there to `k` sent it again. */
  ghost predicate LostBefore(steps: seq<Step>, states: seq<Conn>, j: nat, k: nat, x: int)
    requires j < k <= |steps| < |states|
  {
    LosesNow(states[j], steps[j], x) && forall i :: j < i < k ==> !SendsNow(states[i].stream, steps[i], x)
  }

  /** A position is in flight exactly when some step sent it and no later one acknowledged or lost a live packet with it. */
  lemma {:induction false} InFlightExactly(steps: seq<Step>, states: seq<Conn>, k: nat, x: int)
    requires Trace(steps, states) && k < |states|
    ensures InFlight(states[k].stream, x) <==> exists j :: 0 <= j < k && SentBefore(steps, states, j, k, x)
    decreases k
  {
    hide ConnInv, Enabled, Next, AcksNow, LosesNow, SendsNow, InFlight, Lost;
    if k == 0 {
      NothingHeld(x);
    } else {
      InFlightExactly(steps, states, k - 1, x);
      Moved(steps, states, k - 1, x);
      var p := k - 1;
      if j :| 0 <= j < p && SentBefore(steps, states, j, p, x) && !SettlesNow(states[p], steps[p], x) {
        assert SentBefore(steps, states, j, k, x);
      }
      if j :| 0 <= j < p && SentBefore(steps, states, j, k, x) {
        assert SentBefore(steps, states, j, p, x);
      }
      assert SendsNow(states[k - 1].stream, steps[k - 1], x) ==> SentBefore(steps, states, k - 1, k, x);
    }
  }

  lemma NothingHeld(x: int)
    ensures !InFlight(INITIAL_CONN.stream, x) && !Lost(INITIAL_CONN.stream, x)
  {
  }

  /** A position is lost exactly when some step lost a live packet with it and no later one sent it again. */
  lemma {:induction false} LostExactly(steps: seq<Step>, states: seq<Conn>, k: nat, x: int)
    requires Trace(steps, states) && k < |states|
    ensures Lost(states[k].stream, x) <==> exists j :: 0 <= j < k && LostBefore(steps, states, j, k, x)
    decreases k
  {
    hide ConnInv, Enabled, Next, AcksNow, LosesNow, SendsNow, InFlight, Lost;
    if k == 0 {
      NothingHeld(x);
    } else {
      LostExactly(steps, states, k - 1, x);
      Moved(steps, states, k - 1, x);
      var p := k - 1;
      if j :| 0 <= j < p && LostBefore(steps, states, j, p, x) && !SendsNow(states[p].stream, steps[p], x) {
        assert LostBefore(steps, states, j, k, x);
      }
      if j :| 0 <= j < p && LostBefore(steps, states, j, k, x) {
        assert LostBefore(steps, states, j, p, x);
      }
      assert LosesNow(states[k - 1], steps[k - 1], x) ==> LostBefore(steps, states, k - 1, k, x);
    }
  }

  /** A stream reports all bytes acknowledged exactly when it has an end and every position with the FIN is acknowledged. */
  lemma ClosedExactly(steps: seq<Step>, c: Conn)
    requires Reaches(steps, c)
    ensures AllBytesTillFinAcked(c.stream) <==> LastWriteEnds(steps) && forall x :: 0 <= x <= |AllWritten(steps)| ==> x in c.stream.acked
  {
    hide Reaches;
    EveryRunKeepsBytes(steps, c);
    RunKeepsWrites(steps, c);
    hide AllWritten, LastWriteEnds;
    AllAckedMeansClosed(c.stream);
  }

  lemma AllAckedMeansClosed(s: Stream)
    requires StreamInv(s) && AckedReleased(s)
    ensures AllBytesTillFinAcked(s) <==> s.finalWriteOffset.Some? && forall x :: 0 <= x <= |s.app| ==> x in s.acked
  {
    if AllBytesTillFinAcked(s) {
      ClosedMeansDelivered(s);
    } else if s.finalWriteOffset.Some? && forall x :: 0 <= x <= |s.app| ==> x in s.acked {
      assert |s.app| in s.acked;
      forall k | k in s.retransmissionBuffer ensures false {
        assert BufOk(s, s.retransmissionBuffer[k]) && s.retransmissionBuffer[k].Covers(k) && InFlight(s, k);
      }
      if s.lossBuffer != [] {
        assert BufOk(s, s.lossBuffer[0]) && s.lossBuffer[0].Covers(s.lossBuffer[0].offset) && Lost(s, s.lossBuffer[0].offset);
      }
    }
  }
}
