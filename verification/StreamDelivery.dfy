/**
 No reachable state of the send side is stuck: from each of them the stream can still be delivered whole, by ending it,
 sending everything that is lost or pending, and having every live packet acknowledged
 (quic/api/QuicTransportFunctions.cpp, quic/state/stream/StreamSendHandlers.cpp).
 */
module StreamDelivery {
  import opened Prelude
  import opened SendBuffers
  import opened SendBufferProofs
  import opened StreamSend
  import opened StreamSendProofs
  import opened StreamHistory

  lemma OneMore(steps: seq<Step>, c: Conn, step: Step, r: Conn)
    requires Reaches(steps, c) && Enabled(c, step) && Next(c, step) == Ok(r)
    ensures Reaches(steps + [step], r)
  {
    hide Enabled, Next;
    var all := steps + [step];
    assert all[..|all| - 1] == steps && all[|all| - 1] == step;
  }

  // ------------------------------------------------------------------ everything lost or pending is sent

  /** The whole of every loss entry, and the whole of what is pending with the FIN. */
  function SendEverything(s: Stream): (step: Step)
    ensures step.Send?
  {
    Send(seq(|s.lossBuffer|, i requires 0 <= i < |s.lossBuffer| => |s.lossBuffer[i].data|),
         if s.currentWriteOffset <= |s.app| then Some(|s.pendingWrites|) else None)
  }

  lemma CanSendEverything(c: Conn)
    requires ConnInv(c) && c.stream.finalWriteOffset.Some?
    ensures Enabled(c, SendEverything(c.stream))
  {
    var s := c.stream;
    forall i | 0 <= i < |s.lossBuffer| ensures !s.lossBuffer[i].Husk() { assert BufOk(s, s.lossBuffer[i]); }
  }

  lemma SendsLostAndPending(s: Stream, x: int)
    requires StreamInv(s) && s.finalWriteOffset.Some?
    ensures Lost(s, x) || (s.currentWriteOffset <= x <= |s.app|) ==> SendsNow(s, SendEverything(s), x)
  {
    if i :| 0 <= i < |s.lossBuffer| && s.lossBuffer[i].Covers(x) {
      assert EntrySends(s.lossBuffer[i], SendEverything(s).lossGrants[i], x);
    }
  }

  /** A position that is acknowledged, in flight or lost was sent. */
  lemma HeldWasSent(s: Stream, x: int)
    requires StreamInv(s) && (x in s.acked || InFlight(s, x) || Lost(s, x))
    ensures x < s.currentWriteOffset
  {
    if k :| k in s.retransmissionBuffer && s.retransmissionBuffer[k].Covers(x) { assert BufOk(s, s.retransmissionBuffer[k]); }
    if i :| 0 <= i < |s.lossBuffer| && s.lossBuffer[i].Covers(x) { assert BufOk(s, s.lossBuffer[i]); }
  }

  /** Nothing is lost and nothing pends. */
  predicate AllSent(s: Stream) {
    s.finalWriteOffset.Some? && s.currentWriteOffset > s.finalWriteOffset.value && s.pendingWrites == [] && s.lossBuffer == []
  }

  lemma AllSentFrom(s: Stream)
    requires StreamInv(s) && s.finalWriteOffset.Some? && (forall x :: !Lost(s, x))
    requires |s.app| in s.acked || InFlight(s, |s.app|)
    ensures AllSent(s)
  {
    HeldWasSent(s, |s.app|);
    if s.lossBuffer != [] { FirstIsLost(s); }
  }

  lemma FirstIsLost(s: Stream)
    requires LossOk(s) && s.lossBuffer != []
    ensures Lost(s, s.lossBuffer[0].offset)
  {
    assert BufOk(s, s.lossBuffer[0]) && s.lossBuffer[0].Covers(s.lossBuffer[0].offset);
  }

  lemma EverythingSent(c: Conn) returns (r: Conn)
    requires ConnInv(c) && c.stream.finalWriteOffset.Some?
    ensures Enabled(c, SendEverything(c.stream)) && Next(c, SendEverything(c.stream)) == Ok(r)
    ensures AllSent(r.stream)
  {
    var (s, step) := (c.stream, SendEverything(c.stream));
    CanSendEverything(c);
    StepInv(c, step);
    StepMoves(c, step);
    assert StreamInv(s) && PendingOk(s);
    r := Next(c, step).value;
    assert StreamInv(r.stream);
    assert r.stream.app == s.app && r.stream.finalWriteOffset == s.finalWriteOffset;
    assert Covered(s);
    hide ConnInv, Enabled, Next, StreamInv, MovesPackets, SendsNow, InFlight, Lost, SendEverything;
    var end := |s.app|;
    assert MovesPosition(c, step, r, end);
    SendsLostAndPending(s, end);
    forall x ensures !Lost(r.stream, x) {
      assert MovesPosition(c, step, r, x);
      SendsLostAndPending(s, x);
    }
    AllSentFrom(r.stream);
  }

  // ------------------------------------------------------------------ every live packet is acknowledged

  lemma AckCounts(c: Conn, n: nat) returns (r: Conn)
    requires ConnInv(c) && Live(c, n)
    ensures Enabled(c, Ack(n)) && Next(c, Ack(n)) == Ok(r)
    ensures r.packetCount == c.packetCount - 1 && SameRest(c.stream, r.stream) && r.stream.lossBuffer == c.stream.lossBuffer
  {
    assert StreamInv(c.stream);
    r := AckShape(c, n);
    LiveFrames(c, n);
    hide ConnInv, StreamInv, AckFrames;
    AckFramesEffectAt(c, n, 0);
  }

  lemma SomePacketLive(c: Conn)
    requires ConnInv(c)
    ensures c.packetCount == 0 ==> c.stream.retransmissionBuffer == map[]
    ensures c.packetCount > 0 ==> exists n :: Live(c, n)
  {
    hide StreamInv, IdsOk, LiveMatch, GroupsOk, Cloned, DeclaredLost;
    if c.packetCount == 0 {
      forall k | k in c.stream.retransmissionBuffer ensures LiveGroups(c) != {} { OwnerIsLive(c, k); }
    } else {
      assert LiveGroups(c) != {};
      var g :| g in LiveGroups(c);
    }
  }

  lemma OwnerIsLive(c: Conn, k: nat)
    requires Owned(c, k)
    ensures LiveGroups(c) != {}
  {
    var n :| Live(c, n) && k in Offsets(c.packets[n].frames);
    assert Group(c, n) in LiveGroups(c);
  }

  lemma {:induction false} AcknowledgeAll(steps: seq<Step>, c: Conn) returns (more: seq<Step>, r: Conn)
    requires Reaches(steps, c) && AllSent(c.stream)
    ensures Reaches(steps + more, r) && AllBytesTillFinAcked(r.stream) && r.stream.app == c.stream.app
    decreases c.packetCount
  {
    hide Reaches, ConnInv, Enabled, Next, Live;
    EveryRunKeepsBytes(steps, c);
    SomePacketLive(c);
    if c.packetCount == 0 {
      more, r := [], c;
      assert steps + [] == steps;
    } else {
      var n :| Live(c, n);
      var b := AckCounts(c, n);
      OneMore(steps, c, Ack(n), b);
      var rest, e := AcknowledgeAll(steps + [Ack(n)], b);
      more, r := [Ack(n)] + rest, e;
      assert steps + more == steps + [Ack(n)] + rest;
    }
  }

  // ------------------------------------------------------------------ delivery

  lemma EndedFirst(steps: seq<Step>, c: Conn) returns (more: seq<Step>, r: Conn)
    requires Reaches(steps, c)
    ensures Reaches(steps + more, r) && r.stream.finalWriteOffset.Some? && r.stream.app == c.stream.app
  {
    if c.stream.finalWriteOffset.Some? {
      more, r := [], c;
      assert steps + [] == steps;
    } else {
      more := [Write([], true)];
      r := Next(c, more[0]).value;
      assert c.stream.app + [] == c.stream.app;
      OneMore(steps, c, more[0], r);
    }
  }

  /**
   From every reachable state some steps lead to a state in which all bytes written so far and the FIN are acknowledged
   and the send state becomes Closed.
   */
  lemma CanAlwaysDeliver(steps: seq<Step>, c: Conn) returns (more: seq<Step>, r: Conn)
    requires Reaches(steps, c)
    ensures Reaches(steps + more, r) && AllBytesTillFinAcked(r.stream)
    ensures r.stream.app == c.stream.app && forall x :: 0 <= x <= |c.stream.app| ==> x in r.stream.acked
  {
    hide Reaches, ConnInv, Enabled, Next, AllSent, MovesPackets, MovesPosition;
    var first, a := EndedFirst(steps, c);
    EveryRunKeepsBytes(steps + first, a);
    var b := EverythingSent(a);
    var step := SendEverything(a.stream);
    StepMoves(a, step);
    assert a.stream.app + [] == a.stream.app;
    OneMore(steps + first, a, step, b);
    var rest, e := AcknowledgeAll(steps + first + [step], b);
    more, r := first + [step] + rest, e;
    assert steps + more == steps + first + [step] + rest;
    ClosedStreamWasDelivered(steps + more, r);
  }
}
