/**
 When `maybeVerifyPendingKeyUpdate` raises its error, and runs of two honest
 endpoints in which an endpoint is left behind or a verification error is raised.
 */
module KeyUpdateErrors {
  import opened Prelude
  import opened KeyUpdate
  import opened KeyUpdateProofs

  // ------------------------------------------------------------------ the error, exactly

  /** The acknowledgements are rejected when one of them reaches the awaited packet in another phase. */
  lemma {:induction false} VerifyAcksExact(e: Endpoint, acked: seq<nat>, ackPhase: nat)
    ensures VerifyAcks(e, acked, ackPhase).WrongPhase? <==> ReachesAwaited(e, acked) && ackPhase != e.writePhase
    decreases |acked|
  {
    if acked != [] {
      var e1 := e.(verificationNum := None, pendingVerification := false);
      VerifyAcksExact(e, acked[1..], ackPhase);
      VerifyAcksExact(e1, acked[1..], ackPhase);
      assert acked[0] in acked && forall n :: n in acked <==> n == acked[0] || n in acked[1..];
    }
  }

  /** Whatever an honest peer acknowledges was protected with keys no newer than those of the acknowledging packet. */
  lemma PeerNeverAcksWithOldKeys(steps: seq<Step>, s: Sys, p: Pkt, n: nat)
    requires Reaches(steps, s) && p in s.sentB && n in p.acks
    ensures exists q :: q in s.sentA && q.num == n && q.epoch <= p.epoch
  {
    EveryRun(steps, s);
  }

  /**
   The error of section 6.2 of RFC 9001 is meant for a peer that acknowledges with old keys, which an
   honest peer never does. The code raises it between honest endpoints exactly when an awaited packet
   is acknowledged in a packet that itself starts a further update, or in a late packet of the
   previous phase while nothing has been sent since answering an update of the peer.
   */
  lemma ErrorExactly(steps: seq<Step>, s: Sys, p: Pkt, acked: seq<nat>)
    requires Reaches(steps, s) && Enabled(s, AtA(Deliver(p, acked))) && Opens(s.a, p)
    ensures Do(s, AtA(Deliver(p, acked))).ClosedByError? <==>
              && s.a.verificationNum.Some?
              && (exists n :: n in acked && n >= s.a.verificationNum.value)
              && (p.epoch == s.a.writeCipher + 1 || (p.epoch == s.a.writeCipher - 1 && s.a.sentInPhase == 0))
  {
    EveryRun(steps, s);
    CipherChoice(s, p);
    DeliverInv(s, p, acked);
    var e := Opened(s.a, p);
    VerifyAcksExact(e, acked, p.Phase());
    PhaseTells(s, p);
    if s.a.verificationNum.Some? && p.epoch == s.a.writeCipher - 1 && s.a.sentInPhase > 0 {
      forall n | n in acked ensures n < s.a.verificationNum.value { OldAcksAreOld(s, p, n); }
    }
  }

  /** Of a packet that can be opened, the phase bit tells whether it is of the write epoch. */
  lemma PhaseTells(s: Sys, p: Pkt)
    requires Inv(s) && p in s.sentB && Opens(s.a, p)
    ensures p.Phase() == s.a.writePhase <==> p.epoch == s.a.writeCipher
    ensures Opened(s.a, p).writePhase == s.a.writePhase && Opened(s.a, p).verificationNum == s.a.verificationNum
  {
    CipherChoice(s, p);
  }

  lemma OldAcksAreOld(s: Sys, p: Pkt, n: nat)
    requires Inv(s) && p in s.sentB && n in p.acks && p.epoch < s.a.writeCipher
    requires s.a.verificationNum.Some? && s.a.sentInPhase > 0
    ensures n < s.a.verificationNum.value
  {
    var q :| q in s.sentA && q.num == n && q.epoch <= p.epoch;
  }

  // ------------------------------------------------------------------ runs

  ghost predicate Reachable(s: Sys) { exists steps :: Reaches(steps, s) }

  lemma Extend(r: Sys, last: Step, s: Sys)
    requires Reachable(r) && Enabled(r, last) && Do(r, last) == Next(s)
    ensures Reachable(s)
  {
    var steps :| Reaches(steps, r);
    var all := steps + [last];
    assert all[..|all| - 1] == steps && all[|all| - 1] == last;
    assert Reaches(all, s);
  }

  const EAGER := Settings(true, 0, false)

  const FIRST_OF_A := Pkt(0, 0, [])
  const SECOND_OF_A := Pkt(1, 1, [])
  const FIRST_OF_B := Pkt(0, 1, [])
  const ACK_OF_B := Pkt(1, 2, [1])

  // A sends, updates and sends again; B answers the update, sends, updates again and sends an
  // acknowledgement. The endpoints after each step:
  const UNUSED := Fresh(None)
  const A_SENT := Endpoint(0, None, 0, Some(1), Some(0), 0, 0, 1, false, None, None, 2, 1, 1, {})
  const A_UPDATED := Endpoint(1, Some(0), 1, Some(2), None, 1, 1, 0, true, None, None, 3, 2, 1, {})
  const A_SENT_AGAIN := A_UPDATED.(sentInPhase := 1, verificationNum := Some(1), nextPacketNum := 2)
  const A_RECEIVED := A_SENT_AGAIN.(readPhaseStart := Some(0), received := {0})
  const B_ANSWERED := Endpoint(1, Some(0), 1, Some(2), Some(1), 1, 1, 0, false, None, None, 3, 2, 0, {1})
  const B_SENT := B_ANSWERED.(sentInPhase := 1, nextPacketNum := 1)
  const B_UPDATED := Endpoint(0, Some(1), 2, Some(3), None, 0, 2, 0, true, None, None, 4, 3, 1, {1})
  const B_ACKED := B_UPDATED.(sentInPhase := 1, verificationNum := Some(1), nextPacketNum := 2)

  lemma FirstSend()
    ensures Reachable(Sys(A_SENT, UNUSED, {FIRST_OF_A}, {}))
  {
    var s := Sys(UNUSED, UNUSED, {}, {});
    assert Start(s) && Reaches([], s);
    assert {} + {FIRST_OF_A} == {FIRST_OF_A};
    Extend(s, AtA(Send([], 0)), Sys(A_SENT, UNUSED, {FIRST_OF_A}, {}));
  }

  lemma UpdateShape(e: Endpoint, s: Settings)
    requires WantsUpdate(e, s) && 1 - e.readPhase % 2 != e.writePhase
    ensures Initiate(e, s) ==
            Ok(e.(readPhase := 1 - e.readPhase % 2, previousRead := Some(e.currentRead), currentRead := e.nextRead.value,
                  nextRead := Some(e.nextReadToDerive), readPhaseStart := None, writePhase := 1 - e.readPhase % 2,
                  writeCipher := e.nextWriteToDerive, sentInPhase := 0, pendingVerification := true, verificationNum := None,
                  firstUpdateCount := None, nextReadToDerive := e.nextReadToDerive + 1, nextWriteToDerive := e.nextWriteToDerive + 1))
  {
  }

  lemma AUpdates()
    ensures Initiate(A_SENT, EAGER) == Ok(A_UPDATED)
  {
    assert WantsUpdate(A_SENT, EAGER);
    hide WantsUpdate, Initiate;
    UpdateShape(A_SENT, EAGER);
  }

  lemma FirstUpdate()
    ensures Reachable(Sys(A_UPDATED, UNUSED, {FIRST_OF_A}, {}))
  {
    FirstSend();
    AUpdates();
    hide Initiate;
    Extend(Sys(A_SENT, UNUSED, {FIRST_OF_A}, {}), AtA(Update(EAGER)), Sys(A_UPDATED, UNUSED, {FIRST_OF_A}, {}));
  }

  lemma SecondSend()
    ensures Reachable(Sys(A_SENT_AGAIN, UNUSED, {FIRST_OF_A, SECOND_OF_A}, {}))
  {
    FirstUpdate();
    assert {FIRST_OF_A} + {SECOND_OF_A} == {FIRST_OF_A, SECOND_OF_A};
    assert Built(A_UPDATED, []) == SECOND_OF_A && Record(A_UPDATED, 0) == A_SENT_AGAIN;
    Extend(Sys(A_UPDATED, UNUSED, {FIRST_OF_A}, {}), AtA(Send([], 0)), Sys(A_SENT_AGAIN, UNUSED, {FIRST_OF_A, SECOND_OF_A}, {}));
  }

  lemma Answer()
    ensures Reachable(Sys(A_SENT_AGAIN, B_SENT, {FIRST_OF_A, SECOND_OF_A}, {FIRST_OF_B}))
  {
    SecondSend();
    assert Opens(UNUSED, SECOND_OF_A) && {} + {1} == {1};
    Extend(Sys(A_SENT_AGAIN, UNUSED, {FIRST_OF_A, SECOND_OF_A}, {}), AtB(Deliver(SECOND_OF_A, [])),
           Sys(A_SENT_AGAIN, B_ANSWERED, {FIRST_OF_A, SECOND_OF_A}, {}));
    assert {} + {FIRST_OF_B} == {FIRST_OF_B};
    Extend(Sys(A_SENT_AGAIN, B_ANSWERED, {FIRST_OF_A, SECOND_OF_A}, {}), AtB(Send([], 0)),
           Sys(A_SENT_AGAIN, B_SENT, {FIRST_OF_A, SECOND_OF_A}, {FIRST_OF_B}));
  }

  /** A run after which A is left behind: B has updated twice and A has received nothing of the phase between. */
  lemma SomeoneIsLeftBehind()
    ensures Reachable(Sys(A_SENT_AGAIN, B_UPDATED, {FIRST_OF_A, SECOND_OF_A}, {FIRST_OF_B}))
    ensures LeftBehind(Sys(A_SENT_AGAIN, B_UPDATED, {FIRST_OF_A, SECOND_OF_A}, {FIRST_OF_B}))
  {
    Answer();
    Extend(Sys(A_SENT_AGAIN, B_SENT, {FIRST_OF_A, SECOND_OF_A}, {FIRST_OF_B}), AtB(Update(EAGER)),
           Sys(A_SENT_AGAIN, B_UPDATED, {FIRST_OF_A, SECOND_OF_A}, {FIRST_OF_B}));
  }

  lemma SecondUpdateAcks()
    ensures Reachable(Sys(A_RECEIVED, B_ACKED, {FIRST_OF_A, SECOND_OF_A}, {FIRST_OF_B, ACK_OF_B}))
  {
    SomeoneIsLeftBehind();
    assert {FIRST_OF_B} + {ACK_OF_B} == {FIRST_OF_B, ACK_OF_B};
    Extend(Sys(A_SENT_AGAIN, B_UPDATED, {FIRST_OF_A, SECOND_OF_A}, {FIRST_OF_B}), AtB(Send([1], 0)),
           Sys(A_SENT_AGAIN, B_ACKED, {FIRST_OF_A, SECOND_OF_A}, {FIRST_OF_B, ACK_OF_B}));
    assert Opens(A_SENT_AGAIN, FIRST_OF_B) && {} + {0} == {0};
    Extend(Sys(A_SENT_AGAIN, B_ACKED, {FIRST_OF_A, SECOND_OF_A}, {FIRST_OF_B, ACK_OF_B}), AtA(Deliver(FIRST_OF_B, [])),
           Sys(A_RECEIVED, B_ACKED, {FIRST_OF_A, SECOND_OF_A}, {FIRST_OF_B, ACK_OF_B}));
  }

  /** A run after which a genuine acknowledgement from an honest peer closes the connection with an error. */
  lemma HonestAckRaisesError()
    ensures var s := Sys(A_RECEIVED, B_ACKED, {FIRST_OF_A, SECOND_OF_A}, {FIRST_OF_B, ACK_OF_B});
            && Reachable(s) && Enabled(s, AtA(Deliver(ACK_OF_B, [1])))
            && Do(s, AtA(Deliver(ACK_OF_B, [1]))).ClosedByError?
  {
    SecondUpdateAcks();
    assert Opens(A_RECEIVED, ACK_OF_B) && 1 in [1] && 1 in ACK_OF_B.acks;
    VerifyAcksExact(Opened(A_RECEIVED, ACK_OF_B), [1], ACK_OF_B.Phase());
  }

  // The second situation: B acknowledges before it updates, the acknowledgement is late, and A has
  // answered the update without having sent since.
  const LATE_ACK_OF_B := Pkt(1, 1, [1])
  const THIRD_OF_B := Pkt(2, 2, [])
  const B_ACKED_EARLY := B_SENT.(sentInPhase := 2, nextPacketNum := 2)
  const B_MOVED_ON := B_UPDATED.(nextPacketNum := 2)
  const B_SENT_LATER := B_MOVED_ON.(sentInPhase := 1, verificationNum := Some(2), nextPacketNum := 3)
  const A_ANSWERED := Endpoint(0, Some(1), 2, Some(3), Some(2), 0, 2, 0, true, Some(1), None, 4, 3, 2, {0, 2})

  lemma AckThenUpdate()
    ensures Reachable(Sys(A_SENT_AGAIN, B_SENT_LATER, {FIRST_OF_A, SECOND_OF_A}, {FIRST_OF_B, LATE_ACK_OF_B, THIRD_OF_B}))
  {
    Answer();
    var sentA := {FIRST_OF_A, SECOND_OF_A};
    assert {FIRST_OF_B} + {LATE_ACK_OF_B} == {FIRST_OF_B, LATE_ACK_OF_B};
    Extend(Sys(A_SENT_AGAIN, B_SENT, sentA, {FIRST_OF_B}), AtB(Send([1], 0)),
           Sys(A_SENT_AGAIN, B_ACKED_EARLY, sentA, {FIRST_OF_B, LATE_ACK_OF_B}));
    Extend(Sys(A_SENT_AGAIN, B_ACKED_EARLY, sentA, {FIRST_OF_B, LATE_ACK_OF_B}), AtB(Update(EAGER)),
           Sys(A_SENT_AGAIN, B_MOVED_ON, sentA, {FIRST_OF_B, LATE_ACK_OF_B}));
    assert {FIRST_OF_B, LATE_ACK_OF_B} + {THIRD_OF_B} == {FIRST_OF_B, LATE_ACK_OF_B, THIRD_OF_B};
    Extend(Sys(A_SENT_AGAIN, B_MOVED_ON, sentA, {FIRST_OF_B, LATE_ACK_OF_B}), AtB(Send([], 0)),
           Sys(A_SENT_AGAIN, B_SENT_LATER, sentA, {FIRST_OF_B, LATE_ACK_OF_B, THIRD_OF_B}));
  }

  lemma AnswersUpdate()
    ensures Receive(A_RECEIVED, THIRD_OF_B, []) == Processed(A_ANSWERED)
  {
    assert Opens(A_RECEIVED, THIRD_OF_B) && {0} + {2} == {0, 2};
    var e := Opened(A_RECEIVED, THIRD_OF_B);
    assert e == A_RECEIVED.(readPhase := 0, readPhaseStart := Some(2), previousRead := Some(1), currentRead := 2, nextRead := None,
                            received := {0, 2});
    assert HandleIncoming(e) == Ok(A_ANSWERED);
  }

  lemma BothDelivered()
    ensures Reachable(Sys(A_ANSWERED, B_SENT_LATER, {FIRST_OF_A, SECOND_OF_A}, {FIRST_OF_B, LATE_ACK_OF_B, THIRD_OF_B}))
  {
    AckThenUpdate();
    var (sentA, sentB) := ({FIRST_OF_A, SECOND_OF_A}, {FIRST_OF_B, LATE_ACK_OF_B, THIRD_OF_B});
    assert Opens(A_SENT_AGAIN, FIRST_OF_B) && {} + {0} == {0};
    Extend(Sys(A_SENT_AGAIN, B_SENT_LATER, sentA, sentB), AtA(Deliver(FIRST_OF_B, [])), Sys(A_RECEIVED, B_SENT_LATER, sentA, sentB));
    AnswersUpdate();
    hide Receive;
    Extend(Sys(A_RECEIVED, B_SENT_LATER, sentA, sentB), AtA(Deliver(THIRD_OF_B, [])), Sys(A_ANSWERED, B_SENT_LATER, sentA, sentB));
  }

  /** The same for a late packet: an acknowledgement sent before the peer's update, and overtaken by it, raises the error. */
  lemma LateAckRaisesError()
    ensures var s := Sys(A_ANSWERED, B_SENT_LATER, {FIRST_OF_A, SECOND_OF_A}, {FIRST_OF_B, LATE_ACK_OF_B, THIRD_OF_B});
            && Reachable(s) && Enabled(s, AtA(Deliver(LATE_ACK_OF_B, [1])))
            && Do(s, AtA(Deliver(LATE_ACK_OF_B, [1]))).ClosedByError?
  {
    BothDelivered();
    assert Opens(A_ANSWERED, LATE_ACK_OF_B) && 1 in [1] && 1 in LATE_ACK_OF_B.acks;
    VerifyAcksExact(Opened(A_ANSWERED, LATE_ACK_OF_B), [1], LATE_ACK_OF_B.Phase());
  }
}
