/** What every run of two endpoints keeps, which packets can be opened, and when a verification error is raised. */
module KeyUpdateProofs {
  import opened Prelude
  import opened KeyUpdate

  // ------------------------------------------------------------------ sending

  lemma SendInv(s: Sys, acks: seq<nat>, skip: nat)
    requires Inv(s) && Allowed(s, Send(acks, skip))
    ensures ActAtA(s, Send(acks, skip)).Next? && Inv(ActAtA(s, Send(acks, skip)).sys)
  {
    hide SentInOrder, StartOk, ReceivedOk, AcksOk, VerificationOk, InPhase;
    SendSender(s, acks, skip);
    SendAcks(s, acks);
    SentMore(s.b, s.sentA, s.sentA + {Built(s.a, acks)}, s.sentB);
    SameKnowledge(s.a, Record(s.a, skip), s.sentB);
  }

  lemma SendSender(s: Sys, acks: seq<nat>, skip: nat)
    requires Inv(s)
    ensures var x, sent := Record(s.a, skip), s.sentA + {Built(s.a, acks)};
            SentInOrder(x, sent) && VerificationOk(x, sent) && x.sentInPhase == |InPhase(x, sent)|
  {
    hide StartOk, ReceivedOk, AcksOk;
    SendOrder(s.a, s.sentA, acks, skip);
    SendCounted(s.a, s.sentA, acks, skip);
  }

  lemma SendOrder(e: Endpoint, sent: set<Pkt>, acks: seq<nat>, skip: nat)
    requires SentInOrder(e, sent)
    ensures SentInOrder(Record(e, skip), sent + {Built(e, acks)})
  {
  }

  lemma SendCounted(e: Endpoint, sent: set<Pkt>, acks: seq<nat>, skip: nat)
    requires Steady(e) && SentInOrder(e, sent) && VerificationOk(e, sent) && e.sentInPhase == |InPhase(e, sent)|
    ensures var x, more := Record(e, skip), sent + {Built(e, acks)};
            VerificationOk(x, more) && x.sentInPhase == |InPhase(x, more)|
  {
    var x, p := Record(e, skip), Built(e, acks);
    assert p !in sent;
    assert InPhase(x, sent + {p}) == InPhase(e, sent) + {p};
    if e.sentInPhase == 0 {
      forall q | q in sent ensures q.epoch < e.writeCipher { assert q !in InPhase(e, sent); }
    }
  }

  lemma SendAcks(s: Sys, acks: seq<nat>)
    requires Steady(s.a) && ReceivedOk(s.a, s.sentB) && AcksOk(s.sentA, s.sentB)
    requires forall n :: n in acks ==> n in s.a.received
    ensures AcksOk(s.sentA + {Built(s.a, acks)}, s.sentB)
  {
  }

  lemma SameKnowledge(e: Endpoint, r: Endpoint, peerSent: set<Pkt>)
    requires r.currentRead == e.currentRead && r.readPhaseStart == e.readPhaseStart && r.received == e.received
    ensures StartOk(e, peerSent) ==> StartOk(r, peerSent)
    ensures ReceivedOk(e, peerSent) ==> ReceivedOk(r, peerSent)
  {
  }

  /** What an endpoint knows about its peer's packets stays true when the peer sends more. */
  lemma SentMore(e: Endpoint, peerSent: set<Pkt>, more: set<Pkt>, sent: set<Pkt>)
    requires peerSent <= more
    ensures StartOk(e, peerSent) ==> StartOk(e, more)
    ensures ReceivedOk(e, peerSent) ==> ReceivedOk(e, more)
    ensures AcksOk(sent, peerSent) ==> AcksOk(sent, more)
  {
  }

  // ------------------------------------------------------------------ receiving

  /**
   Processing acknowledgements ends the pending verification exactly when one of them reaches the awaited packet, and
   changes nothing else.
   */
  lemma {:induction false} VerifyAcksShape(e: Endpoint, acked: seq<nat>, ackPhase: nat)
    ensures var v := VerifyAcks(e, acked, ackPhase);
            v.Verified? ==>
              v.endpoint == if ReachesAwaited(e, acked) then e.(verificationNum := None, pendingVerification := false) else e
    decreases |acked|
  {
    if acked != [] {
      VerifyAcksShape(e, acked[1..], ackPhase);
      VerifyAcksShape(e.(verificationNum := None, pendingVerification := false), acked[1..], ackPhase);
      assert acked[0] in acked && forall n :: n in acked <==> n == acked[0] || n in acked[1..];
    }
  }

  /** The phase bit and the packet number tell the epoch of every packet of the peer that is not two epochs old. */
  lemma CipherChoice(s: Sys, p: Pkt)
    requires Inv(s) && p in s.sentB
    ensures p.epoch <= s.a.currentRead + 1
    ensures CipherToUse(s.a, p).1 ==> CipherToUse(s.a, p).0 == Some(s.a.currentRead + 1)
    ensures Opens(s.a, p) <==>
              || p.epoch == s.a.currentRead
              || p.epoch == s.a.currentRead - 1
              || (p.epoch == s.a.currentRead + 1 && s.a.readPhaseStart.Some?)
    ensures Opens(s.a, p) ==> (CipherToUse(s.a, p).1 <==> p.epoch == s.a.currentRead + 1)
  {
    var e := s.a;
    if e.readPhaseStart.Some? && !(e.currentRead == 0 && e.readPhaseStart.value == 0) {
      var q :| q in s.sentB && q.num == e.readPhaseStart.value && q.epoch == e.currentRead;
      assert p.num <= q.num ==> p.epoch <= q.epoch;
      assert q.num <= p.num ==> q.epoch <= p.epoch;
      assert q.num == p.num ==> q == p;
    }
  }

  /** A packet of the read epoch or the one before leaves the epochs alone. */
  lemma DeliverSameEpoch(s: Sys, p: Pkt, acked: seq<nat>)
    requires Inv(s) && Allowed(s, Deliver(p, acked)) && Opens(s.a, p) && p.epoch <= s.a.currentRead
    requires VerifyAcks(Opened(s.a, p), acked, p.Phase()).Verified?
    ensures Receive(s.a, p, acked).Processed? && Inv(s.(a := Receive(s.a, p, acked).endpoint))
  {
    CipherChoice(s, p);
    var e := Opened(s.a, p);
    VerifyAcksShape(e, acked, p.Phase());
    var x := Receive(s.a, p, acked).endpoint;
    assert InPhase(x, s.sentA) == InPhase(s.a, s.sentA);
    assert StartOk(x, s.sentB);
    assert ReceivedOk(x, s.sentB);
  }

  /** A packet of the next epoch moves the endpoint to that epoch, reading and writing. */
  lemma DeliverNextEpoch(s: Sys, p: Pkt, acked: seq<nat>)
    requires Inv(s) && Allowed(s, Deliver(p, acked)) && Opens(s.a, p) && p.epoch == s.a.currentRead + 1
    requires VerifyAcks(Opened(s.a, p), acked, p.Phase()).Verified?
    ensures Receive(s.a, p, acked).Processed? && Inv(s.(a := Receive(s.a, p, acked).endpoint))
    ensures Receive(s.a, p, acked).endpoint.writeCipher == p.epoch
  {
    CipherChoice(s, p);
    var e := Opened(s.a, p);
    VerifyAcksShape(e, acked, p.Phase());
    var x := Receive(s.a, p, acked).endpoint;
    assert InPhase(x, s.sentA) == {};
    assert StartOk(x, s.sentB);
    assert ReceivedOk(x, s.sentB);
  }

  lemma DeliverInv(s: Sys, p: Pkt, acked: seq<nat>)
    requires Inv(s) && Allowed(s, Deliver(p, acked))
    ensures var r := ActAtA(s, Deliver(p, acked)); !r.CheckFails? && (r.Next? ==> Inv(r.sys))
  {
    hide Inv, VerifyAcks, Opened, HandleIncoming;
    CipherChoice(s, p);
    if Opens(s.a, p) && VerifyAcks(Opened(s.a, p), acked, p.Phase()).Verified? {
      if p.epoch == s.a.currentRead + 1 { DeliverNextEpoch(s, p, acked); } else { DeliverSameEpoch(s, p, acked); }
    }
  }

  // ------------------------------------------------------------------ initiating

  lemma UpdateInv(s: Sys, settings: Settings)
    requires Inv(s)
    ensures var r := ActAtA(s, Update(settings)); r.Next? && Inv(r.sys)
  {
    if WantsUpdate(s.a, settings) {
      var x := Initiate(s.a, settings).value;
      assert InPhase(x, s.sentA) == {};
      if s.b.writeCipher == s.a.currentRead > 0 {
        var p :| p in s.sentB && p.num == s.a.readPhaseStart.value && p.epoch == s.a.currentRead;
        assert p in InPhase(s.b, s.sentB);
      }
      assert ReceivedOk(x, s.sentB);
    }
  }

  // ------------------------------------------------------------------ every run

  lemma FlipInv(s: Sys)
    ensures Inv(Flip(s)) <==> Inv(s)
    ensures Flip(Flip(s)) == s
  {
  }

  lemma StepInv(s: Sys, step: Step)
    requires Inv(s) && Enabled(s, step)
    ensures !Do(s, step).CheckFails? && (Do(s, step).Next? ==> Inv(Do(s, step).sys))
  {
    hide Inv;
    FlipInv(s);
    var v, action := if step.AtA? then s else Flip(s), step.action;
    match action {
      case Send(acks, skip) => SendInv(v, acks, skip);
      case Deliver(p, acked) => DeliverInv(v, p, acked);
      case Update(settings) => UpdateInv(v, settings);
    }
    var r := ActAtA(v, action);
    if r.Next? { FlipInv(r.sys); }
  }

  lemma {:induction false} EveryRun(steps: seq<Step>, s: Sys)
    requires Reaches(steps, s)
    ensures Inv(s)
    decreases |steps|
  {
    if steps == [] {
      assert InPhase(s.a, {}) == {} && InPhase(s.b, {}) == {};
    } else {
      var last := steps[|steps| - 1];
      var r: Sys :| Reaches(steps[..|steps| - 1], r) && Enabled(r, last) && Do(r, last) == Next(s);
      EveryRun(steps[..|steps| - 1], r);
      StepInv(r, last);
    }
  }

  /**
   In every state two honest endpoints can reach over any network: each reads and writes in one
   epoch with the next read key ready, the endpoints are at most one epoch apart, and each phase
   counter is the number of packets sent in the phase.
   */
  lemma EpochsStayClose(steps: seq<Step>, s: Sys)
    requires Reaches(steps, s)
    ensures s.a.currentRead == s.a.writeCipher && s.b.currentRead == s.b.writeCipher
    ensures s.a.nextRead == Some(s.a.currentRead + 1) && s.b.nextRead == Some(s.b.currentRead + 1)
    ensures -1 <= s.a.writeCipher - s.b.writeCipher <= 1
    ensures s.a.sentInPhase == |InPhase(s.a, s.sentA)| && s.b.sentInPhase == |InPhase(s.b, s.sentB)|
  {
    hide Reaches, SentInOrder, StartOk, ReceivedOk, AcksOk, VerificationOk, InPhase;
    EveryRun(steps, s);
  }

  /** "Cannot replace cipher for current write phase" is never reached. */
  lemma CipherNeverReplaced(steps: seq<Step>, s: Sys, step: Step)
    requires Reaches(steps, s) && Enabled(s, step)
    ensures !Do(s, step).CheckFails?
  {
    EveryRun(steps, s);
    StepInv(s, step);
  }

  /** The awaited packet number is not above any packet sent in the phase in use. */
  lemma VerificationStartsPhase(steps: seq<Step>, s: Sys, p: Pkt)
    requires Reaches(steps, s) && s.a.verificationNum.Some?
    requires p in s.sentA && p.epoch == s.a.writeCipher
    ensures s.a.verificationNum.value <= p.num
  {
    EveryRun(steps, s);
    assert p in InPhase(s.a, s.sentA);
  }

  // ------------------------------------------------------------------ which packets can be opened

  /**
   A packet of the peer can be opened exactly when it is of the read epoch, the epoch before, or the
   next epoch after something of the read epoch has been received.
   */
  lemma OpensExactly(steps: seq<Step>, s: Sys, p: Pkt)
    requires Reaches(steps, s) && p in s.sentB
    ensures p.epoch <= s.a.currentRead + 1
    ensures Opens(s.a, p) <==>
              || p.epoch == s.a.currentRead
              || p.epoch == s.a.currentRead - 1
              || (p.epoch == s.a.currentRead + 1 && s.a.readPhaseStart.Some?)
  {
    EveryRun(steps, s);
    CipherChoice(s, p);
  }

  // ------------------------------------------------------------------ being left behind

  /**
   The peer has already left the endpoint's read epoch, in which the endpoint has received nothing:
   RFC 9001 section 6.1 rules this out by letting an endpoint update again only after an
   acknowledgement, which the transport does not wait for.
   */
  ghost predicate LeftBehind(s: Sys) {
    s.a.readPhaseStart.None? && s.b.writeCipher == s.a.currentRead + 1
  }

  /** An endpoint leaves its peer behind exactly by updating before the peer has received anything of the phase. */
  lemma UpdateLeavesBehind(s: Sys, settings: Settings)
    requires Inv(s) && WantsUpdate(s.b, settings)
    ensures var r := Do(s, AtB(Update(settings)));
            r.Next? && (LeftBehind(r.sys) <==> s.a.readPhaseStart.None? && s.a.currentRead == s.b.currentRead)
  {
  }

  /**
   An endpoint left behind opens no packet its peer sends from then on, cannot start an update
   itself, and stays left behind until a packet of its read epoch, sent before, arrives.
   */
  lemma LeftBehindStays(steps: seq<Step>, s: Sys, step: Step, r: Sys)
    requires Reaches(steps, s) && LeftBehind(s) && Enabled(s, step) && Do(s, step) == Next(r)
    requires step.AtA? && step.action.Deliver? ==> step.action.packet.epoch != s.a.currentRead
    ensures LeftBehind(r) && r.a.currentRead == s.a.currentRead
    ensures forall p :: p in r.sentB - s.sentB ==> !Opens(r.a, p)
    ensures forall settings :: !WantsUpdate(s.a, settings)
  {
    EveryRun(steps, s);
    StepInv(s, step);
    match step {
      case AtA(action) => StuckAtA(s, action, r);
      case AtB(action) => StuckAtB(s, action, r);
    }
  }

  lemma StuckAtA(s: Sys, action: Action, r: Sys)
    requires Inv(s) && LeftBehind(s) && Allowed(s, action) && ActAtA(s, action) == Next(r)
    requires action.Deliver? ==> action.packet.epoch != s.a.currentRead
    ensures LeftBehind(r) && r.a.currentRead == s.a.currentRead && r.sentB == s.sentB
  {
    if action.Deliver? && Opens(s.a, action.packet) {
      CipherChoice(s, action.packet);
      VerifyAcksShape(Opened(s.a, action.packet), action.acked, action.packet.Phase());
    }
  }

  lemma StuckAtB(s: Sys, action: Action, r: Sys)
    requires Inv(s) && LeftBehind(s) && Allowed(Flip(s), action) && Do(s, AtB(action)) == Next(r)
    ensures LeftBehind(r) && r.a == s.a
    ensures forall p :: p in r.sentB - s.sentB ==> !Opens(r.a, p)
  {
    match action
    case Send(acks, skip) =>
      StepInv(s, AtB(action));
      hide Inv, Opens;
      CipherChoice(r, Built(s.b, acks));
    case Deliver(p, acked) => StuckDeliver(s, p, acked, r);
    case Update(settings) => StuckUpdate(s, settings);
  }

  /** Nothing the endpoint left behind has sent is newer than what its peer can read without updating. */
  lemma StuckDeliver(s: Sys, p: Pkt, acked: seq<nat>, r: Sys)
    requires Inv(s) && LeftBehind(s) && p in s.sentA && Do(s, AtB(Deliver(p, acked))) == Next(r)
    ensures LeftBehind(r) && r.a == s.a && r.sentB == s.sentB
  {
    FlipInv(s);
    CipherChoice(Flip(s), p);
    assert p.epoch <= s.a.writeCipher == s.a.currentRead;
    hide Inv, CipherToUse;
    if Opens(s.b, p) {
      VerifyAcksShape(Opened(s.b, p), acked, p.Phase());
      StuckOpened(s.b, p);
    }
  }

  lemma StuckOpened(e: Endpoint, p: Pkt)
    requires Opens(e, p) && !CipherToUse(e, p).1
    ensures var r := Opened(e, p);
            r.writeCipher == e.writeCipher && r.writePhase == e.writePhase && r.readPhase == e.readPhase
  {
  }

  lemma StuckUpdate(s: Sys, settings: Settings)
    requires Inv(s) && LeftBehind(s)
    ensures !WantsUpdate(s.b, settings)
  {
    hide AcksOk, ReceivedOk, VerificationOk;
  }
}
