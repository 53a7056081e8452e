/**
 The key update fields of a connection, updated in place the way
 quic/api/QuicTransportFunctions.cpp and quic/codec/QuicReadCodec.cpp do it. Each
 method computes the function of the KeyUpdate model that the whole-run
 properties are proved about; between two events both sides are in one epoch, and
 no check of the transport fails.
 */
module KeyUpdateState {
  import opened Prelude
  import opened KeyUpdate
  import opened KeyUpdateProofs
  import opened KeyUpdateErrors

  class OneRttState {
    var readPhase: nat
    var previousRead: Option<nat>
    var currentRead: nat
    var nextRead: Option<nat>
    var readPhaseStart: Option<nat>
    var writePhase: nat
    var writeCipher: nat
    var sentInPhase: nat
    var pendingVerification: bool
    var verificationNum: Option<nat>
    var firstUpdateCount: Option<nat>
    var nextReadToDerive: nat
    var nextWriteToDerive: nat
    var nextPacketNum: nat
    var received: set<nat>

    function View(): (e: Endpoint)
      reads this
    {
      Endpoint(readPhase, previousRead, currentRead, nextRead, readPhaseStart, writePhase, writeCipher, sentInPhase,
               pendingVerification, verificationNum, firstUpdateCount, nextReadToDerive, nextWriteToDerive,
               nextPacketNum, received)
    }

    /** Between two events: reading and writing in one epoch, with the next read key installed. */
    ghost predicate Valid()
      reads this
    {
      Steady(View())
    }

    /**
     While an update is under way: the read side is one epoch ahead, its key moved up from the next one,
     and the next one is yet to be installed.
     */
    ghost predicate Ahead()
      reads this
    {
      && currentRead == writeCipher + 1 && readPhase == currentRead % 2 && writePhase == writeCipher % 2
      && previousRead == Some(writeCipher) && nextRead == None
      && nextReadToDerive == currentRead + 1 && nextWriteToDerive == currentRead
      && (verificationNum.Some? ==> pendingVerification) && (pendingVerification ==> writeCipher > 0)
    }

    constructor (first: Option<nat>)
      ensures View() == Fresh(first) && Valid()
    {
      readPhase, previousRead, currentRead, nextRead, readPhaseStart := 0, None, 0, Some(1), Some(0);
      writePhase, writeCipher, sentInPhase, pendingVerification, verificationNum := 0, 0, 0, false, None;
      firstUpdateCount, nextReadToDerive, nextWriteToDerive, nextPacketNum, received := first, 2, 1, 0, {};
    }

    /**
     `tryParseShortHeaderPacket`: choose a cipher, try to open the packet, move the codec on. Of any
     packet, whatever its epoch, it opens exactly those of the read epoch, those of the epoch before
     that come in front of the phase's first packet, and those of the next epoch behind it; only the
     last move the read side ahead.
     */
    method ParseShortHeaderPacket(p: Pkt) returns (ok: bool)
      requires Valid()
      modifies this
      ensures ok == Opens(old(View()), p)
      ensures ok <==>
                || p.epoch == old(currentRead)
                || (p.epoch == old(currentRead) - 1 && (old(readPhaseStart).None? || p.num < old(readPhaseStart).value))
                || (p.epoch == old(currentRead) + 1 && old(readPhaseStart).Some? && p.num >= old(readPhaseStart).value)
      ensures !ok ==> View() == old(View())
      ensures ok ==> received == old(received) + {p.num} && writeCipher == old(writeCipher) && writePhase == old(writePhase)
      ensures verificationNum == old(verificationNum) && pendingVerification == old(pendingVerification)
      ensures if ok && p.epoch == old(currentRead) + 1 then Ahead() && readPhaseStart == Some(p.num) else Valid()
      ensures ok && p.epoch == old(currentRead) ==> readPhaseStart == if old(readPhaseStart).None? then Some(p.num) else old(readPhaseStart)
      ensures View() == if ok then Opened(old(View()), p) else old(View())
    {
      var cipher: Option<nat>, attempt := None, false;
      if p.Phase() == readPhase {
        cipher := Some(currentRead);
      } else if readPhaseStart.None? || p.num < readPhaseStart.value {
        cipher := previousRead;
      } else {
        cipher, attempt := nextRead, nextRead.Some?;
      }
      ok := cipher == Some(p.epoch);
      if !ok {
        return;
      }
      if attempt {
        readPhase, readPhaseStart := p.Phase(), None;
        previousRead, currentRead, nextRead := Some(currentRead), nextRead.value, None;
      }
      if readPhaseStart.None? && cipher == Some(currentRead) {
        readPhaseStart := Some(p.num);
      }
      received := received + {p.num};
    }

    /** `updateOneRttWriteCipher`: its CHECK passes for a read side that is ahead, and the write side catches up. */
    method UpdateOneRttWriteCipher(phase: nat) returns (ok: bool)
      requires Ahead() && phase == readPhase
      modifies this`writeCipher, this`nextWriteToDerive, this`writePhase, this`sentInPhase
      ensures ok && writeCipher == currentRead && writePhase == readPhase && sentInPhase == 0
      ensures nextWriteToDerive == writeCipher + 1
      ensures UpdateWriteCipher(old(View()), phase) == Ok(View())
    {
      ok := phase != writePhase;
      if ok {
        writeCipher, nextWriteToDerive := nextWriteToDerive, nextWriteToDerive + 1;
        writePhase, sentInPhase := phase, 0;
      }
    }

    /** What both kinds of update end with: the write side catches up, and the next read key is installed. */
    method CatchUp() returns (ok: bool)
      requires Ahead()
      modifies this`writeCipher, this`nextWriteToDerive, this`writePhase, this`sentInPhase, this`nextRead, this`nextReadToDerive
      ensures ok && Valid() && writeCipher == old(writeCipher) + 1 && sentInPhase == 0
      ensures UpdateWriteCipher(old(View()), old(readPhase)).Ok?
      ensures View() == InstallNextRead(UpdateWriteCipher(old(View()), old(readPhase)).value)
    {
      ok := UpdateOneRttWriteCipher(readPhase);
      if ok {
        nextRead, nextReadToDerive := Some(nextReadToDerive), nextReadToDerive + 1;
      }
    }

    /** `maybeHandleIncomingKeyUpdate`: whatever packet was opened, both sides are in one epoch again, and no check fails. */
    method MaybeHandleIncomingKeyUpdate() returns (ok: bool)
      requires Valid() || Ahead()
      modifies this
      ensures ok && Valid() && currentRead == old(currentRead) && readPhaseStart == old(readPhaseStart)
      ensures verificationNum == old(verificationNum) && pendingVerification == old(pendingVerification)
      ensures old(Valid()) ==> View() == old(View())
      ensures old(Ahead()) ==> writeCipher == old(writeCipher) + 1 && sentInPhase == 0 && firstUpdateCount == None
      ensures HandleIncoming(old(View())) == Ok(View())
    {
      ok := true;
      if readPhase != writePhase {
        ok := CatchUp();
        if ok {
          firstUpdateCount := None;
        }
      }
    }

    /** `advanceOneRttReadPhase`: the read side moves ahead by one epoch, and nothing of the new phase has been received. */
    method AdvanceOneRttReadPhase()
      requires Valid() && readPhaseStart.Some?
      modifies this`previousRead, this`currentRead, this`nextRead, this`readPhase, this`readPhaseStart
      ensures Ahead() && currentRead == old(currentRead) + 1 && readPhaseStart == None
      ensures View() == AdvanceReadPhase(old(View()))
    {
      previousRead, currentRead, nextRead := Some(currentRead), nextRead.value, None;
      readPhase, readPhaseStart := 1 - readPhase % 2, None;
    }

    /** The update itself: both sides move up by one epoch, and the update is to be verified. */
    method StartUpdate() returns (ok: bool)
      requires Valid() && readPhaseStart.Some?
      modifies this
      ensures ok && Valid() && writeCipher == currentRead == old(currentRead) + 1
      ensures sentInPhase == 0 && readPhaseStart == None && firstUpdateCount == None
      ensures pendingVerification && verificationNum == None
      ensures nextPacketNum == old(nextPacketNum) && received == old(received)
    {
      hide AdvanceReadPhase, UpdateWriteCipher, InstallNextRead;
      AdvanceOneRttReadPhase();
      firstUpdateCount := None;
      ok := CatchUp();
      if ok {
        pendingVerification, verificationNum := true, None;
      }
    }

    /**
     `maybeInitiateKeyUpdate`: no check fails, both sides stay in one epoch, and that epoch moves up by
     one, with a verification pending, exactly when enough was sent, something of the phase was
     received, and the endpoint does not leave the first update to its peer.
     */
    method MaybeInitiateKeyUpdate(s: Settings) returns (ok: bool)
      requires Valid()
      modifies this
      ensures ok && Valid()
      ensures var updates := && s.initiate && !(s.deferToPeer && old(firstUpdateCount).Some?) && old(readPhaseStart).Some?
                             && old(sentInPhase) > (if old(firstUpdateCount).Some? then old(firstUpdateCount).value else s.interval);
              if updates then
                && writeCipher == currentRead == old(currentRead) + 1 && sentInPhase == 0 && readPhaseStart == None
                && pendingVerification && verificationNum == None && firstUpdateCount == None
              else View() == old(View())
      ensures Initiate(old(View()), s) == Ok(View())
    {
      ok := true;
      if s.initiate {
        if s.deferToPeer && firstUpdateCount.Some? {
          return;
        }
        var before := if firstUpdateCount.Some? then firstUpdateCount.value else s.interval;
        if sentInPhase > before && nextRead.Some? && readPhaseStart.Some? {
          ok := StartUpdate();
        }
      }
    }

    /**
     `maybeVerifyPendingKeyUpdate` called for every acknowledged packet: an error when one reaches the awaited packet in
     another phase; else the verification is over if one reached it, and pending as before if none did.
     */
    method VerifyAckedPackets(acked: seq<nat>, ackPhase: nat) returns (ok: bool)
      requires Valid() || Ahead()
      modifies this`verificationNum, this`pendingVerification
      ensures (old(Valid()) ==> Valid()) && (old(Ahead()) ==> Ahead())
      ensures ok <==> !(ReachesAwaited(old(View()), acked) && ackPhase != old(writePhase))
      ensures ok ==> verificationNum == if ReachesAwaited(old(View()), acked) then None else old(verificationNum)
      ensures ok ==> pendingVerification == (old(pendingVerification) && !ReachesAwaited(old(View()), acked))
      ensures ok == VerifyAcks(old(View()), acked, ackPhase).Verified?
      ensures ok ==> View() == VerifyAcks(old(View()), acked, ackPhase).endpoint
    {
      VerifyAcksExact(View(), acked, ackPhase);
      VerifyAcksShape(View(), acked, ackPhase);
      ok := true;
      var i := 0;
      while i < |acked|
        invariant 0 <= i <= |acked|
        invariant (old(Valid()) ==> Valid()) && (old(Ahead()) ==> Ahead())
        invariant VerifyAcks(View(), acked[i..], ackPhase) == VerifyAcks(old(View()), acked, ackPhase)
      {
        assert acked[i..][0] == acked[i] && acked[i..][1..] == acked[i + 1..];
        if verificationNum.Some? && acked[i] >= verificationNum.value {
          if ackPhase != writePhase {
            return false;
          }
          verificationNum, pendingVerification := None, false;
        }
        i := i + 1;
      }
    }

    /**
     A packet from the peer, in the order of the transport: opened, its acknowledgements verified, an
     update of the peer answered. No check fails for any packet whatever, and unless the verification
     raises its error both sides are in one epoch afterwards: the old one, or the next one exactly
     when the packet was of the next one.
     */
    method ReadPacket(p: Pkt, acked: seq<nat>) returns (r: ReadOutcome)
      requires Valid()
      modifies this
      ensures r != Error ==> Valid()
      ensures r == ReadOutcome.Dropped ==> View() == old(View())
      ensures r == Done ==> writeCipher == old(writeCipher) + if p.epoch == old(currentRead) + 1 then 1 else 0
      ensures r == Error <==> Opens(old(View()), p) && ReachesAwaited(old(View()), acked) && p.Phase() != old(writePhase)
      ensures r == Done ==> verificationNum == if ReachesAwaited(old(View()), acked) then None else old(verificationNum)
      ensures r == Done ==> pendingVerification == (old(pendingVerification) && !ReachesAwaited(old(View()), acked))
      ensures Receive(old(View()), p, acked) ==
              (match r
               case Dropped => ReadResult.Dropped
               case Done => Processed(View())
               case Error => CryptoError)
    {
      hide Opened, Opens, VerifyAcks, HandleIncoming, Steady;
      var parsed := ParseShortHeaderPacket(p);
      if !parsed {
        return ReadOutcome.Dropped;
      }
      var ok := VerifyAckedPackets(acked, p.Phase());
      if !ok {
        return Error;
      }
      ok := MaybeHandleIncomingKeyUpdate();
      return Done;
    }

    /**
     The part of `updateConnection` that records a packet sent in the current phase: the first packet of
     a phase that this endpoint started is the one whose acknowledgement is awaited.
     */
    method RecordSent(skip: nat) returns (p: nat)
      requires Valid()
      modifies this
      ensures Valid() && p == old(nextPacketNum) < nextPacketNum && sentInPhase == old(sentInPhase) + 1
      ensures old(pendingVerification) && old(sentInPhase) == 0 ==> verificationNum == Some(p)
      ensures old(sentInPhase) > 0 ==> verificationNum == old(verificationNum)
      ensures View() == Record(old(View()), skip)
    {
      p := nextPacketNum;
      if pendingVerification && sentInPhase == 0 {
        verificationNum := Some(p);
      }
      sentInPhase := sentInPhase + 1;
      nextPacketNum := nextPacketNum + 1 + skip;
    }
  }

  datatype ReadOutcome = Dropped | Done | Error
}
