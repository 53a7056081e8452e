/**
 The 1-RTT key update (section 6 of RFC 9001) as the transport runs it:
 `updateOneRttWriteCipher`, `maybeHandleIncomingKeyUpdate`,
 `maybeInitiateKeyUpdate`, `maybeVerifyPendingKeyUpdate` and the phase counter of
 `updateConnection` (quic/api/QuicTransportFunctions.cpp), with the cipher choice
 of `tryParseShortHeaderPacket` (quic/codec/QuicReadCodec.cpp).

 Two endpoints exchange packets over a network that may lose, delay, reorder and
 duplicate them. A key is named by its epoch, the number of updates before it; on
 the wire only the epoch's parity, the key phase bit, can be seen, and a packet
 can be opened only with the key of its own epoch.
 */
module KeyUpdate {
  import opened Prelude

  /** A short header packet: its number, the epoch of the key that protects it, and the packet numbers it acknowledges. */
  datatype Pkt = Pkt(num: nat, epoch: nat, acks: seq<nat>) {
    /** The key phase bit, `getProtectionType()`. */
    function Phase(): nat { epoch % 2 }
  }

  /** The settings that decide when an endpoint starts an update. */
  datatype Settings = Settings(initiate: bool, interval: nat, deferToPeer: bool)

  datatype Endpoint = Endpoint(
    // QuicReadCodec
    readPhase: nat,
    previousRead: Option<nat>,
    currentRead: nat,
    nextRead: Option<nat>,
    readPhaseStart: Option<nat>,
    // QuicConnectionStateBase
    writePhase: nat,
    writeCipher: nat,
    sentInPhase: nat,
    pendingVerification: bool,
    verificationNum: Option<nat>,
    firstUpdateCount: Option<nat>,
    // the handshake layer's key schedule
    nextReadToDerive: nat,
    nextWriteToDerive: nat,
    // packet number state
    nextPacketNum: nat,
    received: set<nat>)

  /** After the handshake: `currentOneRttReadPhaseStartPacketNum_` starts as 0, not as unset. */
  function Fresh(first: Option<nat>): (e: Endpoint) {
    Endpoint(0, None, 0, Some(1), Some(0), 0, 0, 0, false, None, first, 2, 1, 0, {})
  }

  // ------------------------------------------------------------------ the read codec

  /** Which cipher `tryParseShortHeaderPacket` picks, and whether the packet counts as a key update attempt. */
  function CipherToUse(e: Endpoint, p: Pkt): (r: (Option<nat>, bool)) {
    if p.Phase() == e.readPhase then (Some(e.currentRead), false)
    else if e.readPhaseStart.None? || p.num < e.readPhaseStart.value then (e.previousRead, false)
    else (e.nextRead, e.nextRead.Some?)
  }

  predicate Opens(e: Endpoint, p: Pkt) { CipherToUse(e, p).0 == Some(p.epoch) }

  /** The codec after a packet was opened. */
  function Opened(e: Endpoint, p: Pkt): (r: Endpoint)
    requires Opens(e, p)
  {
    var e1 := if CipherToUse(e, p).1
              then e.(readPhase := p.Phase(), readPhaseStart := None, previousRead := Some(e.currentRead),
                      currentRead := e.nextRead.value, nextRead := None)
              else e;
    e1.(readPhaseStart := if e1.readPhaseStart.None? && p.epoch == e1.currentRead then Some(p.num) else e1.readPhaseStart,
        received := e1.received + {p.num})
  }

  predicate CanInitiate(e: Endpoint) { e.nextRead.Some? && e.readPhaseStart.Some? }

  function AdvanceReadPhase(e: Endpoint): (r: Endpoint)
    requires CanInitiate(e)
  {
    e.(previousRead := Some(e.currentRead), currentRead := e.nextRead.value, nextRead := None,
       readPhase := 1 - e.readPhase % 2, readPhaseStart := None)
  }

  // ------------------------------------------------------------------ the transport

  /** `updateOneRttWriteCipher` with the cipher the handshake layer derives next, under its CHECK. */
  function UpdateWriteCipher(e: Endpoint, phase: nat): (r: Checked<Endpoint>) {
    if phase == e.writePhase then CheckFailed
    else Ok(e.(writeCipher := e.nextWriteToDerive, nextWriteToDerive := e.nextWriteToDerive + 1,
               writePhase := phase, sentInPhase := 0))
  }

  /** `setNextOneRttReadCipher` with the cipher the handshake layer derives next. */
  function InstallNextRead(e: Endpoint): (r: Endpoint) {
    e.(nextRead := Some(e.nextReadToDerive), nextReadToDerive := e.nextReadToDerive + 1)
  }

  /** `maybeHandleIncomingKeyUpdate` */
  function HandleIncoming(e: Endpoint): (r: Checked<Endpoint>) {
    if e.readPhase == e.writePhase then Ok(e)
    else
      var w := UpdateWriteCipher(e, e.readPhase);
      if w.CheckFailed? then CheckFailed else Ok(InstallNextRead(w.value).(firstUpdateCount := None))
  }

  predicate WantsUpdate(e: Endpoint, s: Settings) {
    && s.initiate && !(s.deferToPeer && e.firstUpdateCount.Some?)
    && e.sentInPhase > (if e.firstUpdateCount.Some? then e.firstUpdateCount.value else s.interval)
    && CanInitiate(e)
  }

  /** `maybeInitiateKeyUpdate` */
  function Initiate(e: Endpoint, s: Settings): (r: Checked<Endpoint>) {
    if !WantsUpdate(e, s) then Ok(e)
    else
      var e1 := AdvanceReadPhase(e).(firstUpdateCount := None);
      var w := UpdateWriteCipher(e1, e1.readPhase);
      if w.CheckFailed? then CheckFailed
      else Ok(InstallNextRead(w.value).(pendingVerification := true, verificationNum := None))
  }

  /** What processing the acknowledgements of one packet led to. */
  datatype Verified = Verified(endpoint: Endpoint) | WrongPhase

  /** `maybeVerifyPendingKeyUpdate` for each acknowledged packet in turn. */
  function VerifyAcks(e: Endpoint, acked: seq<nat>, ackPhase: nat): (r: Verified)
    decreases acked
  {
    if acked == [] then Verified(e)
    else if e.verificationNum.Some? && acked[0] >= e.verificationNum.value then
      if ackPhase == e.writePhase
      then VerifyAcks(e.(verificationNum := None, pendingVerification := false), acked[1..], ackPhase)
      else WrongPhase
    else VerifyAcks(e, acked[1..], ackPhase)
  }

  /** Some acknowledged packet is the awaited one, or one sent after it. */
  predicate ReachesAwaited(e: Endpoint, acked: seq<nat>) {
    e.verificationNum.Some? && exists n :: n in acked && n >= e.verificationNum.value
  }

  datatype ReadResult = Dropped | Processed(endpoint: Endpoint) | CryptoError | Aborted

  /**
   One received packet: opened, its acknowledgements processed (`acked` are those of its
   acknowledgements whose packets are still outstanding), then a key update of the peer answered.
   */
  function Receive(e: Endpoint, p: Pkt, acked: seq<nat>): (r: ReadResult) {
    if !Opens(e, p) then Dropped
    else
      var v := VerifyAcks(Opened(e, p), acked, p.Phase());
      if v.WrongPhase? then CryptoError
      else
        var h := HandleIncoming(v.endpoint);
        if h.CheckFailed? then Aborted else Processed(h.value)
  }

  /** `updateConnection` for a short header packet: the phase counter and the packet to be verified. */
  function Record(e: Endpoint, skip: nat): (r: Endpoint) {
    e.(verificationNum := if e.pendingVerification && e.sentInPhase == 0 then Some(e.nextPacketNum) else e.verificationNum,
       sentInPhase := e.sentInPhase + 1,
       nextPacketNum := e.nextPacketNum + 1 + skip)
  }

  function Built(e: Endpoint, acks: seq<nat>): (p: Pkt) { Pkt(e.nextPacketNum, e.writeCipher, acks) }

  // ------------------------------------------------------------------ two endpoints and a network

  /** `sentA` and `sentB` are all packets ever sent; the network may deliver any of them at any time, any number of times. */
  datatype Sys = Sys(a: Endpoint, b: Endpoint, sentA: set<Pkt>, sentB: set<Pkt>)

  /** The same system with the endpoints exchanged. */
  function Flip(s: Sys): (r: Sys) { Sys(s.b, s.a, s.sentB, s.sentA) }

  datatype Action =
    | Send(acks: seq<nat>, skip: nat)
    | Deliver(packet: Pkt, acked: seq<nat>)
    | Update(settings: Settings)

  datatype Step = AtA(action: Action) | AtB(action: Action)

  datatype Outcome = Next(sys: Sys) | ClosedByError | CheckFails

  /** What an endpoint may do: it acknowledges what it received, and receives what its peer sent. */
  predicate Allowed(s: Sys, action: Action) {
    match action
    case Send(acks, _) => forall n :: n in acks ==> n in s.a.received
    case Deliver(p, acked) => p in s.sentB && forall n :: n in acked ==> n in p.acks
    case Update(_) => true
  }

  function ActAtA(s: Sys, action: Action): (r: Outcome) {
    match action
    case Send(acks, skip) => Next(s.(a := Record(s.a, skip), sentA := s.sentA + {Built(s.a, acks)}))
    case Deliver(p, acked) =>
      (match Receive(s.a, p, acked)
       case Dropped => Next(s)
       case Processed(e) => Next(s.(a := e))
       case CryptoError => ClosedByError
       case Aborted => CheckFails)
    case Update(settings) =>
      var r := Initiate(s.a, settings);
      if r.CheckFailed? then CheckFails else Next(s.(a := r.value))
  }

  predicate Enabled(s: Sys, step: Step) {
    match step
    case AtA(action) => Allowed(s, action)
    case AtB(action) => Allowed(Flip(s), action)
  }

  function Do(s: Sys, step: Step): (r: Outcome) {
    match step
    case AtA(action) => ActAtA(s, action)
    case AtB(action) =>
      var r := ActAtA(Flip(s), action);
      if r.Next? then Next(Flip(r.sys)) else r
  }

  ghost predicate Start(s: Sys) {
    exists f, g :: s == Sys(Fresh(f), Fresh(g), {}, {})
  }

  /** `s` can be reached from two fresh endpoints by `steps`. */
  ghost predicate Reaches(steps: seq<Step>, s: Sys) {
    if steps == [] then Start(s)
    else
      var last := steps[|steps| - 1];
      exists r: Sys :: Reaches(steps[..|steps| - 1], r) && Enabled(r, last) && Do(r, last) == Next(s)
  }

  // ------------------------------------------------------------------ invariant

  /** The state of one endpoint between two events: reading and writing in the same epoch, the next read key installed. */
  ghost predicate Steady(e: Endpoint) {
    && e.readPhase == e.currentRead % 2 && e.writePhase == e.writeCipher % 2
    && e.currentRead == e.writeCipher
    && e.nextRead == Some(e.currentRead + 1)
    && e.previousRead == (if e.currentRead == 0 then None else Some(e.currentRead - 1))
    && e.nextReadToDerive == e.currentRead + 2 && e.nextWriteToDerive == e.writeCipher + 1
    && (e.verificationNum.Some? ==> e.pendingVerification)
    && (e.pendingVerification ==> e.writeCipher > 0)
  }

  /** Packet numbers identify packets and never go back to an older epoch. */
  ghost predicate SentInOrder(e: Endpoint, sent: set<Pkt>) {
    && (forall p :: p in sent ==> p.num < e.nextPacketNum && p.epoch <= e.writeCipher)
    && (forall p, q :: p in sent && q in sent && p.num <= q.num ==> p.epoch <= q.epoch)
    && (forall p, q :: p in sent && q in sent && p.num == q.num ==> p == q)
  }

  ghost function InPhase(e: Endpoint, sent: set<Pkt>): set<Pkt> { set p | p in sent && p.epoch == e.writeCipher }

  /** The recorded start of the current read phase is a packet of that phase (or the initial 0 of epoch 0). */
  ghost predicate StartOk(e: Endpoint, peerSent: set<Pkt>) {
    e.readPhaseStart.Some? ==>
      || (e.currentRead == 0 && e.readPhaseStart.value == 0)
      || exists p :: p in peerSent && p.num == e.readPhaseStart.value && p.epoch == e.currentRead
  }

  ghost predicate ReceivedOk(e: Endpoint, peerSent: set<Pkt>) {
    forall n :: n in e.received ==> exists p :: p in peerSent && p.num == n && p.epoch <= e.currentRead
  }

  /** A packet acknowledges only packets protected with keys no newer than its own. */
  ghost predicate AcksOk(sent: set<Pkt>, peerSent: set<Pkt>) {
    forall p, n :: p in sent && n in p.acks ==> exists q :: q in peerSent && q.num == n && q.epoch <= p.epoch
  }

  /** The packet whose acknowledgement is awaited started the phase in use, or the phase before while nothing was sent in this one. */
  ghost predicate VerificationOk(e: Endpoint, sent: set<Pkt>) {
    e.verificationNum.Some? ==>
      forall p :: p in sent ==>
        (p.num >= e.verificationNum.value <==> p.epoch == if e.sentInPhase > 0 then e.writeCipher else e.writeCipher - 1)
  }

  /** The half of the invariant that is about endpoint `x` with peer `y`. */
  ghost predicate Half(x: Endpoint, y: Endpoint, sentX: set<Pkt>, sentY: set<Pkt>) {
    && Steady(x) && SentInOrder(x, sentX)
    && x.sentInPhase == |InPhase(x, sentX)|
    && StartOk(x, sentY) && ReceivedOk(x, sentY) && AcksOk(sentX, sentY)
    && VerificationOk(x, sentX)
    && x.writeCipher <= y.writeCipher + 1
    && (x.writeCipher == y.writeCipher + 1 && y.writeCipher > 0 ==> y.sentInPhase > 0)
  }

  ghost predicate Inv(s: Sys) {
    Half(s.a, s.b, s.sentA, s.sentB) && Half(s.b, s.a, s.sentB, s.sentA)
  }
}
