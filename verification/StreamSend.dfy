/**
 A stream's send buffers together with the packets that carry its frames
 (quic/state/AckHandlers.cpp, quic/loss/QuicLossFunctions.cpp,
 quic/codec/QuicPacketRebuilder.cpp, quic/api/QuicTransportFunctions.cpp).
 A packet may be cloned; a packet and its clones share one identifier, and the
 first of them that is acknowledged or declared lost is processed for all.
 */
module StreamSend {
  import opened Prelude
  import opened SendBuffers
  import opened SendBufferProofs

  /** An outstanding packet: its frames on this stream, in the order they were written. */
  datatype Packet = Packet(frames: seq<Frame>, cloneId: Option<nat>, declaredLost: bool)

  /** `packets`, `clonedPacketIdentifiers` and the three counters of `OutstandingsInfo`. */
  datatype Conn = Conn(
    stream: Stream,
    packets: map<nat, Packet>,
    cloneIds: set<nat>,
    nextPacketNum: nat,
    packetCount: nat,
    clonedPacketCount: nat,
    declaredLostCount: nat)

  const INITIAL_CONN := Conn(INITIAL_STREAM, map[], {}, 0, 0, 0, 0)

  // ------------------------------------------------------------------ frames of one packet

  /** `handleStreamWritten` for every frame of a packet; an internal error ends the run like a failed CHECK. */
  function WriteFrames(s: Stream, fs: seq<Frame>): (r: Checked<Stream>)
    decreases fs
  {
    if fs == [] then Ok(s)
    else
      var (w, kind) := HandleStreamWritten(s, fs[0]);
      if w.CheckFailed? || kind == OffsetError then CheckFailed else WriteFrames(w.value, fs[1..])
  }

  function AckFrames(s: Stream, fs: seq<Frame>): (r: Checked<Stream>)
    decreases fs
  {
    if fs == [] then Ok(s)
    else
      var a := AckFrame(s, fs[0]);
      if a.CheckFailed? then CheckFailed else AckFrames(a.value, fs[1..])
  }

  function LoseFrames(s: Stream, fs: seq<Frame>): (r: Stream)
    decreases fs
  {
    if fs == [] then s else LoseFrames(LoseFrame(s, fs[0]), fs[1..])
  }

  /**
   The frames `writeStreamLossBuffers` builds from the entries `q`: one per entry as long as the
   packet grants space, `grants[i]` bytes of entry `i`, with the FIN when the whole entry fits.
   */
  function LossFrames(q: seq<Buf>, grants: seq<nat>): (fs: seq<Frame>)
    requires |grants| <= |q|
    ensures |fs| == |grants|
  {
    if grants == [] then []
    else [Frame(q[0].offset, grants[0], q[0].eof && grants[0] == |q[0].data|)] + LossFrames(q[1..], grants[1..])
  }

  /** What `writeStreamFrameHeader` grants an entry: no more than its data, and never an empty frame without FIN. */
  predicate Granted(q: seq<Buf>, grants: seq<nat>) {
    && |grants| <= |q|
    && forall i :: 0 <= i < |grants| ==> grants[i] <= |q[i].data| && (grants[i] > 0 || (q[i].eof && |q[i].data| == 0))
  }

  /** The frame `writeStreamFrame` builds from `grant` bytes of the pending writes. */
  function NewFrame(s: Stream, grant: nat): (f: Frame) {
    Frame(s.currentWriteOffset, grant, s.finalWriteOffset.Some? && grant == |s.pendingWrites|)
  }

  predicate NewGranted(s: Stream, grant: nat) {
    && grant <= |s.pendingWrites|
    && (s.pendingWrites != [] || (s.finalWriteOffset.Some? && s.currentWriteOffset <= s.finalWriteOffset.value))
    && (grant > 0 || NewFrame(s, grant).fin)
  }

  /** One STREAM frame rewritten by `rebuildFromPacket`; `None` when the packet is not cloned after all. */
  function RebuildFrame(s: Stream, f: Frame): (r: Option<Frame>) {
    var bufferLen := if f.len > 0 && f.offset in s.retransmissionBuffer
                     then |s.retransmissionBuffer[f.offset].data| else 0;
    if (bufferLen == 0 && !f.fin) || bufferLen != f.len then None else Some(Frame(f.offset, bufferLen, f.fin))
  }

  function RebuildFrames(s: Stream, fs: seq<Frame>): (r: Option<seq<Frame>>) {
    if fs == [] then Some([])
    else
      var f, rest := RebuildFrame(s, fs[0]), RebuildFrames(s, fs[1..]);
      if f.None? || rest.None? then None else Some([f.value] + rest.value)
  }

  // ------------------------------------------------------------------ packets

  /** Not declared lost, and not processed through one of its clones. */
  predicate Live(c: Conn, n: nat) {
    && n in c.packets && !c.packets[n].declaredLost
    && (c.packets[n].cloneId.Some? ==> c.packets[n].cloneId.value in c.cloneIds)
  }

  /** What identifies a packet together with its clones. */
  function Group(c: Conn, n: nat): (g: nat)
    requires n in c.packets
  {
    if c.packets[n].cloneId.Some? then c.packets[n].cloneId.value else n
  }

  /** `updateConnection` for a packet that is not a clone. */
  function SendPacket(c: Conn, fs: seq<Frame>): (r: Checked<Conn>) {
    var w := WriteFrames(c.stream, fs);
    if w.CheckFailed? then CheckFailed
    else Ok(c.(stream := w.value,
               packets := c.packets[c.nextPacketNum := Packet(fs, None, false)],
               nextPacketNum := c.nextPacketNum + 1,
               packetCount := c.packetCount + 1))
  }

  /** `cloneOutstandingPacket`, then `updateConnection` for the clone. A rebuild that fails sends nothing. */
  function ClonePacket(c: Conn, n: nat): (r: Checked<Conn>)
    requires n in c.packets
  {
    var p, g := c.packets[n], Group(c, n);
    var fs := RebuildFrames(c.stream, p.frames);
    if fs.None? then Ok(c)
    else
      var w := WriteFrames(c.stream, fs.value);
      if w.CheckFailed? then CheckFailed
      else Ok(c.(stream := w.value,
                 packets := c.packets[n := p.(cloneId := Some(g))]
                                     [c.nextPacketNum := Packet(fs.value, Some(g), false)],
                 cloneIds := c.cloneIds + {g},
                 nextPacketNum := c.nextPacketNum + 1,
                 clonedPacketCount := c.clonedPacketCount + if p.cloneId.None? then 2 else 1))
  }

  /** Erase a packet's identifier from `clonedPacketIdentifiers`. */
  function EraseId(c: Conn, n: nat): (r: set<nat>)
    requires n in c.packets
  {
    if c.packets[n].cloneId.Some? then c.cloneIds - {c.packets[n].cloneId.value} else c.cloneIds
  }

  /** The part of `processAckFrame` and of `processOutstandingsForLoss` that counts a packet out, with its CHECKs. */
  function CountOut(c: Conn, n: nat): (r: Checked<Conn>)
    requires n in c.packets
  {
    var cloned := c.packets[n].cloneId.Some?;
    if (Live(c, n) && c.packetCount == 0) || (cloned && c.clonedPacketCount == 0) then CheckFailed
    else Ok(c.(cloneIds := EraseId(c, n),
               packetCount := c.packetCount - (if Live(c, n) then 1 else 0),
               clonedPacketCount := c.clonedPacketCount - (if cloned then 1 else 0)))
  }

  /** An acknowledged packet that was not declared lost (`processAckFrame`, then `removeOutstandingsForAck`). */
  function AckPacket(c: Conn, n: nat): (r: Checked<Conn>)
    requires n in c.packets
  {
    var a := if Live(c, n) then AckFrames(c.stream, c.packets[n].frames) else Ok(c.stream);
    var d := CountOut(c, n);
    if a.CheckFailed? || d.CheckFailed? then CheckFailed
    else Ok(d.value.(stream := a.value, packets := c.packets - {n}))
  }

  /** A packet declared lost by `processOutstandingsForLoss`. */
  function LosePacket(c: Conn, n: nat): (r: Checked<Conn>)
    requires n in c.packets
  {
    var s := if Live(c, n) then LoseFrames(c.stream, c.packets[n].frames) else c.stream;
    var d := CountOut(c, n);
    if d.CheckFailed? then CheckFailed
    else Ok(d.value.(stream := s,
                     packets := c.packets[n := c.packets[n].(declaredLost := true)],
                     declaredLostCount := c.declaredLostCount + 1))
  }

  /** A lost packet that is dropped: reaped as too old, or acknowledged after all while the send buffers stay as they are. */
  function DropLostPacket(c: Conn, n: nat): (r: Checked<Conn>) {
    if c.declaredLostCount == 0 then CheckFailed
    else Ok(c.(packets := c.packets - {n}, declaredLostCount := c.declaredLostCount - 1))
  }

  // ------------------------------------------------------------------ runs

  datatype Step =
    | Write(data: seq<bv8>, eof: bool)
    | Send(lossGrants: seq<nat>, newGrant: Option<nat>)
    | Clone(num: nat)
    | Ack(num: nat)
    | Lose(num: nat)
    | DropLost(num: nat)

  /** The frames the scheduler puts in one packet: retransmissions first, then new data. */
  function Scheduled(s: Stream, lossGrants: seq<nat>, newGrant: Option<nat>): (fs: seq<Frame>)
    requires |lossGrants| <= |s.lossBuffer|
  {
    LossFrames(s.lossBuffer, lossGrants) + if newGrant.Some? then [NewFrame(s, newGrant.value)] else []
  }

  /** When the transport takes the step at all. */
  predicate Enabled(c: Conn, step: Step) {
    match step
    case Write(_, _) => c.stream.finalWriteOffset.None?
    case Send(grants, grant) =>
      Granted(c.stream.lossBuffer, grants) && (grant.Some? ==> NewGranted(c.stream, grant.value))
    case Clone(n) => Live(c, n)
    case Ack(n) => n in c.packets && !c.packets[n].declaredLost
    case Lose(n) => n in c.packets && !c.packets[n].declaredLost
    case DropLost(n) => n in c.packets && c.packets[n].declaredLost
  }

  function Next(c: Conn, step: Step): (r: Checked<Conn>)
    requires Enabled(c, step)
  {
    match step
    case Write(data, eof) => Ok(c.(stream := AppWrite(c.stream, data, eof)))
    case Send(grants, grant) => SendPacket(c, Scheduled(c.stream, grants, grant))
    case Clone(n) => ClonePacket(c, n)
    case Ack(n) => AckPacket(c, n)
    case Lose(n) => LosePacket(c, n)
    case DropLost(n) => DropLostPacket(c, n)
  }

  /** `c` can be reached from a fresh connection by `steps`, each one enabled and passing its CHECKs. */
  ghost predicate Reaches(steps: seq<Step>, c: Conn) {
    if steps == [] then c == INITIAL_CONN
    else
      var last := steps[|steps| - 1];
      exists b: Conn :: Reaches(steps[..|steps| - 1], b) && Enabled(b, last) && Next(b, last) == Ok(c)
  }

  // ------------------------------------------------------------------ invariant

  function Offsets(fs: seq<Frame>): (r: set<nat>) { set f | f in fs :: f.offset }

  ghost predicate Distinct(fs: seq<Frame>) {
    forall i, j :: 0 <= i < j < |fs| ==> fs[i].offset != fs[j].offset
  }

  ghost predicate AllMatch(s: Stream, fs: seq<Frame>) { forall f :: f in fs ==> Matches(s, f) }

  ghost predicate IdsOk(c: Conn) {
    && (forall n :: n in c.packets ==> n < c.nextPacketNum && Group(c, n) < c.nextPacketNum)
    && (forall g :: g in c.cloneIds ==> g in c.packets && c.packets[g].cloneId == Some(g) && Live(c, g))
    && (forall n :: n in c.packets && Group(c, n) in c.packets && c.packets[n].cloneId.Some? ==>
          c.packets[Group(c, n)].cloneId == Some(Group(c, n)))
  }

  /** Every frame of a live packet is in flight as exactly one buffer of the same length and FIN. */
  ghost predicate LiveMatch(c: Conn) {
    forall n :: Live(c, n) ==> AllMatch(c.stream, c.packets[n].frames) && Distinct(c.packets[n].frames)
  }

  /** Clones carry the same frames; packets that are not clones of each other share no buffer. */
  ghost predicate GroupsOk(c: Conn) {
    forall n, m :: Live(c, n) && Live(c, m) ==>
      if Group(c, n) == Group(c, m) then c.packets[n].frames == c.packets[m].frames
      else Offsets(c.packets[n].frames) !! Offsets(c.packets[m].frames)
  }

  /** Every buffer in flight belongs to a live packet, so an acknowledgement or a loss can still release it. */
  ghost predicate NoOrphans(c: Conn) {
    forall k :: k in c.stream.retransmissionBuffer ==> Owned(c, k)
  }

  ghost predicate Owned(c: Conn, k: nat) {
    exists n :: Live(c, n) && k in Offsets(c.packets[n].frames)
  }

  ghost function LiveGroups(c: Conn): set<nat> { set n | n in c.packets && Live(c, n) :: Group(c, n) }

  ghost function Cloned(c: Conn): set<nat> {
    set n | n in c.packets && !c.packets[n].declaredLost && c.packets[n].cloneId.Some?
  }

  ghost function DeclaredLost(c: Conn): set<nat> { set n | n in c.packets && c.packets[n].declaredLost }

  ghost predicate CountsOk(c: Conn) {
    && c.packetCount == |LiveGroups(c)|
    && c.clonedPacketCount == |Cloned(c)|
    && c.declaredLostCount == |DeclaredLost(c)|
  }

  ghost predicate ConnInv(c: Conn) {
    StreamInv(c.stream) && IdsOk(c) && LiveMatch(c) && GroupsOk(c) && NoOrphans(c) && CountsOk(c)
  }
}
