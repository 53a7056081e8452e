/**
 The three places a sent stream's bytes can be (quic/state/StreamData.h and the
 `handle*Written` functions of quic/api/QuicTransportFunctions.cpp): the queue of
 bytes not yet sent, the retransmission buffer of bytes in flight, and the loss
 buffer of bytes declared lost. The FIN of a stream counts as one virtual byte
 that follows the last data byte.
 */
module SendBuffers {
  import opened Prelude

  /** `WriteStreamBuffer`: a run of stream bytes, with the FIN after them when `eof`. */
  datatype Buf = Buf(offset: nat, data: seq<bv8>, eof: bool) {
    /** One past the last position the buffer holds, the FIN counted. */
    function End(): nat { offset + |data| + if eof then 1 else 0 }

    predicate Covers(i: int) { offset <= i < End() }

    /** Neither data nor FIN: nothing that could be put in a frame. */
    predicate Husk() { data == [] && !eof }
  }

  /** `WriteStreamFrame`: what one STREAM frame of a packet carried. */
  datatype Frame = Frame(offset: nat, len: nat, fin: bool)

  /** The `count` stream positions from `offset` on. */
  function Span(offset: nat, count: nat): (r: set<int>)
    ensures forall i :: i in r <==> offset <= i < offset + count
  {
    if count == 0 then {} else Span(offset, count - 1) + {offset + count - 1}
  }

  /** The positions a frame carries. */
  function Positions(f: Frame): (r: set<int>) {
    Span(f.offset, f.len + if f.fin then 1 else 0)
  }

  /**
   The send side of a stream. `acked` is the set of positions that
   `ackedIntervals` holds; `app` records every byte the application has written.
   */
  datatype Stream = Stream(
    app: seq<bv8>,
    pendingWrites: seq<bv8>,
    currentWriteOffset: nat,
    finalWriteOffset: Option<nat>,
    retransmissionBuffer: map<nat, Buf>,
    lossBuffer: seq<Buf>,
    acked: set<int>)

  /** Which of the three kinds of write a frame turned out to be. */
  datatype WriteKind = NewData | Retransmission | CloneWrite | OffsetError

  const INITIAL_STREAM := Stream([], [], 0, None, map[], [], {})

  // ------------------------------------------------------------------ operations

  /** `writeDataToQuicStream` on a stream that is still `writable()`. */
  function AppWrite(s: Stream, data: seq<bv8>, eof: bool): (r: Stream) {
    var pending := s.pendingWrites + data;
    s.(app := s.app + data,
       pendingWrites := pending,
       finalWriteOffset := if eof then Some(s.currentWriteOffset + |pending|) else s.finalWriteOffset)
  }

  /** `splitAtMost`: the bytes taken from the front of a queue. */
  function Taken(q: seq<bv8>, n: nat): (r: seq<bv8>) { if n <= |q| then q[..n] else q }

  /** `splitAtMost`: the bytes left in the queue. */
  function Left(q: seq<bv8>, n: nat): (r: seq<bv8>) { if n <= |q| then q[n..] else [] }

  /** `retransmissionBuffer.emplace(...)` under its CHECK that the key was free. */
  function Emplace(s: Stream, b: Buf): (r: Checked<Stream>) {
    if b.offset in s.retransmissionBuffer then CheckFailed
    else Ok(s.(retransmissionBuffer := s.retransmissionBuffer[b.offset := b]))
  }

  function HandleNewStreamDataWritten(s: Stream, f: Frame): (r: Checked<Stream>) {
    Emplace(s.(currentWriteOffset := s.currentWriteOffset + f.len + (if f.fin then 1 else 0),
               pendingWrites := Left(s.pendingWrites, f.len)),
            Buf(s.currentWriteOffset, Taken(s.pendingWrites, f.len), f.fin))
  }

  function HandleRetransmissionWritten(s: Stream, f: Frame, k: nat): (r: Checked<Stream>)
    requires k < |s.lossBuffer|
  {
    var b := s.lossBuffer[k];
    if f.len == |b.data| && f.fin == b.eof then
      Emplace(s.(lossBuffer := s.lossBuffer[..k] + s.lossBuffer[k + 1..]), Buf(f.offset, b.data, f.fin))
    else
      Emplace(s.(lossBuffer := s.lossBuffer[k := Buf(b.offset + f.len, Left(b.data, f.len), b.eof)]),
              Buf(f.offset, Taken(b.data, f.len), f.fin))
  }

  /** `std::lower_bound` on buffer offsets: the first index, from `i` on, whose offset is not below `offset`. */
  function LowerBound(q: seq<Buf>, offset: nat, i: nat := 0): (k: nat)
    requires i <= |q|
    ensures i <= k <= |q|
    ensures forall j :: i <= j < k ==> q[j].offset < offset
    ensures k < |q| ==> q[k].offset >= offset
    decreases |q| - i
  {
    if i == |q| || q[i].offset >= offset then i else LowerBound(q, offset, i + 1)
  }

  /** `handleStreamWritten`: the branch is picked by comparing offsets alone. */
  function HandleStreamWritten(s: Stream, f: Frame): (r: (Checked<Stream>, WriteKind)) {
    if f.offset == s.currentWriteOffset then (HandleNewStreamDataWritten(s, f), NewData)
    else if f.offset > s.currentWriteOffset then (Ok(s), OffsetError)
    else
      var k := LowerBound(s.lossBuffer, f.offset);
      if k < |s.lossBuffer| && s.lossBuffer[k].offset == f.offset then
        (HandleRetransmissionWritten(s, f, k), Retransmission)
      else (Ok(s), CloneWrite)
  }

  /** `insertIntoLossBuffer`: merge with the predecessor when adjacent, else insert in order. */
  function InsertIntoLossBuffer(q: seq<Buf>, b: Buf): (r: seq<Buf>) {
    var k := LowerBound(q, b.offset + 1);
    if k > 0 && q[k - 1].offset + |q[k - 1].data| == b.offset then
      q[k - 1 := Buf(q[k - 1].offset, q[k - 1].data + b.data, b.eof)]
    else q[..k] + [b] + q[k..]
  }

  /** `markPacketLoss` for one STREAM frame. */
  function LoseFrame(s: Stream, f: Frame): (r: Stream) {
    if f.offset !in s.retransmissionBuffer then s
    else s.(lossBuffer := InsertIntoLossBuffer(s.lossBuffer, s.retransmissionBuffer[f.offset]),
            retransmissionBuffer := s.retransmissionBuffer - {f.offset})
  }

  /** `sendAckSMHandler` for one STREAM frame, with its three equality CHECKs and the empty-frame FATAL. */
  function AckFrame(s: Stream, f: Frame): (r: Checked<Stream>) {
    if f.offset !in s.retransmissionBuffer then Ok(s)
    else
      var b := s.retransmissionBuffer[f.offset];
      if f.offset != b.offset || f.len != |b.data| || f.fin != b.eof || (f.len == 0 && !f.fin) then CheckFailed
      else Ok(s.(acked := s.acked + Positions(f),
                 retransmissionBuffer := s.retransmissionBuffer - {f.offset}))
  }

  /** `allBytesTillFinAcked`, the test on which the send state becomes Closed. */
  predicate AllBytesTillFinAcked(s: Stream) {
    && s.finalWriteOffset.Some? && s.currentWriteOffset > s.finalWriteOffset.value
    && s.retransmissionBuffer == map[] && s.pendingWrites == [] && s.lossBuffer == []
  }

  // ------------------------------------------------------------------ invariant

  /** The buffer holds exactly the application's bytes for its positions, all of them sent before. */
  ghost predicate BufOk(s: Stream, b: Buf) {
    && b.offset + |b.data| <= |s.app|
    && b.data == s.app[b.offset..b.offset + |b.data|]
    && (b.eof ==> s.finalWriteOffset.Some? && b.offset + |b.data| == |s.app|)
    && !b.Husk()
    && b.End() <= s.currentWriteOffset
  }

  ghost predicate Apart(a: Buf, b: Buf) { a.End() <= b.offset || b.End() <= a.offset }

  ghost predicate PendingOk(s: Stream) {
    && (s.finalWriteOffset.Some? ==> s.finalWriteOffset.value == |s.app|)
    && (if s.currentWriteOffset <= |s.app| then s.pendingWrites == s.app[s.currentWriteOffset..]
        else s.currentWriteOffset == |s.app| + 1 && s.finalWriteOffset.Some? && s.pendingWrites == [])
  }

  ghost predicate RetxOk(s: Stream) {
    && (forall k :: k in s.retransmissionBuffer ==>
          s.retransmissionBuffer[k].offset == k && BufOk(s, s.retransmissionBuffer[k]))
    && (forall k, m :: k in s.retransmissionBuffer && m in s.retransmissionBuffer && k != m ==>
          Apart(s.retransmissionBuffer[k], s.retransmissionBuffer[m]))
  }

  ghost predicate Sorted(q: seq<Buf>) {
    forall i, j :: 0 <= i < j < |q| ==> q[i].End() <= q[j].offset
  }

  ghost predicate LossOk(s: Stream) {
    && (forall i :: 0 <= i < |s.lossBuffer| ==> BufOk(s, s.lossBuffer[i]))
    && Sorted(s.lossBuffer)
  }

  ghost predicate RetxLossApart(s: Stream) {
    forall k, i :: k in s.retransmissionBuffer && 0 <= i < |s.lossBuffer| ==>
      Apart(s.retransmissionBuffer[k], s.lossBuffer[i])
  }

  ghost predicate InFlight(s: Stream, x: int) {
    exists k :: k in s.retransmissionBuffer && s.retransmissionBuffer[k].Covers(x)
  }

  ghost predicate Lost(s: Stream, x: int) {
    exists i :: 0 <= i < |s.lossBuffer| && s.lossBuffer[i].Covers(x)
  }

  /** No position that was ever sent is forgotten. */
  ghost predicate Covered(s: Stream) {
    forall x :: 0 <= x < s.currentWriteOffset ==> x in s.acked || InFlight(s, x) || Lost(s, x)
  }

  ghost predicate AckedSent(s: Stream) {
    forall x :: x in s.acked ==> 0 <= x < s.currentWriteOffset
  }

  ghost predicate StreamInv(s: Stream) {
    PendingOk(s) && RetxOk(s) && LossOk(s) && RetxLossApart(s) && Covered(s) && AckedSent(s)
  }

  /** Nothing acknowledged is still held for retransmission. */
  ghost predicate AckedReleased(s: Stream) {
    forall x :: x in s.acked ==> !InFlight(s, x) && !Lost(s, x)
  }
}
