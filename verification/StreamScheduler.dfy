/**
 Filling a packet with stream frames in priority order (quic/api/QuicPacketScheduler.cpp:
 `writeStreamLossBuffers`, `writeSingleStream`, `writeStreamFrame` and the `writeStreamsHelper`
 over the write queue). Streams here carry no DSR data.
 */
module StreamScheduler {
  import opened Prelude
  import opened Varint
  import opened StreamFrames

  /** One entry of a loss buffer. */
  datatype Lost = Lost(offset: nat, len: nat, eof: bool)

  /** What the scheduler reads of a stream: `window` is what stream flow control still allows. */
  datatype Stream = Stream(id: nat, group: Option<nat>, loss: seq<Lost>, offset: nat, pending: nat, window: nat,
                           finalOffset: Option<nat>) {
    /** `hasWritableData`. */
    predicate HasWritableData(connOpen: bool) {
      if pending > 0 then connOpen && window > 0 else finalOffset.Some? && offset <= finalOffset.value
    }
    /** Sizes a varint can hold, with room for the length field. */
    predicate Small() {
      && id <= EIGHT_BYTE_LIMIT && (group.Some? ==> group.value <= EIGHT_BYTE_LIMIT)
      && offset <= EIGHT_BYTE_LIMIT && pending <= EIGHT_BYTE_LIMIT - 8
      && forall i :: 0 <= i < |loss| ==> loss[i].offset <= EIGHT_BYTE_LIMIT && loss[i].len <= EIGHT_BYTE_LIMIT - 8
    }
  }

  /** A frame put into the packet: `size` is header and data; `isNew` data counts against flow control. */
  datatype Frame = Frame(id: nat, offset: nat, len: nat, fin: bool, size: nat, isNew: bool)

  datatype StreamWriteResult = PacketFull | NotLimited | ConnFlowControlLimited | Failed

  function Sizes(frames: seq<Frame>): nat { if frames == [] then 0 else Sizes(frames[..|frames| - 1]) + frames[|frames| - 1].size }

  function FreshBytes(frames: seq<Frame>): nat {
    if frames == [] then 0
    else FreshBytes(frames[..|frames| - 1]) + if frames[|frames| - 1].isNew then frames[|frames| - 1].len else 0
  }

  lemma Snoc(frames: seq<Frame>, f: Frame)
    ensures Sizes(frames + [f]) == Sizes(frames) + f.size
    ensures FreshBytes(frames + [f]) == FreshBytes(frames) + if f.isNew then f.len else 0
  {
    assert (frames + [f])[..|frames|] == frames;
  }

  lemma {:induction false} Append(a: seq<Frame>, b: seq<Frame>)
    ensures Sizes(a + b) == Sizes(a) + Sizes(b) && FreshBytes(a + b) == FreshBytes(a) + FreshBytes(b)
    decreases |b|
  {
    if b == [] {
      assert a + b == a;
    } else {
      var n := |b| - 1;
      Append(a, b[..n]);
      assert (a + b)[..|a + b| - 1] == a + b[..n];
    }
  }

  /** The frame carries the front of the lost entry, and its end only with all of it. */
  predicate Carries(f: Frame, s: Stream, lost: Lost) {
    && f.id == s.id && f.offset == lost.offset && f.len <= lost.len && !f.isNew
    && (f.fin <==> lost.eof && f.len == lost.len) && (f.len > 0 || f.fin)
  }

  /** The frame carries fresh data within the stream's window and the connection's. */
  predicate CarriesFresh(f: Frame, s: Stream, conn: nat) {
    && f.id == s.id && f.offset == s.offset && f.len <= s.pending && f.len <= s.window && f.len <= conn && f.isNew
    && (f.fin ==> s.finalOffset.Some? && f.len == s.pending) && (f.len > 0 || f.fin)
  }

  /** The request for an entry of the loss buffer; it was counted against flow control when first sent. */
  function LossRequest(s: Stream, l: Lost): Request { Request(s.id, s.group, l.offset, l.len, l.len, l.eof) }

  function FreshRequest(s: Stream, conn: nat): Request {
    var flowControl := Min(s.window, conn);
    Request(s.id, s.group, s.offset, s.pending, flowControl, s.finalOffset.Some? && s.pending <= flowControl)
  }

  /** The frame a request gets into the space, if any. */
  function FrameFor(q: Request, space: nat, isNew: bool): (r: Option<Frame>) {
    var w := WriteHeader(q, space, None);
    if w.Header? then Some(Frame(q.id, q.offset, w.dataLen, w.fin, |w.bytes| + w.dataLen, isNew)) else None
  }

  // ------------------------------------------------------------------ which frame a request gets

  /** The bytes a request could send: what is buffered, as far as flow control allows. */
  function Wanted(q: Request): nat { Min(q.bufferLen, q.flowControlLen) }

  /** The frame of a request with something to send, in closed form: none exactly when the fixed fields leave no byte. */
  function Fit(q: Request, space: nat, isNew: bool): (r: Option<Frame>)
    requires Encodes(q) && q.offset <= EIGHT_BYTE_LIMIT && q.bufferLen <= EIGHT_BYTE_LIMIT
  {
    if space <= HeaderSize(q) then None
    else
      var room := space - HeaderSize(q);
      var n := DataIn(Wanted(q), room);
      Some(Frame(q.id, q.offset, n, q.fin && n == q.bufferLen,
                 HeaderSize(q) + n + (if Wanted(q) < room then Size(n).value else 0), isNew))
  }

  lemma FitsExactly(q: Request, space: nat, isNew: bool)
    requires space < 0x1_0000_0000 && Encodes(q) && q.offset <= EIGHT_BYTE_LIMIT && q.bufferLen <= EIGHT_BYTE_LIMIT - 8
    requires Wanted(q) > 0 || (q.bufferLen == 0 && q.fin)
    ensures FrameFor(q, space, isNew) == Fit(q, space, isNew)
    ensures Fit(q, space, isNew).Some? ==> Fit(q, space, isNew).value.size <= space
  {
    hide WriteHeader, HeaderBytes, HeaderSize, DataIn;
    FrameExactly(q, space);
    if space > HeaderSize(q) {
      var room := space - HeaderSize(q);
      var n := DataIn(Wanted(q), room);
      HeaderLength(q, n, q.fin && n == q.bufferLen, Wanted(q) < room);
      WrittenFrameFits(q, space, None);
    }
  }

  /** What one stream puts into a packet, and what it leaves of the packet and of the connection's window. */
  datatype Written = Written(frames: seq<Frame>, left: nat, conn: nat, result: StreamWriteResult)

  /** The frames of the loss entries from `k` on, one each until one gets none. */
  function LossFrames(s: Stream, k: nat, space: nat): (r: seq<Frame>)
    requires k <= |s.loss|
    ensures |r| <= |s.loss| - k
    decreases |s.loss| - k
  {
    if k == |s.loss| then []
    else
      var f := FrameFor(LossRequest(s, s.loss[k]), space, false);
      if f.None? || f.value.size > space then [] else [f.value] + LossFrames(s, k + 1, space - f.value.size)
  }

  /** An entry that is empty and no FIN, found while there is space, is an error. */
  predicate Broken(s: Stream, k: nat, left: nat) { k < |s.loss| && left > 0 && s.loss[k].len == 0 && !s.loss[k].eof }

  /** What `writeSingleStream` does. */
  function SingleStream(s: Stream, space: nat, conn: nat): (r: Written) {
    var frames := LossFrames(s, 0, space);
    var left := if Sizes(frames) <= space then space - Sizes(frames) else 0;
    if Broken(s, |frames|, left) then Written(frames, left, conn, Failed)
    else if s.loss != [] && frames == [] then Written(frames, left, conn, PacketFull)
    else if !s.HasWritableData(true) then Written(frames, left, conn, NotLimited)
    else if conn == 0 && !s.HasWritableData(false) then Written(frames, left, conn, ConnFlowControlLimited)
    else
      var f := FrameFor(FreshRequest(s, conn), left, true);
      if f.None? || f.value.size > left || f.value.len > conn then Written(frames, left, conn, PacketFull)
      else
        var conn' := conn - f.value.len;
        Written(frames + [f.value], left - f.value.size, conn', if conn' == 0 then ConnFlowControlLimited else NotLimited)
  }

  // ------------------------------------------------------------------ what one stream gets, without the loop

  /** Loss entry `k` found `space` bytes in the packet and got frame `f`. */
  predicate GetsFrame(s: Stream, k: nat, space: nat, f: Frame)
    requires k < |s.loss| && s.Small()
  {
    && (s.loss[k].len > 0 || s.loss[k].eof) && Fit(LossRequest(s, s.loss[k]), space, false) == Some(f)
  }

  /** The space behind the first `k` frames. */
  function SpaceAt(frames: seq<Frame>, k: nat, space: nat): (r: nat)
    requires k <= |frames|
  {
    if Sizes(frames[..k]) <= space then space - Sizes(frames[..k]) else 0
  }

  /** There is fresh data that both windows allow, or a FIN to send. */
  predicate Wants(s: Stream, conn: nat) { s.HasWritableData(conn > 0) }

  /** Space `left` is no more than the fixed fields of loss entry `k`. */
  predicate NoRoomFor(s: Stream, k: nat, left: nat)
    requires k < |s.loss| && s.Small()
  {
    left <= HeaderSize(LossRequest(s, s.loss[k]))
  }

  /** The first `m` loss entries got a frame each, and the next did not. */
  ghost predicate LossOutcome(frames: seq<Frame>, s: Stream, space: nat, m: nat)
    requires s.Small()
  {
    && m <= |s.loss| && m <= |frames|
    && (forall k :: 0 <= k < m ==> GetsFrame(s, k, SpaceAt(frames, k, space), frames[k]))
    && (m < |s.loss| ==> Broken(s, m, SpaceAt(frames, m, space)) || NoRoomFor(s, m, SpaceAt(frames, m, space)))
  }

  /**
   Behind `m` frames for lost entries and with `left` bytes of space: fresh data got its frame, and the result says why
   it ended. That is an entry that should not be there, a packet without a byte for the first lost entry or for the
   fresh data, or nothing more that may be sent.
   */
  predicate FreshOutcome(w: Written, s: Stream, conn: nat, m: nat, left: nat)
    requires s.Small()
  {
    && m <= |w.frames|
    && match w.result {
         case Failed => Broken(s, m, left) && |w.frames| == m
         case PacketFull =>
           && !Broken(s, m, left) && |w.frames| == m
           && ((s.loss != [] && m == 0) || (Wants(s, conn) && left <= HeaderSize(FreshRequest(s, conn))))
         case _ =>
           && !Broken(s, m, left) && (s.loss != [] ==> m > 0)
           && (if Wants(s, conn)
               then |w.frames| == m + 1 && Fit(FreshRequest(s, conn), left, true) == Some(w.frames[m])
               else |w.frames| == m)
           && (w.result == ConnFlowControlLimited <==> s.HasWritableData(true) && w.conn == 0)
       }
  }

  ghost predicate OutcomeAt(w: Written, s: Stream, space: nat, conn: nat, m: nat)
    requires s.Small()
  {
    LossOutcome(w.frames, s, space, m) && FreshOutcome(w, s, conn, m, SpaceAt(w.frames, m, space))
  }

  lemma {:induction false} LossFitAt(s: Stream, k: nat, space: nat, i: nat)
    requires s.Small() && space < 0x1_0000_0000 && k <= |s.loss| && i < |LossFrames(s, k, space)|
    ensures var fs := LossFrames(s, k, space);
            Sizes(fs[..i]) <= space && GetsFrame(s, k + i, space - Sizes(fs[..i]), fs[i])
    decreases i
  {
    hide FrameFor, Fit, Sizes;
    var fs := LossFrames(s, k, space);
    LossStep(s, k, space);
    LossFirst(s, k, space);
    if i == 0 {
      assert fs[..0] == [] && Sizes([]) == 0 by { NoFrames(); }
    } else {
      var (f, tail) := (fs[0], LossFrames(s, k + 1, space - fs[0].size));
      assert fs == [f] + tail;
      LossFitAt(s, k + 1, space - f.size, i - 1);
      assert fs[..i] == [f] + tail[..i - 1];
      SizesFront(f, tail[..i - 1]);
    }
  }

  lemma SizesFront(f: Frame, fs: seq<Frame>)
    ensures Sizes([f] + fs) == f.size + Sizes(fs)
  {
    Append([f], fs);
    Snoc([], f);
    assert [] + [f] == [f];
  }

  /** The first entry gets a frame exactly when it may be sent and fits. */
  lemma LossFirst(s: Stream, k: nat, space: nat)
    requires s.Small() && space < 0x1_0000_0000 && k < |s.loss|
    ensures var f := FrameFor(LossRequest(s, s.loss[k]), space, false);
            if f.Some? then f.value.size <= space && GetsFrame(s, k, space, f.value)
            else Broken(s, k, space) || NoRoomFor(s, k, space)
  {
    var q := LossRequest(s, s.loss[k]);
    hide FrameFor, Fit;
    if s.loss[k].len > 0 || s.loss[k].eof {
      FitsExactly(q, space, false);
      assert Fit(q, space, false).None? <==> space <= HeaderSize(q) by { FitNone(q, space, false); }
    } else if space == 0 {
      NoFrameFor(q, 0);
    } else {
      EmptyIsRefused(q, space);
      NoFrameFor(q, space);
    }
  }

  lemma FitNone(q: Request, space: nat, isNew: bool)
    requires Encodes(q) && q.offset <= EIGHT_BYTE_LIMIT && q.bufferLen <= EIGHT_BYTE_LIMIT
    ensures Fit(q, space, isNew).None? <==> space <= HeaderSize(q)
  {
  }

  lemma NoFrameFor(q: Request, space: nat)
    requires space == 0 || WriteHeader(q, space, None) == Refused
    ensures FrameFor(q, space, false) == None
  {
  }

  lemma {:induction false} LossEndsAt(s: Stream, k: nat, space: nat)
    requires s.Small() && space < 0x1_0000_0000 && k <= |s.loss|
    ensures var fs := LossFrames(s, k, space);
            && Sizes(fs) <= space
            && (k + |fs| < |s.loss| ==>
                  Broken(s, k + |fs|, space - Sizes(fs)) || NoRoomFor(s, k + |fs|, space - Sizes(fs)))
    decreases |s.loss| - k
  {
    hide FrameFor, Fit, Sizes, Broken, NoRoomFor;
    var fs := LossFrames(s, k, space);
    if k == |s.loss| {
      NoFrames();
    } else {
      LossStep(s, k, space);
      LossFirst(s, k, space);
      if fs == [] {
        NoFrames();
      } else {
        var (f, tail) := (fs[0], LossFrames(s, k + 1, space - fs[0].size));
        assert fs == [f] + tail;
        LossEndsAt(s, k + 1, space - f.size);
        SizesFront(f, tail);
      }
    }
  }

  lemma LossFramesOutcome(s: Stream, space: nat, frames: seq<Frame>)
    requires s.Small() && space < 0x1_0000_0000 && LossFrames(s, 0, space) <= frames
    ensures var m := |LossFrames(s, 0, space)|;
            LossOutcome(frames, s, space, m) && Sizes(frames[..m]) <= space
  {
    hide FrameFor, Fit, Sizes, LossFrames, Broken, NoRoomFor, GetsFrame;
    var fs := LossFrames(s, 0, space);
    LossEndsAt(s, 0, space);
    assert frames[..|fs|] == fs;
    forall k | 0 <= k < |fs| ensures GetsFrame(s, k, SpaceAt(frames, k, space), frames[k]) {
      LossFitAt(s, 0, space, k);
      assert frames[..k] == fs[..k] && frames[k] == fs[k];
    }
  }

  /** What `writeSingleStream` does, exactly. */
  lemma SingleStreamOutcome(s: Stream, space: nat, conn: nat)
    requires s.Small() && space < 0x1_0000_0000
    ensures OutcomeAt(SingleStream(s, space, conn), s, space, conn, |LossFrames(s, 0, space)|)
  {
    hide FrameFor, Fit, Sizes, LossFrames, Broken, NoRoomFor, HeaderSize, LossOutcome, FreshRequest;
    var (fs, w) := (LossFrames(s, 0, space), SingleStream(s, space, conn));
    var m := |fs|;
    assert fs <= w.frames && w.frames[..m] == fs;
    LossFramesOutcome(s, space, w.frames);
    if Wants(s, conn) { FreshFit(s, conn, SpaceAt(w.frames, m, space)); }
  }

  lemma FreshFit(s: Stream, conn: nat, left: nat)
    requires s.Small() && left < 0x1_0000_0000 && Wants(s, conn)
    ensures var (q, f) := (FreshRequest(s, conn), FrameFor(FreshRequest(s, conn), left, true));
            && f == Fit(q, left, true) && (f.None? <==> left <= HeaderSize(q))
            && (f.Some? ==> f.value.size <= left && f.value.len <= conn)
  {
    var q := FreshRequest(s, conn);
    FitsExactly(q, left, true);
    FitNone(q, left, true);
    FreshWithin(q, left);
    hide FrameFor, Fit, HeaderSize;
  }

  lemma FreshWithin(q: Request, space: nat)
    requires Encodes(q) && q.offset <= EIGHT_BYTE_LIMIT && q.bufferLen <= EIGHT_BYTE_LIMIT
    ensures Fit(q, space, true).Some? ==> Fit(q, space, true).value.len <= q.flowControlLen
  {
  }

  // ------------------------------------------------------------------ space left means done

  /** How many of a stream's frames carry lost data; a frame of fresh data comes last. */
  function LossCount(frames: seq<Frame>): nat {
    if frames != [] && frames[|frames| - 1].isNew then |frames| - 1 else |frames|
  }

  /** Neither the packet nor an error cut the write short. */
  predicate Unlimited(w: Written) { w.result == NotLimited || w.result == ConnFlowControlLimited }

  /** Every lost entry went out whole, and everything pending that both windows allow. */
  predicate AllSent(w: Written, s: Stream, conn: nat) {
    && |w.frames| == |s.loss| + (if Wants(s, conn) then 1 else 0)
    && (forall k :: 0 <= k < |s.loss| ==> w.frames[k].len == s.loss[k].len && w.frames[k].fin == s.loss[k].eof)
    && (Wants(s, conn) ==> w.frames[|s.loss|].len == Min(s.pending, Min(s.window, conn)))
  }

  /** The request behind frame `k`. */
  function RequestAt(w: Written, s: Stream, conn: nat, k: nat): Request {
    if k < LossCount(w.frames) && k < |s.loss| then LossRequest(s, s.loss[k]) else FreshRequest(s, conn)
  }

  /** Frame `k` was cut short for a length field that then took less room than was kept for it. */
  predicate GapAt(w: Written, s: Stream, space: nat, conn: nat, k: nat)
    requires s.Small() && k < |w.frames|
  {
    LeavesGap(Wanted(RequestAt(w, s, conn, k)), SpaceAt(w.frames, k, space) - HeaderSize(RequestAt(w, s, conn, k)))
  }

  ghost predicate NoGaps(w: Written, s: Stream, space: nat, conn: nat)
    requires s.Small()
  {
    forall k :: 0 <= k < |w.frames| ==> !GapAt(w, s, space, conn, k)
  }

  /** The write is what its result says, and one that leaves space sent all it could exactly when it met every lost entry and left no gap. */
  ghost predicate Exact(w: Written, s: Stream, space: nat, conn: nat)
    requires s.Small()
  {
    && OutcomeAt(w, s, space, conn, LossCount(w.frames))
    && (Unlimited(w) && w.left > 0 ==>
          (AllSent(w, s, conn) <==> LossCount(w.frames) == |s.loss| && NoGaps(w, s, space, conn)))
  }

  lemma FitGap(q: Request, space: nat, isNew: bool)
    requires space < 0x1_0000_0000 && Encodes(q) && q.offset <= EIGHT_BYTE_LIMIT && q.bufferLen <= EIGHT_BYTE_LIMIT - 8
    requires Wanted(q) > 0 || (q.bufferLen == 0 && q.fin)
    ensures var f := Fit(q, space, isNew);
            f.Some? && f.value.size < space ==> (f.value.len < Wanted(q) <==> LeavesGap(Wanted(q), space - HeaderSize(q)))
    ensures var f := Fit(q, space, isNew);
            f.Some? ==> f.value.len <= Wanted(q) && f.value.fin == (q.fin && f.value.len == q.bufferLen) && f.value.isNew == isNew
  {
    FitsExactly(q, space, isNew);
    hide WriteHeader, HeaderBytes, HeaderSize, DataIn, LeavesGap, LengthLength;
    if Fit(q, space, isNew).Some? { SpaceLeftMeansDone(q, space); }
  }

  lemma StepSpace(frames: seq<Frame>, k: nat)
    requires k < |frames|
    ensures Sizes(frames[..k + 1]) == Sizes(frames[..k]) + frames[k].size
  {
    assert frames[..k + 1] == frames[..k] + [frames[k]];
    Snoc(frames[..k], frames[k]);
  }

  lemma LossIsOld(s: Stream, k: nat, space: nat, f: Frame)
    requires k < |s.loss| && s.Small() && GetsFrame(s, k, space, f)
    ensures !f.isNew && space > 0
  {
  }

  lemma FreshIsNew(s: Stream, conn: nat, space: nat)
    requires s.Small()
    ensures var f := Fit(FreshRequest(s, conn), space, true); f.Some? ==> f.value.isNew && space > 0
  {
  }

  lemma CountsLoss(w: Written, s: Stream, space: nat, conn: nat, m: nat)
    requires s.Small() && OutcomeAt(w, s, space, conn, m)
    ensures LossCount(w.frames) == m
  {
    hide Fit, Sizes, GetsFrame, SpaceAt, Broken, NoRoomFor, HeaderSize, FreshRequest;
    if |w.frames| == m && m > 0 {
      LossIsOld(s, m - 1, SpaceAt(w.frames, m - 1, space), w.frames[m - 1]);
    } else if |w.frames| == m + 1 {
      FreshIsNew(s, conn, SpaceAt(w.frames, m, space));
    }
  }

  /** Behind every frame of a write that leaves space there is space. */
  lemma SpaceBehind(w: Written, s: Stream, space: nat, conn: nat, k: nat)
    requires s.Small() && OutcomeAt(w, s, space, conn, LossCount(w.frames)) && Unlimited(w)
    requires 0 < w.left <= space && Sizes(w.frames) == space - w.left && k < |w.frames|
    ensures w.frames[k].size < SpaceAt(w.frames, k, space)
  {
    hide Fit, Sizes, GetsFrame, Broken, NoRoomFor, HeaderSize, FreshRequest;
    StepSpace(w.frames, k);
    var m := LossCount(w.frames);
    if k + 1 == |w.frames| {
      assert w.frames[..k + 1] == w.frames;
    } else if k + 1 < m {
      LossIsOld(s, k + 1, SpaceAt(w.frames, k + 1, space), w.frames[k + 1]);
    } else {
      FreshIsNew(s, conn, SpaceAt(w.frames, k + 1, space));
    }
  }

  /** Frame `k` sent less than it could exactly when it left a gap. */
  lemma ShortMeansGap(w: Written, s: Stream, space: nat, conn: nat, k: nat)
    requires s.Small() && space < 0x1_0000_0000 && OutcomeAt(w, s, space, conn, LossCount(w.frames)) && Unlimited(w)
    requires 0 < w.left <= space && Sizes(w.frames) == space - w.left && k < |w.frames|
    ensures var (f, q) := (w.frames[k], RequestAt(w, s, conn, k));
            f.len <= Wanted(q) && (f.len < Wanted(q) <==> GapAt(w, s, space, conn, k))
    ensures k < LossCount(w.frames) ==> w.frames[k].fin == (s.loss[k].eof && w.frames[k].len == s.loss[k].len)
  {
    hide Fit, Sizes, HeaderSize, LeavesGap;
    SpaceBehind(w, s, space, conn, k);
    var at := SpaceAt(w.frames, k, space);
    if k < LossCount(w.frames) {
      assert GetsFrame(s, k, at, w.frames[k]);
      FitGap(LossRequest(s, s.loss[k]), at, false);
    } else {
      FitGap(FreshRequest(s, conn), at, true);
    }
  }

  lemma OutcomeCounts(w: Written, s: Stream, space: nat, conn: nat)
    requires s.Small() && OutcomeAt(w, s, space, conn, LossCount(w.frames)) && Unlimited(w)
    ensures LossCount(w.frames) <= |s.loss| && |w.frames| == LossCount(w.frames) + if Wants(s, conn) then 1 else 0
  {
    hide Fit, Sizes, GetsFrame, Broken, NoRoomFor, HeaderSize, SpaceAt;
  }

  lemma SpaceLeftOutcome(w: Written, s: Stream, space: nat, conn: nat)
    requires s.Small() && space < 0x1_0000_0000 && OutcomeAt(w, s, space, conn, LossCount(w.frames)) && Unlimited(w)
    requires 0 < w.left <= space && Sizes(w.frames) == space - w.left
    ensures AllSent(w, s, conn) <==> LossCount(w.frames) == |s.loss| && NoGaps(w, s, space, conn)
  {
    hide OutcomeAt, GapAt, Sizes, Wants, HeaderSize;
    OutcomeCounts(w, s, space, conn);
    forall k | 0 <= k < |w.frames|
      ensures var (f, q) := (w.frames[k], RequestAt(w, s, conn, k));
              f.len <= Wanted(q) && (f.len < Wanted(q) <==> GapAt(w, s, space, conn, k))
      ensures k < LossCount(w.frames) ==> w.frames[k].fin == (s.loss[k].eof && w.frames[k].len == s.loss[k].len)
    {
      ShortMeansGap(w, s, space, conn, k);
    }
  }

  // ------------------------------------------------------------------ what one stream takes

  lemma {:induction false} NoneFresh(frames: seq<Frame>)
    requires forall k :: 0 <= k < |frames| ==> !frames[k].isNew
    ensures FreshBytes(frames) == 0
    decreases |frames|
  {
    if frames != [] { NoneFresh(frames[..|frames| - 1]); }
  }

  /** Space and window shrink by exactly what was written. */
  lemma SingleStreamAccounts(s: Stream, space: nat, conn: nat)
    requires s.Small() && space < 0x1_0000_0000
    ensures var w := SingleStream(s, space, conn);
            w.left <= space && Sizes(w.frames) == space - w.left && w.conn <= conn && FreshBytes(w.frames) == conn - w.conn
  {
    hide Fit, Sizes, FreshBytes, LossFrames, Broken, NoRoomFor, HeaderSize, FrameFor, FreshRequest;
    var fs := LossFrames(s, 0, space);
    LossEndsAt(s, 0, space);
    forall k | 0 <= k < |fs| ensures !fs[k].isNew {
      LossFitAt(s, 0, space, k);
      LossIsOld(s, k, space - Sizes(fs[..k]), fs[k]);
    }
    NoneFresh(fs);
    if Wants(s, conn) {
      var left := space - Sizes(fs);
      FreshFit(s, conn, left);
      FreshIsNew(s, conn, left);
      var f := FrameFor(FreshRequest(s, conn), left, true);
      if f.Some? { Snoc(fs, f.value); }
    }
  }

  /** `writeSingleStream` is exact for every stream, space and window. */
  lemma SingleStreamExact(s: Stream, space: nat, conn: nat)
    requires s.Small() && space < 0x1_0000_0000
    ensures Exact(SingleStream(s, space, conn), s, space, conn)
  {
    hide SingleStream, OutcomeAt, AllSent, NoGaps, LossFrames, Sizes, FreshBytes;
    var w := SingleStream(s, space, conn);
    SingleStreamOutcome(s, space, conn);
    CountsLoss(w, s, space, conn, |LossFrames(s, 0, space)|);
    SingleStreamAccounts(s, space, conn);
    if Unlimited(w) && w.left > 0 { SpaceLeftOutcome(w, s, space, conn); }
  }

  /** The frames written, the rest of the queue, and the streams held back by the connection's window. */
  datatype Round = Round(frames: seq<Frame>, left: nat, conn: nat, rest: seq<Stream>, blocked: seq<nat>)

  /** What the loop over the write queue does. */
  function Queue(queue: seq<Stream>, space: nat, conn: nat, one: bool): (r: Round)
    decreases |queue|
  {
    if queue == [] || space == 0 then Round([], space, conn, queue, [])
    else
      var w := SingleStream(queue[0], space, conn);
      if w.result == PacketFull || w.result == Failed || w.left == 0 then Round(w.frames, w.left, w.conn, queue, [])
      else
        var held := if w.result == ConnFlowControlLimited then [queue[0].id] else [];
        if one then Round(w.frames, w.left, w.conn, queue[1..], held)
        else
          var r := Queue(queue[1..], w.left, w.conn, one);
          r.(frames := w.frames + r.frames, blocked := held + r.blocked)
  }

  /**
   `writeStreamLossBuffers`: entries are sent from the first, one frame each; an entry that does
   not fit ends it, and an empty entry that is no FIN is an error.
   */
  method WriteStreamLossBuffers(s: Stream, space: nat) returns (frames: seq<Frame>, left: nat, ok: bool)
    requires s.Small() && space < 0x1_0000_0000
    ensures frames == LossFrames(s, 0, space) && (ok <==> !Broken(s, |frames|, left))
    ensures left <= space && Sizes(frames) == space - left && FreshBytes(frames) == 0
    ensures |frames| <= |s.loss| && forall k :: 0 <= k < |frames| ==> Carries(frames[k], s, s.loss[k])
    ensures ok && |frames| < |s.loss| ==> left == 0 || left <= HeaderSize(LossRequest(s, s.loss[|frames|]))
  {
    hide FrameFor, Carries, HeaderSize, Sizes, FreshBytes, LossFrames;
    frames, left, ok := [], space, true;
    assert Sizes([]) == 0 && FreshBytes([]) == 0 by { NoFrames(); }
    assert [] + LossFrames(s, 0, space) == LossFrames(s, 0, space);
    while |frames| < |s.loss|
      invariant left <= space && Sizes(frames) == space - left && FreshBytes(frames) == 0
      invariant |frames| <= |s.loss| && forall k :: 0 <= k < |frames| ==> Carries(frames[k], s, s.loss[k])
      invariant ok && frames + LossFrames(s, |frames|, left) == LossFrames(s, 0, space)
      decreases |s.loss| - |frames|
    {
      var f, broken := WriteLost(s, |frames|, left);
      LossStep(s, |frames|, left);
      if f.None? {
        ok := !broken;
        break;
      }
      Snoc(frames, f.value);
      ghost var rest := LossFrames(s, |frames| + 1, left - f.value.size);
      assert frames + ([f.value] + rest) == (frames + [f.value]) + rest;
      frames := frames + [f.value];
      left := left - f.value.size;
    }
    if |frames| == |s.loss| { LossEnd(s, left); }
  }

  /** One entry of the loss buffer. */
  method WriteLost(s: Stream, k: nat, space: nat) returns (f: Option<Frame>, broken: bool)
    requires s.Small() && space < 0x1_0000_0000 && k < |s.loss|
    ensures f == FrameFor(LossRequest(s, s.loss[k]), space, false) && (broken <==> Broken(s, k, space))
    ensures f.Some? ==> f.value.size <= space && Carries(f.value, s, s.loss[k]) && !f.value.isNew && !broken
    ensures f.None? && !broken ==> space == 0 || space <= HeaderSize(LossRequest(s, s.loss[k]))
  {
    hide WriteHeader, HeaderSize;
    var l := s.loss[k];
    var q := LossRequest(s, l);
    var w := WriteHeader(q, space, None);
    if space == 0 {
      assert w == NoFrame by { NoSpaceNoFrame(q); }
      return None, false;
    }
    if l.len == 0 && !l.eof {
      assert w == Refused by { EmptyIsRefused(q, space); }
      return None, true;
    }
    WrittenExactly(q, space);
    if w == NoFrame {
      return None, false;
    }
    WrittenFrameFits(q, space, None);
    return Some(Frame(s.id, l.offset, w.dataLen, w.fin, |w.bytes| + w.dataLen, false)), false;
  }

  lemma LossStep(s: Stream, k: nat, space: nat)
    requires k < |s.loss|
    ensures var f := FrameFor(LossRequest(s, s.loss[k]), space, false);
            LossFrames(s, k, space) ==
            if f.None? || f.value.size > space then [] else [f.value] + LossFrames(s, k + 1, space - f.value.size)
  {
    hide FrameFor;
  }

  lemma LossEnd(s: Stream, space: nat)
    ensures LossFrames(s, |s.loss|, space) == []
  {
  }

  lemma NoSpaceNoFrame(q: Request)
    ensures WriteHeader(q, 0, None) == NoFrame
  {
  }

  lemma EmptyIsRefused(q: Request, space: nat)
    requires space > 0 && q.bufferLen == 0 && !q.fin
    ensures WriteHeader(q, space, None) == Refused
  {
  }

  /**
   `writeStreamFrame`: one frame of fresh data. It never fails, and finds the packet full exactly
   when the fixed fields leave no byte.
   */
  method WriteStreamFrame(s: Stream, space: nat, conn: nat) returns (frame: Option<Frame>)
    requires s.Small() && space < 0x1_0000_0000 && s.HasWritableData(conn > 0)
    ensures frame == FrameFor(FreshRequest(s, conn), space, true)
    ensures frame.None? <==> space <= HeaderSize(FreshRequest(s, conn))
    ensures frame.Some? ==> frame.value.size <= space && CarriesFresh(frame.value, s, conn)
  {
    hide WriteHeader, HeaderSize;
    var q := FreshRequest(s, conn);
    WrittenExactly(q, space);
    var w := WriteHeader(q, space, None);
    if w.Header? {
      WrittenFrameFits(q, space, None);
      return Some(Frame(s.id, s.offset, w.dataLen, w.fin, |w.bytes| + w.dataLen, true));
    }
    return None;
  }

  /** The frames of one stream: its lost entries from the first, then at most one of fresh data. */
  ghost predicate FromStream(frames: seq<Frame>, s: Stream, conn: nat) {
    exists m :: FromStreamAt(frames, s, conn, m)
  }

  ghost predicate FromStreamAt(frames: seq<Frame>, s: Stream, conn: nat, m: nat) {
    && m <= |s.loss| && m <= |frames| <= m + 1
    && (forall k :: 0 <= k < m ==> Carries(frames[k], s, s.loss[k]))
    && (|frames| > m ==> CarriesFresh(frames[m], s, conn))
  }

  /** Space and window shrink by exactly what was written, and every frame carries the stream's own data. */
  ghost predicate WellWritten(w: Written, s: Stream, space: nat, conn: nat) {
    && w.left <= space && Sizes(w.frames) == space - w.left
    && w.conn <= conn && FreshBytes(w.frames) == conn - w.conn
    && FromStream(w.frames, s, conn)
    && (w.result == ConnFlowControlLimited ==> w.conn == 0)
  }

  /**
   `writeSingleStream`: lost entries go first, then fresh data. A result other than a full packet or an error that leaves
   space in the packet means that every lost entry went out whole, and all fresh data both windows allow, unless the
   space is no more than the fixed fields of the next lost entry, or a length field took less than was kept for it.
   */
  method WriteSingleStream(s: Stream, space: nat, conn: nat) returns (w: Written)
    requires s.Small() && space < 0x1_0000_0000
    ensures w == SingleStream(s, space, conn) && WellWritten(w, s, space, conn)
    ensures Exact(w, s, space, conn)
  {
    hide Sizes, FreshBytes, HeaderSize, FrameFor, LossFrames, Carries, CarriesFresh, Exact;
    SingleStreamExact(s, space, conn);
    var frames, left, ok := WriteStreamLossBuffers(s, space);
    assert FromStreamAt(frames, s, conn, |frames|);
    if s.loss != [] {
      if !ok {
        return Written(frames, left, conn, Failed);
      }
      if frames == [] {
        return Written(frames, left, conn, PacketFull);
      }
    }
    if !s.HasWritableData(true) {
      return Written(frames, left, conn, NotLimited);
    }
    if conn == 0 && !s.HasWritableData(false) {
      return Written(frames, left, conn, ConnFlowControlLimited);
    }
    var f := WriteStreamFrame(s, left, conn);
    if f.None? {
      return Written(frames, left, conn, PacketFull);
    }
    assert f.value.len <= conn && f.value.isNew by { FreshFits(f.value, s, conn); }
    Snoc(frames, f.value);
    ghost var m := |frames|;
    w := Written(frames + [f.value], left - f.value.size, conn - f.value.len,
                 if conn == f.value.len then ConnFlowControlLimited else NotLimited);
    assert FromStreamAt(w.frames, s, conn, m);
  }

  lemma FreshFits(f: Frame, s: Stream, conn: nat)
    requires CarriesFresh(f, s, conn)
    ensures f.len <= conn && f.isNew
  {
  }

  lemma NoFrames()
    ensures Sizes([]) == 0 && FreshBytes([]) == 0
  {
  }

  ghost predicate AllSmall(queue: seq<Stream>) { forall i :: 0 <= i < |queue| ==> queue[i].Small() }

  /** A round put behind the frames written before it. */
  function After(frames: seq<Frame>, blocked: seq<nat>, r: Round): Round {
    r.(frames := frames + r.frames, blocked := blocked + r.blocked)
  }

  /**
   The loop over the write queue, whose next stream is the first of `queue`: a stream leaves the
   queue when its write left space in the packet. The packet is never overfilled, fresh data
   takes exactly its bytes from the connection's window, and the loop stops short of the end of
   the queue only for want of space, after an error, or after one stream if each packet takes one.
   */
  method WriteStreams(queue: seq<Stream>, space: nat, conn: nat, streamPerPacket: bool)
    returns (r: Round, result: StreamWriteResult)
    requires AllSmall(queue) && space < 0x1_0000_0000
    ensures r == Queue(queue, space, conn, streamPerPacket)
    ensures r.left <= space && Sizes(r.frames) == space - r.left
    ensures r.conn <= conn && FreshBytes(r.frames) == conn - r.conn
    ensures |r.rest| <= |queue| && r.rest == queue[|queue| - |r.rest|..]
    ensures r.rest == [] || r.left == 0 || result == PacketFull || result == Failed || streamPerPacket
    ensures r.blocked != [] ==> r.conn == 0
    ensures QueueServed(queue, space, conn, streamPerPacket, r)
  {
    hide Sizes, FreshBytes, FromStream, SingleStream, Queue, Exact, After, QueueServed;
    QueueIsServed(queue, space, conn, streamPerPacket);
    r, result := Round([], space, conn, queue, []), NotLimited;
    assert Sizes([]) == 0 && FreshBytes([]) == 0 by { NoFrames(); }
    ghost var goal := Queue(queue, space, conn, streamPerPacket);
    assert After([], [], goal) == goal by { AfterNothing(goal); }
    while r.rest != [] && r.left > 0
      invariant r.left <= space && Sizes(r.frames) == space - r.left
      invariant r.conn <= conn && FreshBytes(r.frames) == conn - r.conn
      invariant |r.rest| <= |queue| && r.rest == queue[|queue| - |r.rest|..]
      invariant r.blocked != [] ==> r.conn == 0
      invariant After(r.frames, r.blocked, Queue(r.rest, r.left, r.conn, streamPerPacket)) == goal
      decreases |r.rest|
    {
      var s := r.rest[0];
      var w := WriteSingleStream(s, r.left, r.conn);
      Append(r.frames, w.frames);
      result := w.result;
      ghost var before := r;
      if result == PacketFull || result == Failed || w.left == 0 {
        QueueStops(before, w, streamPerPacket);
        r := Round(r.frames + w.frames, w.left, w.conn, r.rest, r.blocked);
        return;
      }
      QueueGoesOn(before, w, streamPerPacket);
      r := Round(r.frames + w.frames, w.left, w.conn, r.rest[1..],
                 r.blocked + if result == ConnFlowControlLimited then [s.id] else []);
      if streamPerPacket {
        return;
      }
    }
    QueueEnds(r, streamPerPacket);
  }

  lemma AfterNothing(r: Round)
    ensures After([], [], r) == r
  {
    assert [] + r.frames == r.frames && [] + r.blocked == r.blocked;
  }

  lemma QueueEnds(r: Round, one: bool)
    requires r.rest == [] || r.left == 0
    ensures After(r.frames, r.blocked, Queue(r.rest, r.left, r.conn, one)) == r
  {
    assert r.frames + [] == r.frames && r.blocked + [] == r.blocked;
  }

  lemma QueueStops(r: Round, w: Written, one: bool)
    requires r.rest != [] && r.left > 0 && w == SingleStream(r.rest[0], r.left, r.conn)
    requires w.result == PacketFull || w.result == Failed || w.left == 0
    ensures After(r.frames, r.blocked, Queue(r.rest, r.left, r.conn, one)) ==
            Round(r.frames + w.frames, w.left, w.conn, r.rest, r.blocked)
  {
    hide SingleStream;
    assert r.blocked + [] == r.blocked;
  }

  lemma QueueGoesOn(r: Round, w: Written, one: bool)
    requires r.rest != [] && r.left > 0 && w == SingleStream(r.rest[0], r.left, r.conn)
    requires w.result != PacketFull && w.result != Failed && w.left > 0
    ensures var held := if w.result == ConnFlowControlLimited then [r.rest[0].id] else [];
            After(r.frames, r.blocked, Queue(r.rest, r.left, r.conn, one)) ==
            if one then Round(r.frames + w.frames, w.left, w.conn, r.rest[1..], r.blocked + held)
            else After(r.frames + w.frames, r.blocked + held, Queue(r.rest[1..], w.left, w.conn, one))
  {
    hide SingleStream;
    var held := if w.result == ConnFlowControlLimited then [r.rest[0].id] else [];
    var q := Queue(r.rest[1..], w.left, w.conn, one);
    assert r.frames + (w.frames + q.frames) == (r.frames + w.frames) + q.frames;
    assert r.blocked + (held + q.blocked) == (r.blocked + held) + q.blocked;
  }

  // ------------------------------------------------------------------ the streams that leave the queue

  /** The write of a stream that leaves the queue, among the frames of the loop. */
  datatype Share = Share(before: seq<Frame>, space: nat, conn: nat, write: Written, after: seq<Frame>)

  /** What a stream that leaves the queue was given: its own write, exact, in what the streams before it left. */
  ghost predicate Served(t: Share, s: Stream, space: nat, conn: nat, frames: seq<Frame>)
    requires s.Small()
  {
    && frames == t.before + t.write.frames + t.after
    && t.space <= space && Sizes(t.before) == space - t.space && t.conn <= conn && FreshBytes(t.before) == conn - t.conn
    && t.write == SingleStream(s, t.space, t.conn) && Exact(t.write, s, t.space, t.conn)
  }

  lemma ServedFirst(s: Stream, space: nat, conn: nat, after: seq<Frame>) returns (t: Share)
    requires s.Small() && space < 0x1_0000_0000
    ensures t == Share([], space, conn, SingleStream(s, space, conn), after)
    ensures Served(t, s, space, conn, SingleStream(s, space, conn).frames + after)
  {
    hide SingleStream, Exact, Sizes, FreshBytes;
    t := Share([], space, conn, SingleStream(s, space, conn), after);
    assert [] + t.write.frames == t.write.frames;
    SingleStreamExact(s, space, conn);
    NoFrames();
  }

  lemma ServedBehind(t: Share, s: Stream, w: Written, space: nat, conn: nat, frames: seq<Frame>) returns (u: Share)
    requires s.Small() && w.left <= space && Sizes(w.frames) == space - w.left
    requires w.conn <= conn && FreshBytes(w.frames) == conn - w.conn
    requires Served(t, s, w.left, w.conn, frames)
    ensures u == t.(before := w.frames + t.before) && Served(u, s, space, conn, w.frames + frames)
  {
    hide SingleStream, Exact, Sizes, FreshBytes;
    u := t.(before := w.frames + t.before);
    Append(w.frames, t.before);
    assert w.frames + (t.before + t.write.frames + t.after) == u.before + t.write.frames + t.after;
  }

  /**
   A stream leaves the write queue only after a write of its own that found no full packet and left space: it has sent
   every lost entry whole and all fresh data both windows allowed then, with the exceptions of a single write. It is
   recorded as held back exactly when the connection's window is used up.
   */
  lemma {:induction false} GoneWasServed(queue: seq<Stream>, space: nat, conn: nat, one: bool, i: nat) returns (t: Share)
    requires AllSmall(queue) && space < 0x1_0000_0000
    requires |Queue(queue, space, conn, one).rest| <= |queue| && i < |queue| - |Queue(queue, space, conn, one).rest|
    ensures Served(t, queue[i], space, conn, Queue(queue, space, conn, one).frames)
    ensures Unlimited(t.write) && t.write.left > 0
    ensures t.write.result == ConnFlowControlLimited ==> queue[i].id in Queue(queue, space, conn, one).blocked
    decreases |queue|
  {
    hide SingleStream, Served, Sizes, FreshBytes, Exact;
    var w := SingleStream(queue[0], space, conn);
    var rest := if one then Round([], w.left, w.conn, queue[1..], []) else Queue(queue[1..], w.left, w.conn, one);
    if i == 0 {
      t := ServedFirst(queue[0], space, conn, rest.frames);
      assert w.frames + [] == w.frames;
    } else {
      SingleStreamAccounts(queue[0], space, conn);
      var u := GoneWasServed(queue[1..], w.left, w.conn, one, i - 1);
      t := ServedBehind(u, queue[i], w, space, conn, rest.frames);
    }
  }

  /** A stream is recorded as held back only if it left the queue with the connection's window used up. */
  lemma {:induction false} BlockedWasLimited(queue: seq<Stream>, space: nat, conn: nat, one: bool, id: nat) returns (i: nat, t: Share)
    requires AllSmall(queue) && space < 0x1_0000_0000 && id in Queue(queue, space, conn, one).blocked
    ensures i < |queue| && queue[i].id == id && i < |queue| - |Queue(queue, space, conn, one).rest|
    ensures Served(t, queue[i], space, conn, Queue(queue, space, conn, one).frames)
    ensures t.write.result == ConnFlowControlLimited
    decreases |queue|
  {
    hide SingleStream, Served, Sizes, FreshBytes, Exact;
    var w := SingleStream(queue[0], space, conn);
    QueueSuffix(queue[1..], w.left, w.conn, one);
    if w.result == ConnFlowControlLimited && queue[0].id == id {
      i := 0;
      t := ServedFirst(queue[0], space, conn, if one then [] else Queue(queue[1..], w.left, w.conn, one).frames);
      assert w.frames + [] == w.frames;
    } else {
      SingleStreamAccounts(queue[0], space, conn);
      var rest := Queue(queue[1..], w.left, w.conn, one);
      var k, u := BlockedWasLimited(queue[1..], w.left, w.conn, one, id);
      i := k + 1;
      t := ServedBehind(u, queue[i], w, space, conn, rest.frames);
    }
  }

  /** A stream that stays first in the queue while there is space found the packet full or an error; nothing was written behind it. */
  lemma {:induction false} QueueStopsFor(queue: seq<Stream>, space: nat, conn: nat, one: bool) returns (t: Share)
    requires AllSmall(queue) && space < 0x1_0000_0000
    requires var r := Queue(queue, space, conn, one); r.rest != [] && r.left > 0 && (one ==> r.rest == queue)
    ensures var r := Queue(queue, space, conn, one);
            && r.rest[0].Small() && Served(t, r.rest[0], space, conn, r.frames)
            && t.after == [] && !Unlimited(t.write) && t.write.left == r.left
    decreases |queue|
  {
    hide SingleStream, Served, Sizes, FreshBytes, Exact;
    var w := SingleStream(queue[0], space, conn);
    if !Unlimited(w) {
      t := ServedFirst(queue[0], space, conn, []);
      assert w.frames + [] == w.frames;
    } else {
      SingleStreamAccounts(queue[0], space, conn);
      var u := QueueStopsFor(queue[1..], w.left, w.conn, one);
      var r := Queue(queue[1..], w.left, w.conn, one);
      t := ServedBehind(u, r.rest[0], w, space, conn, r.frames);
    }
  }

  /** The write of stream `s` is among the frames and left space behind it. */
  ghost predicate WasDone(s: Stream, space: nat, conn: nat, frames: seq<Frame>)
    requires s.Small()
  {
    exists t :: Served(t, s, space, conn, frames) && Unlimited(t.write) && t.write.left > 0
  }

  /** The write of stream `s` ended the frames, with a full packet or an error. */
  ghost predicate WasCut(s: Stream, space: nat, conn: nat, frames: seq<Frame>)
    requires s.Small()
  {
    exists t :: Served(t, s, space, conn, frames) && t.after == [] && !Unlimited(t.write)
  }

  /**
   The streams that left the queue were done, and the loop stopped for want of space, at a stream cut short, or after one
   stream if each packet takes one.
   */
  ghost predicate QueueServed(queue: seq<Stream>, space: nat, conn: nat, one: bool, r: Round)
    requires AllSmall(queue)
  {
    && |r.rest| <= |queue| && r.rest == queue[|queue| - |r.rest|..]
    && (forall i :: 0 <= i < |queue| - |r.rest| ==> WasDone(queue[i], space, conn, r.frames))
    && (r.rest == [] || r.left == 0 || (one && |r.rest| == |queue| - 1) || WasCut(r.rest[0], space, conn, r.frames))
  }

  lemma {:induction false} QueueSuffix(queue: seq<Stream>, space: nat, conn: nat, one: bool)
    ensures var rest := Queue(queue, space, conn, one).rest;
            |rest| <= |queue| && rest == queue[|queue| - |rest|..] && (one ==> |queue| - |rest| <= 1)
    decreases |queue|
  {
    hide SingleStream;
    if queue != [] && space > 0 {
      var w := SingleStream(queue[0], space, conn);
      QueueSuffix(queue[1..], w.left, w.conn, one);
    }
  }

  lemma QueueIsServed(queue: seq<Stream>, space: nat, conn: nat, one: bool)
    requires AllSmall(queue) && space < 0x1_0000_0000
    ensures QueueServed(queue, space, conn, one, Queue(queue, space, conn, one))
  {
    hide Served, Queue;
    var r := Queue(queue, space, conn, one);
    QueueSuffix(queue, space, conn, one);
    forall i | 0 <= i < |queue| - |r.rest| ensures WasDone(queue[i], space, conn, r.frames) {
      var _ := GoneWasServed(queue, space, conn, one, i);
    }
    if r.rest != [] && r.left > 0 && (one ==> r.rest == queue) {
      var _ := QueueStopsFor(queue, space, conn, one);
    }
  }

  const TWO_LOST := Stream(0, None, [Lost(0, 10, false), Lost(20, 5, false)], 30, 0, 100, None)

  /**
   A stream can leave the queue with a lost entry unsent: two bytes left in the packet are not enough for the fixed
   fields of the second entry, yet they count as space left.
   */
  lemma LeavesWithLossUnsent()
    ensures var r := Queue([TWO_LOST], 15, 100, false);
            r.rest == [] && r.left == 2 && |r.frames| == 1 && r.frames[0].len == 10
  {
    var s := TWO_LOST;
    var (first, second) := (LossRequest(s, s.loss[0]), LossRequest(s, s.loss[1]));
    assert s.Small();
    FitsExactly(first, 15, false);
    FitsExactly(second, 2, false);
    var f := Frame(0, 0, 10, false, 13, false);
    assert Fit(first, 15, false) == Some(f) && Fit(second, 2, false) == None;
    hide FrameFor, Fit;
    assert LossFrames(s, 1, 2) == [];
    assert LossFrames(s, 0, 15) == [f];
    Snoc([], f);
    assert [] + [f] == [f] && Sizes([f]) == 13;
    var w := SingleStream(s, 15, 100);
    assert w == Written([f], 2, 100, NotLimited);
    assert [s][1..] == [];
    assert Queue([], 2, 100, false) == Round([], 2, 100, [], []);
  }
}
