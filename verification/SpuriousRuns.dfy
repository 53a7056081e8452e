/**
 Whole runs of a connection that takes late acknowledgements out of the loss buffer
 (`removeFromLossBufferOnSpurious`; quic/state/AckHandlers.cpp, quic/state/StreamData.h).
 The FIN of a packet is on the last of its frames, so only that frame can leave a husk; a run
 keeps the connection invariant exactly as long as none does.
 */
module SpuriousRuns {
  import opened Prelude
  import opened SendBuffers
  import opened SendBufferProofs
  import opened StreamSend
  import opened StreamSendProofs
  import opened SpuriousLoss

  // ------------------------------------------------------------------ the FIN comes last

  ghost predicate FinLast(fs: seq<Frame>) { forall i :: 0 <= i < |fs| - 1 ==> !fs[i].fin }

  ghost predicate PacketsFinLast(c: Conn) { forall n :: n in c.packets ==> FinLast(c.packets[n].frames) }

  lemma {:induction false} LossFrameAt(q: seq<Buf>, grants: seq<nat>, i: nat)
    requires i < |grants| <= |q|
    ensures LossFrames(q, grants)[i] == Frame(q[i].offset, grants[i], q[i].eof && grants[i] == |q[i].data|)
    decreases i
  {
    if i > 0 { LossFrameAt(q[1..], grants[1..], i - 1); }
  }

  /** An entry with the FIN is the last of the loss buffer, and no new data is left behind it. */
  lemma FinEndsStream(s: Stream, i: nat)
    requires StreamInv(s) && i < |s.lossBuffer| && s.lossBuffer[i].eof
    ensures i == |s.lossBuffer| - 1 && s.pendingWrites == [] && s.currentWriteOffset == |s.app| + 1
    ensures s.finalWriteOffset == Some(|s.app|)
  {
    assert BufOk(s, s.lossBuffer[i]) && BufOk(s, s.lossBuffer[|s.lossBuffer| - 1]);
  }

  lemma ScheduledFinLast(s: Stream, grants: seq<nat>, grant: Option<nat>)
    requires StreamInv(s) && Granted(s.lossBuffer, grants) && (grant.Some? ==> NewGranted(s, grant.value))
    ensures FinLast(Scheduled(s, grants, grant))
  {
    hide StreamInv, LossFrames;
    var fs := Scheduled(s, grants, grant);
    forall i | 0 <= i < |fs| - 1 ensures !fs[i].fin {
      LossFrameAt(s.lossBuffer, grants, i);
      if s.lossBuffer[i].eof { FinEndsStream(s, i); }
    }
  }

  lemma StepFinLast(c: Conn, step: Step, r: Conn)
    requires ConnInv(c) && PacketsFinLast(c) && Enabled(c, step) && Next(c, step) == Ok(r)
    ensures PacketsFinLast(r)
  {
    hide StreamInv, IdsOk, GroupsOk, NoOrphans, CountsOk, WriteFrames, AckFrames, LoseFrames, FinLast, RebuildFrames;
    match step
    case Send(grants, grant) => ScheduledFinLast(c.stream, grants, grant);
    case Clone(n) => RebuildSame(c.stream, c.packets[n].frames);
    case _ =>
  }

  // ------------------------------------------------------------------ one packet

  /** The last frame would leave a husk, once the frames before it are out. */
  predicate Breaks(s: Stream, fs: seq<Frame>) {
    fs != [] && LeavesHusk(SpuriousFrames(s, fs[..|fs| - 1]).lossBuffer, fs[|fs| - 1])
  }

  lemma {:induction false} NoFinIsSafe(s: Stream, fs: seq<Frame>)
    requires forall i :: 0 <= i < |fs| ==> !fs[i].fin
    ensures SafeRemoval(s, fs)
    decreases |fs|
  {
    if fs != [] { NoFinIsSafe(SpuriousFrame(s, fs[0]), fs[1..]); }
  }

  lemma {:induction false} TakeOutLast(s: Stream, fs: seq<Frame>, f: Frame)
    ensures SpuriousFrames(s, fs + [f]) == SpuriousFrame(SpuriousFrames(s, fs), f)
    ensures SafeRemoval(s, fs + [f]) <==> SafeRemoval(s, fs) && !LeavesHusk(SpuriousFrames(s, fs).lossBuffer, f)
    decreases |fs|
  {
    hide SpuriousFrame, LeavesHusk;
    var all := fs + [f];
    if fs == [] {
      assert all == [f] && [f][1..] == [];
    } else {
      assert all[0] == fs[0] && all[1..] == fs[1..] + [f];
      TakeOutLast(SpuriousFrame(s, fs[0]), fs[1..], f);
    }
  }

  /** The frames of a packet keep the send buffers right exactly when the last one leaves no husk. */
  lemma FramesExact(s: Stream, fs: seq<Frame>)
    requires StreamInv(s) && (forall f :: f in fs ==> Sent(s, f)) && FinLast(fs)
    ensures StreamInv(SpuriousFrames(s, fs)) <==> !Breaks(s, fs)
    ensures SafeRemoval(s, fs) <==> !Breaks(s, fs)
  {
    hide StreamInv, LeavesHusk, SpuriousFrame, SpuriousFrames, SafeRemoval, Sent;
    if fs == [] {
      assert SpuriousFrames(s, fs) == s && SafeRemoval(s, fs) by { Nothing(s); }
    } else {
      var front, f := fs[..|fs| - 1], fs[|fs| - 1];
      assert front + [f] == fs && f in fs && forall g :: g in front ==> g in fs;
      NoFinIsSafe(s, front);
      SpuriousFramesInv(s, front);
      TakeOutLast(s, front, f);
      var t := SpuriousFrames(s, front);
      assert Sent(t, f) by { StaysSent(s, t, f); }
      SpuriousExact(t, f);
    }
  }

  lemma Nothing(s: Stream)
    ensures SpuriousFrames(s, []) == s && SafeRemoval(s, [])
  {
  }

  lemma StaysSent(s: Stream, t: Stream, f: Frame)
    requires Sent(s, f) && Later(s, t)
    ensures Sent(t, f)
  {
  }

  /** A late acknowledgement passes its check, and keeps the connection invariant exactly when the packet leaves no husk. */
  lemma LateAckExact(c: Conn, n: nat)
    requires ConnInv(c) && FramesSent(c) && PacketsFinLast(c) && Enabled(c, DropLost(n))
    ensures SpuriousAck(c, n).Ok?
    ensures ConnInv(SpuriousAck(c, n).value) <==> !Breaks(c.stream, c.packets[n].frames)
    ensures ConnInv(SpuriousAck(c, n).value) ==> FramesSent(SpuriousAck(c, n).value) && PacketsFinLast(SpuriousAck(c, n).value)
  {
    hide StreamInv, IdsOk, LiveMatch, GroupsOk, NoOrphans, CountsOk, SafeRemoval, SpuriousFrames, Breaks, FinLast;
    var fs := c.packets[n].frames;
    assert forall f :: f in fs ==> Sent(c.stream, f);
    FramesExact(c.stream, fs);
    DropLostInv(c, n);
    if !Breaks(c.stream, fs) { SpuriousAckInv(c, n); }
  }

  // ------------------------------------------------------------------ runs with the option on

  /** A step of the transport, or the late acknowledgement of a packet declared lost. */
  datatype Event = Plain(step: Step) | Late(num: nat)

  predicate EventEnabled(c: Conn, e: Event) {
    match e
    case Plain(step) => Enabled(c, step)
    case Late(n) => Enabled(c, DropLost(n))
  }

  function After(c: Conn, e: Event): Checked<Conn>
    requires EventEnabled(c, e)
  {
    match e
    case Plain(step) => Next(c, step)
    case Late(n) => SpuriousAck(c, n)
  }

  /** The states of a run, from the fresh connection on. */
  ghost predicate Run(events: seq<Event>, states: seq<Conn>) {
    && |states| == |events| + 1 && states[0] == INITIAL_CONN
    && forall k :: 0 <= k < |events| ==> RunStep(events, states, k)
  }

  ghost predicate RunStep(events: seq<Event>, states: seq<Conn>, k: nat)
    requires k < |events| < |states|
  {
    EventEnabled(states[k], events[k]) && After(states[k], events[k]) == Ok(states[k + 1])
  }

  /** Event `k` is a late acknowledgement that leaves a husk. */
  predicate HuskAt(events: seq<Event>, states: seq<Conn>, k: nat)
    requires k < |events| < |states|
  {
    var (e, c) := (events[k], states[k]);
    e.Late? && e.num in c.packets && Breaks(c.stream, c.packets[e.num].frames)
  }

  lemma EventExact(c: Conn, e: Event)
    requires ConnInv(c) && FramesSent(c) && PacketsFinLast(c) && EventEnabled(c, e)
    ensures After(c, e).Ok?
    ensures var r := After(c, e).value;
            && (ConnInv(r) <==> !(e.Late? && Breaks(c.stream, c.packets[e.num].frames)))
            && (ConnInv(r) ==> FramesSent(r) && PacketsFinLast(r))
  {
    hide ConnInv, FramesSent, PacketsFinLast, Breaks;
    match e
    case Plain(step) =>
      StepInv(c, step);
      StepFramesSent(c, step, Next(c, step).value);
      StepFinLast(c, step, Next(c, step).value);
    case Late(n) => LateAckExact(c, n);
  }

  /** Up to the first husk, every state is good. */
  lemma {:induction false} GoodUntilHusk(events: seq<Event>, states: seq<Conn>, k: nat)
    requires Run(events, states) && k <= |events| && forall j :: 0 <= j < k ==> !HuskAt(events, states, j)
    ensures ConnInv(states[k]) && FramesSent(states[k]) && PacketsFinLast(states[k])
    decreases k
  {
    hide ConnInv, FramesSent, PacketsFinLast, Breaks, EventEnabled, After;
    if k == 0 {
      Fresh();
    } else {
      GoodUntilHusk(events, states, k - 1);
      assert RunStep(events, states, k - 1) && !HuskAt(events, states, k - 1);
      if events[k - 1].Late? { LateHasPacket(states[k - 1], events[k - 1]); }
      EventExact(states[k - 1], events[k - 1]);
    }
  }

  lemma Fresh()
    ensures ConnInv(INITIAL_CONN) && FramesSent(INITIAL_CONN) && PacketsFinLast(INITIAL_CONN)
  {
    hide ConnInv;
    InitialInv();
  }

  lemma LateHasPacket(c: Conn, e: Event)
    requires EventEnabled(c, e) && e.Late?
    ensures e.num in c.packets
  {
  }

  /**
   With the option on, every state of a run keeps the connection invariant (every byte held or acknowledged,
   none corrupted, counters right) if and only if no late acknowledgement of the run leaves a husk.
   */
  lemma OptionExactly(events: seq<Event>, states: seq<Conn>)
    requires Run(events, states)
    ensures (forall k :: 0 <= k < |states| ==> ConnInv(states[k])) <==>
            (forall k :: 0 <= k < |events| ==> !HuskAt(events, states, k))
  {
    hide ConnInv, HuskAt, RunStep;
    if k :| 0 <= k < |events| && HuskAt(events, states, k) {
      var first := FirstHusk(events, states, k);
      BadAfterHusk(events, states, first);
    } else {
      forall k | 0 <= k < |states| ensures ConnInv(states[k]) { GoodUntilHusk(events, states, k); }
    }
  }

  lemma {:induction false} FirstHusk(events: seq<Event>, states: seq<Conn>, k: nat) returns (first: nat)
    requires k < |events| < |states| && HuskAt(events, states, k)
    ensures first <= k && HuskAt(events, states, first) && forall j :: 0 <= j < first ==> !HuskAt(events, states, j)
    decreases k
  {
    hide HuskAt;
    if j :| 0 <= j < k && HuskAt(events, states, j) {
      first := FirstHusk(events, states, j);
    } else {
      first := k;
    }
  }

  lemma BadAfterHusk(events: seq<Event>, states: seq<Conn>, first: nat)
    requires Run(events, states) && first < |events| && HuskAt(events, states, first)
    requires forall j :: 0 <= j < first ==> !HuskAt(events, states, j)
    ensures !ConnInv(states[first + 1])
  {
    hide ConnInv, Breaks, FramesSent, PacketsFinLast;
    GoodUntilHusk(events, states, first);
    assert RunStep(events, states, first);
    EventExact(states[first], events[first]);
  }
}
