/**
 What a pending verification has to do with the steps of a run: which packet is awaited, since when, and that it ends
 with the first packet that acknowledges the awaited one (`maybeVerifyPendingKeyUpdate` and `updateConnection`,
 quic/api/QuicTransportFunctions.cpp).
 */
module KeyUpdateHistory {
  import opened Prelude
  import opened KeyUpdate
  import opened KeyUpdateProofs

  // ------------------------------------------------------------------ what one step does

  /** A sends the first packet of a phase that it started. */
  predicate StartsWaiting(s: Sys, step: Step) {
    step.AtA? && step.action.Send? && s.a.pendingVerification && s.a.sentInPhase == 0
  }

  /** A starts an update. */
  predicate StartsUpdate(s: Sys, step: Step) {
    step.AtA? && step.action.Update? && WantsUpdate(s.a, step.action.settings)
  }

  /** A processes a packet that acknowledges `v`, or something sent after it. */
  predicate AcksFrom(s: Sys, step: Step, v: nat) {
    && step.AtA? && step.action.Deliver? && Opens(s.a, step.action.packet)
    && exists n :: n in step.action.acked && n >= v
  }

  predicate AcksAwaited(s: Sys, step: Step) { s.a.verificationNum.Some? && AcksFrom(s, step, s.a.verificationNum.value) }

  /** What any step does to the verification of A. */
  lemma StepWaits(s: Sys, step: Step, r: Sys)
    requires Do(s, step) == Next(r)
    ensures r.a.verificationNum == if StartsWaiting(s, step) then Some(s.a.nextPacketNum)
                                   else if StartsUpdate(s, step) || AcksAwaited(s, step) then None else s.a.verificationNum
    ensures r.a.pendingVerification <==> StartsUpdate(s, step) || (s.a.pendingVerification && !AcksAwaited(s, step))
    ensures r.a.nextPacketNum >= s.a.nextPacketNum
    ensures StartsWaiting(s, step) ==> r.a.nextPacketNum > s.a.nextPacketNum
  {
    if step.AtA? && step.action.Deliver? { DeliverWaits(s, step.action.packet, step.action.acked, r); }
  }

  lemma DeliverWaits(s: Sys, p: Pkt, acked: seq<nat>, r: Sys)
    requires Do(s, AtA(Deliver(p, acked))) == Next(r)
    ensures r.a.verificationNum == if AcksAwaited(s, AtA(Deliver(p, acked))) then None else s.a.verificationNum
    ensures r.a.pendingVerification <==> s.a.pendingVerification && !AcksAwaited(s, AtA(Deliver(p, acked)))
    ensures r.a.nextPacketNum == s.a.nextPacketNum
  {
    if Opens(s.a, p) {
      VerifyAcksShape(Opened(s.a, p), acked, p.Phase());
      OpenedWaits(s.a, p);
      hide Opened, Opens, VerifyAcks;
    }
  }

  lemma OpenedWaits(e: Endpoint, p: Pkt)
    requires Opens(e, p)
    ensures var r := Opened(e, p);
            && r.verificationNum == e.verificationNum && r.pendingVerification == e.pendingVerification
            && r.nextPacketNum == e.nextPacketNum
  {
  }

  // ------------------------------------------------------------------ runs

  /** The states of a run of two endpoints. */
  ghost predicate Trace(steps: seq<Step>, states: seq<Sys>) {
    && |states| == |steps| + 1 && Start(states[0])
    && forall k :: 0 <= k < |steps| ==> TakenAt(steps, states, k)
  }

  ghost predicate TakenAt(steps: seq<Step>, states: seq<Sys>, k: nat)
    requires k < |steps| < |states|
  {
    Enabled(states[k], steps[k]) && Do(states[k], steps[k]) == Next(states[k + 1])
  }

  /** Every reachable state ends a trace. */
  lemma {:induction false} ReachedByTrace(steps: seq<Step>, s: Sys) returns (states: seq<Sys>)
    requires Reaches(steps, s)
    ensures Trace(steps, states) && states[|steps|] == s
    decreases |steps|
  {
    hide Enabled, Do;
    if steps == [] {
      states := [s];
    } else {
      var n := |steps| - 1;
      var b: Sys :| Reaches(steps[..n], b) && Enabled(b, steps[n]) && Do(b, steps[n]) == Next(s);
      var before := ReachedByTrace(steps[..n], b);
      states := before + [s];
      forall k | 0 <= k < |steps| ensures TakenAt(steps, states, k) {
        if k < n { assert TakenAt(steps[..n], before, k) && steps[..n][k] == steps[k]; }
      }
    }
  }

  lemma {:induction false} TraceInv(steps: seq<Step>, states: seq<Sys>, k: nat)
    requires Trace(steps, states) && k < |states|
    ensures Inv(states[k])
    decreases k
  {
    hide Enabled, Do, Inv;
    if k == 0 {
      assert Reaches([], states[0]);
      EveryRun([], states[0]);
    } else {
      TraceInv(steps, states, k - 1);
      assert TakenAt(steps, states, k - 1);
      StepInv(states[k - 1], steps[k - 1]);
    }
  }

  /** Step `j` sent the packet `v` that started a phase, and nothing since then ended or renewed the wait for it. */
  ghost predicate WaitsSince(steps: seq<Step>, states: seq<Sys>, j: nat, k: nat, v: nat)
    requires j < k <= |steps| < |states|
  {
    && StartsWaiting(states[j], steps[j]) && states[j].a.nextPacketNum == v
    && forall i :: j < i < k ==> StillWaits(states[i], steps[i], v)
  }

  predicate StillWaits(s: Sys, step: Step, v: nat) {
    !StartsWaiting(s, step) && !StartsUpdate(s, step) && !AcksFrom(s, step, v)
  }

  /**
   An endpoint awaits the acknowledgement of `v` exactly when `v` was the first packet of a phase it started, and since
   then it has started no other phase and has processed no packet that acknowledges `v` or a later one.
   */
  lemma {:induction false} AwaitedExactly(steps: seq<Step>, states: seq<Sys>, k: nat, v: nat)
    requires Trace(steps, states) && k < |states|
    ensures states[k].a.verificationNum == Some(v) <==> exists j :: 0 <= j < k && WaitsSince(steps, states, j, k, v)
    decreases k
  {
    hide Enabled, Do, StartsWaiting, StartsUpdate, AcksFrom;
    if k > 0 {
      var p := k - 1;
      AwaitedExactly(steps, states, p, v);
      assert TakenAt(steps, states, p);
      StepWaits(states[p], steps[p], states[k]);
      if j :| 0 <= j < p && WaitsSince(steps, states, j, p, v) && StillWaits(states[p], steps[p], v) {
        assert WaitsSince(steps, states, j, k, v);
      }
      if j :| 0 <= j < p && WaitsSince(steps, states, j, k, v) {
        assert WaitsSince(steps, states, j, p, v) && StillWaits(states[p], steps[p], v);
      }
      if StartsWaiting(states[p], steps[p]) && states[p].a.nextPacketNum == v {
        assert WaitsSince(steps, states, p, k, v);
      }
    }
  }

  // ------------------------------------------------------------------ the awaited packet is not acknowledged yet

  /** Every packet number that was acknowledged was sent before. */
  lemma AckedWasSent(s: Sys, step: Step, n: nat)
    requires Inv(s) && Enabled(s, step) && step.AtA? && step.action.Deliver? && n in step.action.acked
    ensures n < s.a.nextPacketNum
  {
    assert n in step.action.packet.acks;
    var q :| q in s.sentA && q.num == n && q.epoch <= step.action.packet.epoch;
  }

  lemma {:induction false} NumbersGrow(steps: seq<Step>, states: seq<Sys>, i: nat, k: nat)
    requires Trace(steps, states) && i <= k < |states|
    ensures states[i].a.nextPacketNum <= states[k].a.nextPacketNum
    decreases k - i
  {
    hide Enabled, Do;
    if i < k {
      NumbersGrow(steps, states, i, k - 1);
      assert TakenAt(steps, states, k - 1);
      StepWaits(states[k - 1], steps[k - 1], states[k]);
    }
  }

  /** While an acknowledgement is awaited, no packet processed so far has acknowledged the awaited packet or a later one. */
  lemma AwaitedNotAcked(steps: seq<Step>, states: seq<Sys>, k: nat, v: nat, i: nat)
    requires Trace(steps, states) && i < k < |states| && states[k].a.verificationNum == Some(v)
    ensures !AcksFrom(states[i], steps[i], v)
  {
    hide Enabled, Do, Inv;
    AwaitedExactly(steps, states, k, v);
    var j :| 0 <= j < k && WaitsSince(steps, states, j, k, v);
    if i <= j && AcksFrom(states[i], steps[i], v) {
      var n :| n in steps[i].action.acked && n >= v;
      assert TakenAt(steps, states, i);
      TraceInv(steps, states, i);
      AckedWasSent(states[i], steps[i], n);
      NumbersGrow(steps, states, i, j);
    } else if j < i {
      assert StillWaits(states[i], steps[i], v);
    }
  }

  /** An update is pending exactly when it was started and no acknowledgement of the awaited packet was processed since. */
  lemma {:induction false} PendingExactly(steps: seq<Step>, states: seq<Sys>, k: nat)
    requires Trace(steps, states) && k < |states|
    ensures states[k].a.pendingVerification <==> exists j :: 0 <= j < k && PendsSince(steps, states, j, k)
    decreases k
  {
    hide Enabled, Do, StartsUpdate, AcksAwaited;
    if k > 0 {
      var p := k - 1;
      PendingExactly(steps, states, p);
      assert TakenAt(steps, states, p);
      StepWaits(states[p], steps[p], states[k]);
      if j :| 0 <= j < p && PendsSince(steps, states, j, p) && !AcksAwaited(states[p], steps[p]) {
        assert PendsSince(steps, states, j, k);
      }
      if j :| 0 <= j < p && PendsSince(steps, states, j, k) {
        assert PendsSince(steps, states, j, p) && !AcksAwaited(states[p], steps[p]);
      }
      if StartsUpdate(states[p], steps[p]) {
        assert PendsSince(steps, states, p, k);
      }
    }
  }

  ghost predicate PendsSince(steps: seq<Step>, states: seq<Sys>, j: nat, k: nat)
    requires j < k <= |steps| < |states|
  {
    StartsUpdate(states[j], steps[j]) && forall i :: j < i < k ==> !AcksAwaited(states[i], steps[i])
  }
}
