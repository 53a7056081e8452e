/**
 Byte event callbacks of one stream and one type (delivery or transmission):
 registering, firing and cancelling (quic/api/QuicTransportBaseLite.cpp).
 */
module ByteEvents {
  import opened Prelude
  import IntervalSets
  import SendBuffers
  import SendBufferProofs
  import SendStreamState

  /** An offset watched, and who watches it. */
  datatype Event = Event(offset: nat, callback: nat)

  datatype RegisterResult = Registered(scheduled: bool) | AlreadyRegistered | ConnectionClosed

  /** `getLargestDeliverableOffset`: the end of an interval that starts at zero. */
  function Deliverable(acked: seq<IntervalSets.Interval>): (r: Option<nat>) {
    if acked == [] || acked[0].start != 0 then None else Some(acked[0].end)
  }

  predicate NotBelow(a: Option<nat>, b: Option<nat>) { a.Some? ==> b.Some? && a.value <= b.value }

  /** Every offset up to the deliverable one is acknowledged, and the next is not. */
  lemma DeliverableIsAll(xs: seq<IntervalSets.Interval>, n: nat)
    requires IntervalSets.Canonical(xs)
    ensures Deliverable(xs).Some? && n <= Deliverable(xs).value <==> forall m :: 0 <= m <= n ==> IntervalSets.Has(xs, m)
  {
    if Deliverable(xs).Some? {
      var end := xs[0].end;
      if n <= end {
        forall m | 0 <= m <= n ensures IntervalSets.Has(xs, m) { IntervalSets.HasAt(xs, 0, m); }
      } else {
        IntervalSets.NotIn(xs, end + 1, 1);
      }
    } else {
      IntervalSets.NotIn(xs, 0, 0);
    }
  }

  /** What can be delivered never falls while acknowledgements are added. */
  lemma DeliverableGrows(xs: seq<IntervalSets.Interval>, ys: seq<IntervalSets.Interval>)
    requires IntervalSets.Canonical(xs) && IntervalSets.Canonical(ys)
    requires forall n: int :: IntervalSets.Has(xs, n) ==> IntervalSets.Has(ys, n)
    ensures NotBelow(Deliverable(xs), Deliverable(ys))
  {
    if Deliverable(xs).Some? {
      DeliverableIsAll(xs, xs[0].end);
      DeliverableIsAll(ys, xs[0].end);
    }
  }

  /** `getLargestWriteOffsetTxed`: the last position sent, or none. */
  function LargestTxed(currentWriteOffset: nat): (r: Option<nat>)
  {
    if currentWriteOffset == 0 then None else Some(currentWriteOffset - 1)
  }

  /** What has been transmitted never falls, whatever kind of write a frame is. */
  lemma TxedGrows(s: SendBuffers.Stream, f: SendBuffers.Frame)
    requires SendBuffers.HandleStreamWritten(s, f).0.Ok?
    ensures NotBelow(LargestTxed(s.currentWriteOffset), LargestTxed(SendBuffers.HandleStreamWritten(s, f).0.value.currentWriteOffset))
  {
  }

  /** In order of offset, and no callback twice at one offset. */
  ghost predicate Sorted(es: seq<Event>) {
    && (forall i, j :: 0 <= i < j < |es| ==> es[i].offset <= es[j].offset)
    && (forall i, j :: 0 <= i < j < |es| ==> es[i] != es[j])
  }

  /** The first place behind every event at or below the offset. */
  function UpperBound(es: seq<Event>, offset: nat, k: nat): (r: nat)
    requires k <= |es|
    ensures k <= r <= |es| && (r < |es| ==> offset < es[r].offset) && forall i :: k <= i < r ==> es[i].offset <= offset
    decreases |es| - k
  {
    if k == |es| || offset < es[k].offset then k else UpperBound(es, offset, k + 1)
  }

  lemma PutInSorted(es: seq<Event>, e: Event, k: nat, r: seq<Event>)
    requires Sorted(es) && e !in es && PutIn(es, e, k, r)
    requires forall i :: 0 <= i < k ==> es[i].offset <= e.offset
    requires forall i :: k <= i < |es| ==> e.offset < es[i].offset
    ensures Sorted(r)
  {
    forall i, j | 0 <= i < j < |r| ensures r[i].offset <= r[j].offset && r[i] != r[j] {
      if i != k && j != k {
        var i', j' := if i < k then i else i - 1, if j < k then j else j - 1;
        assert r[i] == es[i'] && r[j] == es[j'] && i' < j';
      }
    }
  }

  lemma InsertSorted(es: seq<Event>, e: Event)
    requires Sorted(es) && e !in es
    ensures var k := UpperBound(es, e.offset, 0); Sorted(es[..k] + [e] + es[k..])
  {
    hide UpperBound, Sorted;
    var k := UpperBound(es, e.offset, 0);
    AboveAll(es, e.offset, k);
    PutInSorted(es, e, k, es[..k] + [e] + es[k..]);
  }

  lemma AboveAll(es: seq<Event>, offset: nat, k: nat)
    requires Sorted(es) && k <= |es| && (k < |es| ==> offset < es[k].offset)
    ensures forall i :: k <= i < |es| ==> offset < es[i].offset
  {
    forall i | k <= i < |es| ensures offset < es[i].offset { assert i == k || es[k].offset <= es[i].offset; }
  }

  lemma Absent(es: seq<Event>, e: Event, k: nat)
    requires k <= |es| && e !in es[..k] && forall i :: k <= i < |es| ==> e.offset < es[i].offset
    ensures e !in es
  {
    forall i | 0 <= i < |es| ensures es[i] != e { assert i < k ==> es[i] in es[..k]; }
  }

  lemma RemoveSorted(es: seq<Event>, k: nat)
    requires Sorted(es) && k < |es|
    ensures Sorted(es[..k] + es[k + 1..])
  {
    var r := es[..k] + es[k + 1..];
    assert forall i :: 0 <= i < |r| ==> r[i] == es[if i < k then i else i + 1];
  }

  /** Events that match, from the front, until one does not. */
  function Prefix(es: seq<Event>, match_: nat -> bool, k: nat): (r: nat)
    requires k <= |es|
    ensures k <= r <= |es| && (r < |es| ==> !match_(es[r].offset)) && forall i :: k <= i < r ==> match_(es[i].offset)
    decreases |es| - k
  {
    if k == |es| || !match_(es[k].offset) then k else Prefix(es, match_, k + 1)
  }

  lemma PrefixIs(es: seq<Event>, match_: nat -> bool, done: seq<Event>, left: seq<Event>)
    requires done + left == es && (left != [] ==> !match_(left[0].offset))
    requires forall i :: 0 <= i < |done| ==> match_(done[i].offset)
    ensures Prefix(es, match_, 0) == |done|
  {
    assert forall i :: 0 <= i < |done| ==> es[i] == done[i];
    assert left != [] ==> es[|done|] == left[0];
  }

  /** Each registration is waiting, or was fired once, or was cancelled once. */
  ghost predicate Ledger(registered: multiset<Event>, fired: multiset<Event>, cancelled: multiset<Event>, es: seq<Event>) {
    registered == fired + cancelled + multiset(es)
  }

  lemma LedgerInsert(registered: multiset<Event>, fired: multiset<Event>, cancelled: multiset<Event>, es: seq<Event>, k: nat, e: Event)
    requires Ledger(registered, fired, cancelled, es) && k <= |es|
    ensures Ledger(registered + multiset{e}, fired, cancelled, es[..k] + [e] + es[k..])
    ensures multiset(es[..k] + [e] + es[k..]) == multiset(es) + multiset{e}
  {
    assert es == es[..k] + es[k..];
  }

  lemma LedgerRemove(registered: multiset<Event>, fired: multiset<Event>, cancelled: multiset<Event>, es: seq<Event>, k: nat)
    requires Ledger(registered, fired, cancelled, es) && k < |es|
    ensures Ledger(registered, fired + multiset{es[k]}, cancelled, es[..k] + es[k + 1..])
    ensures Ledger(registered, fired, cancelled + multiset{es[k]}, es[..k] + es[k + 1..])
    ensures multiset(es) == multiset(es[..k] + es[k + 1..]) + multiset{es[k]}
  {
    assert es == es[..k] + [es[k]] + es[k + 1..];
  }

  lemma FrontOff(registered: multiset<Event>, fired: multiset<Event>, cancelled: multiset<Event>, es: seq<Event>)
    requires Ledger(registered, fired, cancelled, es) && Sorted(es) && es != []
    ensures Ledger(registered, fired, cancelled + multiset{es[0]}, es[1..]) && Sorted(es[1..])
    ensures [es[0]] + es[1..] == es
  {
    hide Sorted, Ledger;
    RemoveSorted(es, 0);
    LedgerRemove(registered, fired, cancelled, es, 0);
    assert es[..0] + es[1..] == es[1..];
  }

  class StreamByteEvents {
    var events: seq<Event>
    /** Whether the transport is open, and whether closing it has cancelled what waited. */
    var open: bool
    var allCancelled: bool
    /** The largest offset delivered or sent, which only grows. */
    var reached: Option<nat>
    /** Events whose call was scheduled because they were ready when registered. */
    ghost var scheduled: set<Event>
    /** Everything ever registered, fired and cancelled. */
    ghost var registered: multiset<Event>
    ghost var fired: multiset<Event>
    ghost var cancelled: multiset<Event>

    ghost predicate Valid()
      reads this
    {
      && Sorted(events) && Ledger(registered, fired, cancelled, events)
      && (forall e :: e in scheduled ==> reached.Some? && e.offset <= reached.value)
      && (allCancelled ==> !open && events == [] && Settled())
    }

    /** Each registration was fired exactly once or cancelled exactly once. */
    ghost predicate Settled()
      reads this
    {
      registered == fired + cancelled
    }

    constructor ()
      ensures Valid() && open && events == [] && registered == multiset{}
    {
      open, allCancelled := true, false;
      events, registered, fired, cancelled := [], multiset{}, multiset{}, multiset{};
      reached, scheduled := None, {};
    }

    /** The stream's bytes move on to a larger offset. */
    method Advance(offset: Option<nat>)
      requires Valid() && NotBelow(reached, offset)
      modifies this`reached
      ensures Valid() && reached == offset
    {
      reached := offset;
    }

    /** An acknowledgement adds to the acknowledged intervals; what can be delivered grows with them. */
    method Delivered(acked: IntervalSets.IntervalSet, iv: IntervalSets.Interval)
      requires Valid() && IntervalSets.Canonical(acked.intervals) && iv.Fits() && reached == Deliverable(acked.intervals)
      modifies this`reached, acked
      ensures Valid() && IntervalSets.Canonical(acked.intervals) && reached == Deliverable(acked.intervals)
      ensures forall n: int :: IntervalSets.Has(acked.intervals, n) <==> old(IntervalSets.Has(acked.intervals, n)) || iv.Has(n)
      ensures NotBelow(old(reached), reached)
    {
      hide IntervalSets.Canonical, IntervalSets.Has, Sorted, Ledger;
      ghost var before := acked.intervals;
      acked.Insert(iv);
      DeliverableGrows(before, acked.intervals);
      Advance(Deliverable(acked.intervals));
    }

    /** A frame of the stream is written; the last position sent does not fall. */
    method Transmitted(stream: SendStreamState.QuicStreamLike, f: SendBuffers.Frame) returns (kind: SendBuffers.WriteKind)
      requires Valid() && SendBuffers.StreamInv(stream.View()) && reached == LargestTxed(stream.currentWriteOffset)
      requires SendBufferProofs.CutFromPending(stream.View(), f) || f.offset in stream.retransmissionBuffer
               || f.offset > stream.currentWriteOffset
               || exists k :: 0 <= k < |stream.lossBuffer| && SendBufferProofs.CutFromLoss(stream.View(), f, k)
      modifies this`reached, stream
      ensures Valid() && SendBuffers.StreamInv(stream.View()) && reached == LargestTxed(stream.currentWriteOffset)
      ensures NotBelow(old(reached), reached)
    {
      hide SendBuffers.StreamInv, SendBuffers.HandleStreamWritten, SendBufferProofs.CutFromPending, SendBufferProofs.CutFromLoss;
      hide Sorted, Ledger;
      ghost var before := stream.View();
      kind := stream.Written(f);
      TxedGrows(before, f);
      Advance(LargestTxed(stream.currentWriteOffset));
    }

    /** `registerByteEventCallback`. */
    method Register(offset: nat, callback: nat) returns (r: RegisterResult)
      requires Valid()
      modifies this`events, this`registered, this`scheduled
      ensures Valid()
      ensures r == ConnectionClosed <==> !open
      ensures r == AlreadyRegistered <==> open && Event(offset, callback) in old(events)
      ensures !r.Registered? ==> events == old(events) && registered == old(registered) && scheduled == old(scheduled)
      ensures r.Registered? ==>
                && multiset(events) == old(multiset(events)) + multiset{Event(offset, callback)}
                && registered == old(registered) + multiset{Event(offset, callback)}
                && (r.scheduled <==> reached.Some? && offset <= reached.value)
                && scheduled == old(scheduled) + if r.scheduled then {Event(offset, callback)} else {}
    {
      hide Sorted, UpperBound, Ledger;
      if !open {
        return ConnectionClosed;
      }
      var e := Event(offset, callback);
      var pos := UpperBound(events, offset, 0);
      AboveAll(events, offset, pos);
      if e in events[..pos] {
        return AlreadyRegistered;
      }
      Absent(events, e, pos);
      InsertSorted(events, e);
      LedgerInsert(registered, fired, cancelled, events, pos, e);
      events := events[..pos] + [e] + events[pos..];
      registered := registered + multiset{e};
      r := Registered(reached.Some? && offset <= reached.value);
      if r.scheduled {
        scheduled := scheduled + {e};
      }
    }

    /** Takes one event out of the list and calls back. */
    method FireAt(k: nat) returns (e: Event)
      requires Valid() && k < |events|
      modifies this`events, this`fired
      ensures Valid() && e == old(events[k]) && events == old(events[..k] + events[k + 1..]) && fired == old(fired) + multiset{e}
      ensures old(multiset(events)) == multiset(events) + multiset{e}
    {
      hide Sorted, Ledger;
      RemoveSorted(events, k);
      LedgerRemove(registered, fired, cancelled, events, k);
      e := events[k];
      events := events[..k] + events[k + 1..];
      fired := fired + multiset{e};
    }

    /** Takes the first event off the list and tells it that it is cancelled. */
    method CancelFront() returns (e: Event)
      requires Valid() && events != []
      modifies this`events, this`cancelled
      ensures Valid() && [e] + events == old(events) && cancelled == old(cancelled) + multiset{e}
    {
      hide Sorted, Ledger;
      FrontOff(registered, fired, cancelled, events);
      e := events[0];
      events := events[1..];
      cancelled := cancelled + multiset{e};
    }

    /** The call scheduled by a registration that was ready: it fires the event if the transport is open and it still waits. */
    method RunScheduled(offset: nat, callback: nat) returns (called: bool)
      requires Valid() && Event(offset, callback) in scheduled
      modifies this`events, this`fired
      ensures Valid() && (called <==> open && Event(offset, callback) in old(events))
      ensures fired == old(fired) + if called then multiset{Event(offset, callback)} else multiset{}
      ensures called ==> multiset(events) == old(multiset(events)) - multiset{Event(offset, callback)}
      ensures !called ==> events == old(events)
      ensures reached.Some? && offset <= reached.value
    {
      hide Sorted, Ledger;
      called := false;
      if !open {
        return;
      }
      for k := 0 to |events|
        invariant forall i :: 0 <= i < k ==> events[i] != Event(offset, callback)
      {
        if events[k] == Event(offset, callback) {
          var e := FireAt(k);
          return true;
        }
      }
    }

    /**
     The loops of `handleDeliveryCallbacks` and `processCallbacksAfterWriteData`: exactly the
     events at or below the offset reached are fired, each once, in order of offset.
     */
    method FireReady() returns (calls: seq<Event>)
      requires Valid() && reached.Some?
      modifies this`events, this`fired
      ensures Valid() && calls + events == old(events) && fired == old(fired) + multiset(calls)
      ensures forall i :: 0 <= i < |calls| ==> calls[i].offset <= reached.value
      ensures forall i :: 0 <= i < |events| ==> events[i].offset > reached.value
    {
      hide Sorted, Ledger;
      calls := [];
      while events != [] && events[0].offset <= reached.value
        invariant Valid() && calls + events == old(events) && fired == old(fired) + multiset(calls)
        invariant forall i :: 0 <= i < |calls| ==> calls[i].offset <= reached.value
        decreases |events|
      {
        ghost var before := events;
        var e := FireAt(0);
        assert before == [e] + events;
        calls := calls + [e];
      }
      if events != [] { AboveAll(events, reached.value, 0); }
    }

    /** `cancelByteEventCallbacksForStreamInternal`: events are cancelled from the front while they match. */
    method Cancel(match_: nat -> bool) returns (calls: seq<Event>)
      requires Valid()
      modifies this`events, this`cancelled
      ensures Valid() && calls + events == old(events) && cancelled == old(cancelled) + multiset(calls)
      ensures |calls| == Prefix(old(events), match_, 0)
    {
      hide Sorted, Ledger;
      calls := [];
      while events != [] && match_(events[0].offset)
        invariant Valid() && calls + events == old(events) && cancelled == old(cancelled) + multiset(calls)
        invariant forall i :: 0 <= i < |calls| ==> match_(calls[i].offset)
        decreases |events|
      {
        var e := CancelFront();
        calls := calls + [e];
      }
      PrefixIs(old(events), match_, calls, events);
    }

    /** The transport leaves its open state; nothing is registered or fired on schedule after that. */
    method Close()
      requires Valid()
      modifies this`open
      ensures Valid() && !open
    {
      open := false;
    }

    /** Closing cancels whatever waits, and every registration is settled from then on. */
    method CancelAll() returns (calls: seq<Event>)
      requires Valid() && !open
      modifies this`events, this`cancelled, this`allCancelled
      ensures Valid() && calls == old(events) && events == [] && cancelled == old(cancelled) + multiset(calls)
      ensures allCancelled && Settled()
    {
      calls := events;
      allCancelled := true;
      events := [];
      cancelled := cancelled + multiset(calls);
    }
  }

  // ------------------------------------------------------------------ which events a cancellation reaches

  /** All matching events, and no others, are cancelled. */
  ghost predicate CancelsExactly(es: seq<Event>, match_: nat -> bool) {
    forall i :: 0 <= i < |es| ==> (i < Prefix(es, match_, 0) <==> match_(es[i].offset))
  }

  /** Cancelling what lies below a bound is exact: the list is in order. */
  lemma CancelBelowIsExact(es: seq<Event>, bound: nat)
    requires Sorted(es)
    ensures CancelsExactly(es, offset => offset < bound)
  {
    var match_ := (offset: nat) => offset < bound;
    var p := Prefix(es, match_, 0);
    forall i | p <= i < |es| ensures !match_(es[i].offset) { assert i == p || es[p].offset <= es[i].offset; }
  }

  /**
   A reset with a reliable size means to cancel what lies at or above the size. It does so exactly
   when no event lies below it, or none at or above: an event below stops the walk from the front.
   */
  lemma ResetCancelExact(es: seq<Event>, reliableSize: nat)
    requires Sorted(es)
    ensures CancelsExactly(es, offset => offset >= reliableSize) <==>
            !(es != [] && es[0].offset < reliableSize && es[|es| - 1].offset >= reliableSize)
  {
    var match_ := (offset: nat) => offset >= reliableSize;
    var p := Prefix(es, match_, 0);
    if es != [] {
      var l := |es| - 1;
      assert forall i :: 0 < i < |es| ==> es[0].offset <= es[i].offset;
      assert forall i :: 0 <= i < l ==> es[i].offset <= es[l].offset;
      if es[0].offset >= reliableSize {
        assert forall i :: 0 <= i < |es| ==> match_(es[i].offset);
      } else {
        assert p == 0;
        assert CancelsExactly(es, match_) ==> !match_(es[l].offset);
      }
    }
  }

  /** Two events around the reliable size: neither is cancelled. */
  lemma ResetMissesEvent()
    ensures var es := [Event(5, 0), Event(10, 1)];
            Sorted(es) && Prefix(es, offset => offset >= 8, 0) == 0 && es[1].offset >= 8
  {
  }
}
