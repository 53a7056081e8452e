/**
 Round robin over control streams: the iteration that starts in the middle of the set and wraps,
 and the two rounds of a packet on one allowance (quic/api/QuicPacketScheduler.cpp,
 `MiddleStartingIterationWrapper`, the first `writeStreamsHelper`, and `writeStreams`).
 */
module RoundRobin {
  import opened Prelude
  import opened StreamScheduler

  /** A `std::set` of stream ids, in order. */
  ghost predicate Ordered(ids: seq<nat>) { forall i, j :: 0 <= i < j < |ids| ==> ids[i] < ids[j] }

  /** The place after `i`, wrapping. */
  function Step(ids: seq<nat>, i: nat): (r: nat)
    requires i < |ids|
    ensures r < |ids|
  {
    if i + 1 == |ids| then 0 else i + 1
  }

  /** The place `n` steps after `i`. */
  function Steps(ids: seq<nat>, i: nat, n: nat): (r: nat)
    requires i < |ids|
    ensures r < |ids|
    decreases n
  {
    if n == 0 then i else Steps(ids, Step(ids, i), n - 1)
  }

  /** The `n` streams met from place `i` on. */
  function Cycle(ids: seq<nat>, i: nat, n: nat): (r: seq<nat>)
    requires i < |ids|
    ensures |r| == n
    decreases n
  {
    if n == 0 then [] else [ids[i]] + Cycle(ids, Step(ids, i), n - 1)
  }

  /** Where a round starts: the first stream not below `start`, or the first of all. */
  function StartAt(ids: seq<nat>, start: nat): (i: nat)
    requires ids != []
    ensures i < |ids| && (ids[i] >= start || (i == 0 && forall j :: 0 <= j < |ids| ==> ids[j] < start))
    ensures forall j :: 0 <= j < i ==> ids[j] < start
  {
    var k := FirstNotBelow(ids, start, 0);
    if k == |ids| then 0 else k
  }

  function FirstNotBelow(ids: seq<nat>, start: nat, k: nat): (i: nat)
    requires k <= |ids|
    ensures k <= i <= |ids| && (i < |ids| ==> ids[i] >= start) && forall j :: k <= j < i ==> ids[j] < start
    decreases |ids| - k
  {
    if k == |ids| || ids[k] >= start then k else FirstNotBelow(ids, start, k + 1)
  }

  function Ids(streams: seq<Stream>): (r: seq<nat>)
    ensures |r| == |streams| && forall i :: 0 <= i < |r| ==> r[i] == streams[i].id
  {
    seq(|streams|, i requires 0 <= i < |streams| => streams[i].id)
  }

  /** What a round puts into the packet, what it leaves, and how many streams it served. */
  datatype Turn = Turn(frames: seq<Frame>, left: nat, conn: nat, served: nat, failed: bool)

  /**
   A round of at most `k` streams from place `i` on: it ends at a stream that finds the packet full,
   at an error, or after one stream if each packet takes one.
   */
  function Turns(streams: seq<Stream>, i: nat, k: nat, space: nat, conn: nat, one: bool): (r: Turn)
    requires i < |streams|
    ensures r.served <= k
    decreases k
  {
    if k == 0 then Turn([], space, conn, 0, false)
    else
      var w := SingleStream(streams[i], space, conn);
      if w.result == Failed || w.result == PacketFull then Turn(w.frames, w.left, w.conn, 0, w.result == Failed)
      else if one then Turn(w.frames, w.left, w.conn, 1, false)
      else
        var r := Turns(streams, Step(Ids(streams), i), k - 1, w.left, w.conn, one);
        Behind(Turn(w.frames, w.left, w.conn, 1, false), r)
  }

  /** A round behind the streams served before it. */
  function Behind(t: Turn, r: Turn): Turn { r.(frames := t.frames + r.frames, served := t.served + r.served) }

  lemma BehindBehind(t: Turn, u: Turn, r: Turn)
    ensures Behind(t, Behind(u, r)) == Behind(Turn(t.frames + u.frames, u.left, u.conn, t.served + u.served, false), r)
  {
    assert t.frames + (u.frames + r.frames) == (t.frames + u.frames) + r.frames;
  }

  /** Space and window shrink by exactly what was written. */
  ghost predicate Accounts(frames: seq<Frame>, space: nat, left: nat, conn: nat, connLeft: nat) {
    left <= space && Sizes(frames) == space - left && connLeft <= conn && FreshBytes(frames) == conn - connLeft
  }

  lemma AccountsJoin(a: seq<Frame>, b: seq<Frame>, space: nat, mid: nat, left: nat, conn: nat, midConn: nat, connLeft: nat)
    requires Accounts(a, space, mid, conn, midConn) && Accounts(b, mid, left, midConn, connLeft)
    ensures Accounts(a + b, space, left, conn, connLeft)
  {
    hide Sizes, FreshBytes;
    Append(a, b);
  }

  /**
   `writeStreamsHelper` over a set: the streams served follow each other in the cycle, none twice, the
   round is resumed behind them, and packet space and connection window shrink by exactly what was
   written.
   */
  method WriteControlStreams(streams: seq<Stream>, next: nat, space: nat, conn: nat, streamPerPacket: bool)
    returns (t: Turn, served: seq<nat>, resume: nat)
    requires streams != [] && AllSmall(streams) && space < 0x1_0000_0000
    ensures var start := StartAt(Ids(streams), next);
            && t == Turns(streams, start, |streams|, space, conn, streamPerPacket)
            && |served| == t.served && served == Cycle(Ids(streams), start, t.served)
            && resume == Ids(streams)[Steps(Ids(streams), start, t.served)]
    ensures Accounts(t.frames, space, t.left, conn, t.conn)
    ensures RoundServed(streams, StartAt(Ids(streams), next), space, conn, streamPerPacket, t)
  {
    hide SingleStream, Sizes, FreshBytes, FromStream, Cycle, Steps, Turns, Exact, RoundServed;
    var ids := Ids(streams);
    var start := StartAt(ids, next);
    RoundIsServed(streams, start, space, conn, streamPerPacket);
    var itr, wrapped := start, false;
    served, t := [], Turn([], space, conn, 0, false);
    assert Accounts([], space, space, conn, conn) by { NoFrames(); }
    StartOfCycle(ids, start);
    ghost var goal := Turns(streams, start, |streams|, space, conn, streamPerPacket);
    assert Behind(t, goal) == goal by { assert [] + goal.frames == goal.frames; }
    while !(wrapped && itr == start)
      invariant itr < |ids| && itr == Steps(ids, start, |served|) && t.served == |served| && !t.failed
      invariant |served| == if wrapped then |ids| - start + itr else itr - start
      invariant wrapped ==> itr <= start
      invariant served == Cycle(ids, start, |served|)
      invariant Accounts(t.frames, space, t.left, conn, t.conn)
      invariant Behind(t, Turns(streams, itr, |ids| - |served|, t.left, t.conn, streamPerPacket)) == goal
      decreases |ids| - |served|
    {
      var w := WriteSingleStream(streams[itr], t.left, t.conn);
      AccountsJoin(t.frames, w.frames, space, t.left, w.left, conn, t.conn, w.conn);
      TurnsStep(streams, itr, |ids| - |served|, t.left, t.conn, streamPerPacket);
      if w.result == Failed || w.result == PacketFull {
        t := Turn(t.frames + w.frames, w.left, w.conn, t.served, w.result == Failed);
        resume := ids[itr];
        return;
      }
      CycleSnoc(ids, start, |served|);
      StepsSnoc(ids, start, |served|);
      ghost var one := Turn(w.frames, w.left, w.conn, 1, false);
      BehindBehind(t, one, Turns(streams, Step(ids, itr), |ids| - |served| - 1, w.left, w.conn, streamPerPacket));
      served := served + [ids[itr]];
      t := Turn(t.frames + w.frames, w.left, w.conn, t.served + 1, false);
      itr := itr + 1;
      if itr == |ids| {
        wrapped, itr := true, 0;
      }
      if streamPerPacket {
        resume := ids[itr];
        return;
      }
    }
    TurnsEnd(streams, itr, t.left, t.conn, streamPerPacket);
    assert t.frames + [] == t.frames;
    resume := ids[itr];
  }

  lemma StartOfCycle(ids: seq<nat>, i: nat)
    requires i < |ids|
    ensures Cycle(ids, i, 0) == [] && Steps(ids, i, 0) == i
  {
  }

  lemma TurnsStep(streams: seq<Stream>, i: nat, k: nat, space: nat, conn: nat, one: bool)
    requires i < |streams| && k > 0
    ensures var w := SingleStream(streams[i], space, conn);
            Turns(streams, i, k, space, conn, one) ==
            if w.result == Failed || w.result == PacketFull then Turn(w.frames, w.left, w.conn, 0, w.result == Failed)
            else if one then Turn(w.frames, w.left, w.conn, 1, false)
            else Behind(Turn(w.frames, w.left, w.conn, 1, false),
                        Turns(streams, Step(Ids(streams), i), k - 1, w.left, w.conn, one))
  {
    hide SingleStream, Behind;
  }

  lemma TurnsEnd(streams: seq<Stream>, i: nat, space: nat, conn: nat, one: bool)
    requires i < |streams|
    ensures Turns(streams, i, 0, space, conn, one) == Turn([], space, conn, 0, false)
  {
  }

  /**
   `writeStreams`: control streams first, then the write queue, on one packet and one connection
   window. The frames of both together take exactly what the packet and the window lose, so the new
   bytes and the allowance that remains add up to the allowance at the start.
   */
  method WriteStreams(control: seq<Stream>, next: nat, queue: seq<Stream>, space: nat, conn: nat, streamPerPacket: bool)
    returns (frames: seq<Frame>, left: nat, connLeft: nat, resume: nat, rest: seq<Stream>, ok: bool)
    requires AllSmall(control) && AllSmall(queue) && space < 0x1_0000_0000
    ensures Accounts(frames, space, left, conn, connLeft)
    ensures control == [] ==>
              var q := Queue(queue, space, conn, streamPerPacket);
              resume == next && frames == q.frames && left == q.left && connLeft == q.conn && rest == q.rest
    ensures control != [] ==>
              var t := Turns(control, StartAt(Ids(control), next), |control|, space, conn, streamPerPacket);
              var q := Queue(queue, t.left, t.conn, streamPerPacket);
              if t.failed then !ok && frames == t.frames && rest == queue
              else
                && frames == t.frames + q.frames && left == q.left && connLeft == q.conn && rest == q.rest
                && resume == Ids(control)[Steps(Ids(control), StartAt(Ids(control), next), t.served)]
  {
    hide Sizes, FreshBytes, Queue, Turns, Steps;
    frames, left, connLeft, resume, rest := [], space, conn, next, queue;
    assert Accounts([], space, space, conn, conn) by { NoFrames(); }
    if control != [] {
      var t, served, place := WriteControlStreams(control, next, space, conn, streamPerPacket);
      frames, left, connLeft, resume := t.frames, t.left, t.conn, place;
      if t.failed {
        ok := false;
        return;
      }
    }
    var q, result := StreamScheduler.WriteStreams(queue, left, connLeft, streamPerPacket);
    AccountsJoin(frames, q.frames, space, left, q.left, conn, connLeft, q.conn);
    assert [] + q.frames == q.frames;
    frames, left, connLeft, rest, ok := frames + q.frames, q.left, q.conn, q.rest, result != Failed;
  }

  /**
   The stream served as number `n` of a round had a write of its own, exact, in what the streams before it left, that
   found neither a full packet nor an error.
   */
  lemma {:induction false} TurnWasServed(streams: seq<Stream>, i: nat, k: nat, space: nat, conn: nat, one: bool, n: nat)
      returns (t: Share)
    requires i < |streams| && AllSmall(streams) && space < 0x1_0000_0000
    requires n < Turns(streams, i, k, space, conn, one).served
    ensures Served(t, streams[Steps(Ids(streams), i, n)], space, conn, Turns(streams, i, k, space, conn, one).frames)
    ensures Unlimited(t.write)
    decreases n
  {
    hide SingleStream, Served, Sizes, FreshBytes, Exact, Ids, AllSmall;
    TurnsStep(streams, i, k, space, conn, one);
    var w := SingleStream(streams[i], space, conn);
    SmallAt(streams, i);
    SmallAt(streams, Steps(Ids(streams), i, n));
    var next := Step(Ids(streams), i);
    var rest := if one then Turn([], w.left, w.conn, 0, false) else Turns(streams, next, k - 1, w.left, w.conn, one);
    if n == 0 {
      t := ServedFirst(streams[i], space, conn, rest.frames);
      assert w.frames + [] == w.frames;
    } else {
      SingleStreamAccounts(streams[i], space, conn);
      var u := TurnWasServed(streams, next, k - 1, w.left, w.conn, one, n - 1);
      t := ServedBehind(u, streams[Steps(Ids(streams), i, n)], w, space, conn, rest.frames);
    }
  }

  /** A round that ends early ends at a stream that finds the packet full or an error, behind which nothing is written. */
  lemma {:induction false} RoundEndsFor(streams: seq<Stream>, i: nat, k: nat, space: nat, conn: nat, one: bool) returns (t: Share)
    requires i < |streams| && AllSmall(streams) && space < 0x1_0000_0000
    requires var r := Turns(streams, i, k, space, conn, one); r.served < k && (one ==> r.served == 0)
    ensures var r := Turns(streams, i, k, space, conn, one);
            && Served(t, streams[Steps(Ids(streams), i, r.served)], space, conn, r.frames)
            && t.after == [] && !Unlimited(t.write) && (r.failed <==> t.write.result == Failed)
    decreases k
  {
    hide SingleStream, Served, Sizes, FreshBytes, Exact, Ids, AllSmall;
    TurnsStep(streams, i, k, space, conn, one);
    var (w, r) := (SingleStream(streams[i], space, conn), Turns(streams, i, k, space, conn, one));
    SmallAt(streams, i);
    SmallAt(streams, Steps(Ids(streams), i, r.served));
    if !Unlimited(w) {
      t := ServedFirst(streams[i], space, conn, []);
      assert w.frames + [] == w.frames;
    } else {
      var next := Step(Ids(streams), i);
      var rest := Turns(streams, next, k - 1, w.left, w.conn, one);
      SingleStreamAccounts(streams[i], space, conn);
      var u := RoundEndsFor(streams, next, k - 1, w.left, w.conn, one);
      t := ServedBehind(u, streams[Steps(Ids(streams), next, rest.served)], w, space, conn, rest.frames);
    }
  }

  /**
   Every stream of the round had its write, and the round ended after all of them, after one if each packet takes one, or
   at a stream cut short.
   */
  ghost predicate RoundServed(streams: seq<Stream>, start: nat, space: nat, conn: nat, one: bool, t: Turn)
    requires start < |streams| && AllSmall(streams)
  {
    && t.served <= |streams|
    && (forall n :: 0 <= n < t.served ==> HadTurn(streams, Steps(Ids(streams), start, n), space, conn, t.frames))
    && (|| t.served == |streams| || (one && t.served == 1)
        || WasCut(streams[Steps(Ids(streams), start, t.served)], space, conn, t.frames))
  }

  ghost predicate HadTurn(streams: seq<Stream>, i: nat, space: nat, conn: nat, frames: seq<Frame>)
    requires i < |streams| && AllSmall(streams)
  {
    exists s :: Served(s, streams[i], space, conn, frames) && Unlimited(s.write)
  }

  lemma RoundIsServed(streams: seq<Stream>, start: nat, space: nat, conn: nat, one: bool)
    requires start < |streams| && AllSmall(streams) && space < 0x1_0000_0000
    ensures RoundServed(streams, start, space, conn, one, Turns(streams, start, |streams|, space, conn, one))
  {
    hide Served, Turns, Ids;
    var t := Turns(streams, start, |streams|, space, conn, one);
    if one { OnePerPacket(streams, start, |streams|, space, conn); }
    forall n | 0 <= n < t.served ensures HadTurn(streams, Steps(Ids(streams), start, n), space, conn, t.frames) {
      var _ := TurnWasServed(streams, start, |streams|, space, conn, one, n);
    }
    if t.served < |streams| && (one ==> t.served == 0) {
      var _ := RoundEndsFor(streams, start, |streams|, space, conn, one);
    }
  }

  lemma OnePerPacket(streams: seq<Stream>, i: nat, k: nat, space: nat, conn: nat)
    requires i < |streams|
    ensures Turns(streams, i, k, space, conn, true).served <= 1
  {
    hide SingleStream;
  }

  lemma SmallAt(streams: seq<Stream>, i: nat)
    requires AllSmall(streams) && i < |streams|
    ensures streams[i].Small()
  {
  }

  lemma {:induction false} CycleSnoc(ids: seq<nat>, i: nat, n: nat)
    requires i < |ids|
    ensures Cycle(ids, i, n + 1) == Cycle(ids, i, n) + [ids[Steps(ids, i, n)]]
    decreases n
  {
    if n > 0 {
      CycleSnoc(ids, Step(ids, i), n - 1);
      assert Cycle(ids, i, n + 1) == [ids[i]] + Cycle(ids, Step(ids, i), n);
    }
  }

  lemma {:induction false} StepsSnoc(ids: seq<nat>, i: nat, n: nat)
    requires i < |ids|
    ensures Steps(ids, i, n + 1) == Step(ids, Steps(ids, i, n))
    decreases n
  {
    if n > 0 { StepsSnoc(ids, Step(ids, i), n - 1); }
  }

  // ------------------------------------------------------------------ over many packets

  /** The streams served by packets that serve `counts` streams each, every one resuming behind the last. */
  ghost function ServedInRun(ids: seq<nat>, next: nat, counts: seq<nat>): seq<nat>
    requires ids != []
    decreases |counts|
  {
    if counts == [] then []
    else
      var i := StartAt(ids, next);
      Cycle(ids, i, counts[0]) + ServedInRun(ids, ids[Steps(ids, i, counts[0])], counts[1..])
  }

  ghost function Total(counts: seq<nat>): nat { if counts == [] then 0 else counts[0] + Total(counts[1..]) }

  lemma ResumeThere(ids: seq<nat>, i: nat)
    requires Ordered(ids) && i < |ids|
    ensures StartAt(ids, ids[i]) == i
  {
  }

  lemma {:induction false} CycleJoin(ids: seq<nat>, i: nat, m: nat, n: nat)
    requires i < |ids|
    ensures Cycle(ids, i, m) + Cycle(ids, Steps(ids, i, m), n) == Cycle(ids, i, m + n)
    decreases m
  {
    if m > 0 {
      CycleJoin(ids, Step(ids, i), m - 1, n);
      assert [ids[i]] + Cycle(ids, Step(ids, i), m - 1) + Cycle(ids, Steps(ids, i, m), n) ==
             [ids[i]] + (Cycle(ids, Step(ids, i), m - 1) + Cycle(ids, Steps(ids, i, m), n));
    }
  }

  /** However the packets cut it, the streams are served in one unbroken cycle. */
  lemma {:induction false} RunIsOneCycle(ids: seq<nat>, next: nat, counts: seq<nat>)
    requires Ordered(ids) && ids != []
    ensures ServedInRun(ids, next, counts) == Cycle(ids, StartAt(ids, next), Total(counts))
    decreases |counts|
  {
    if counts != [] {
      var i := StartAt(ids, next);
      var j := Steps(ids, i, counts[0]);
      ResumeThere(ids, j);
      RunIsOneCycle(ids, ids[j], counts[1..]);
      CycleJoin(ids, i, counts[0], Total(counts[1..]));
    }
  }

  /** One full turn meets every stream once, in order from the start. */
  lemma {:induction false} CycleRun(ids: seq<nat>, i: nat, n: nat)
    requires i < |ids| && n <= |ids| - i
    ensures Cycle(ids, i, n) == ids[i..i + n]
    ensures Steps(ids, i, n) == if i + n == |ids| then 0 else i + n
    decreases n
  {
    if n > 0 {
      if n > 1 { CycleRun(ids, i + 1, n - 1); }
      assert ids[i..i + n] == [ids[i]] + ids[i + 1..i + n];
    }
  }

  lemma FullTurn(ids: seq<nat>, i: nat)
    requires i < |ids|
    ensures Cycle(ids, i, |ids|) == ids[i..] + ids[..i] && Steps(ids, i, |ids|) == i
  {
    var m := |ids| - i;
    CycleRun(ids, i, m);
    CycleRun(ids, 0, i);
    CycleJoin(ids, i, m, i);
    StepsJoin(ids, i, m, i);
    assert ids[i..i + m] == ids[i..] && ids[0..0 + i] == ids[..i];
  }

  lemma {:induction false} StepsJoin(ids: seq<nat>, i: nat, m: nat, n: nat)
    requires i < |ids|
    ensures Steps(ids, Steps(ids, i, m), n) == Steps(ids, i, m + n)
    decreases m
  {
    if m > 0 { StepsJoin(ids, Step(ids, i), m - 1, n); }
  }

  /** No starvation: of any `|ids|` consecutive servings in a run, each stream gets exactly one. */
  lemma EveryStreamGetsItsTurn(ids: seq<nat>, next: nat, counts: seq<nat>, k: nat)
    requires Ordered(ids) && ids != [] && k + |ids| <= Total(counts)
    ensures |ServedInRun(ids, next, counts)| == Total(counts)
    ensures multiset(ServedInRun(ids, next, counts)[k..k + |ids|]) == multiset(ids)
  {
    hide Cycle, Steps, ServedInRun, StartAt, Total;
    var i, n := StartAt(ids, next), |ids|;
    RunIsOneCycle(ids, next, counts);
    var j := Steps(ids, i, k);
    CycleJoin(ids, i, k, n);
    CycleJoin(ids, i, k + n, Total(counts) - k - n);
    assert Cycle(ids, i, Total(counts))[k..k + n] == Cycle(ids, j, n);
    FullTurn(ids, j);
    assert ids == ids[..j] + ids[j..];
  }
}
