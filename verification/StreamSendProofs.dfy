/**
 Over every run of writes, sends, retransmissions, clones, acknowledgements and
 losses, no CHECK of the send side fails and no sent byte is forgotten.
 */
module StreamSendProofs {
  import opened Prelude
  import opened SendBuffers
  import opened SendBufferProofs
  import opened StreamSend

  // ------------------------------------------------------------------ the frames of a packet

  /** Writing frames added one matching buffer per frame and kept the buffers already in flight. */
  ghost predicate Added(s: Stream, fs: seq<Frame>, r: Stream) {
    && r.retransmissionBuffer.Keys == s.retransmissionBuffer.Keys + Offsets(fs)
    && (forall k :: k in s.retransmissionBuffer ==> r.retransmissionBuffer[k] == s.retransmissionBuffer[k])
    && AllMatch(r, fs) && Distinct(fs) && Offsets(fs) !! s.retransmissionBuffer.Keys
  }

  lemma AddedCons(s: Stream, f: Frame, m: Stream, fs: seq<Frame>, r: Stream)
    requires Added(s, [f], m) && Added(m, fs, r)
    ensures Added(s, [f] + fs, r)
  {
    assert f in [f];
    assert Offsets([f] + fs) == Offsets([f]) + Offsets(fs) by {
      assert forall g :: g in [f] + fs <==> g in [f] || g in fs;
    }
    assert f.offset in Offsets([f]) && f.offset in m.retransmissionBuffer;
    forall g | g in [f] + fs ensures Matches(r, g) {}
    forall j | 0 <= j < |fs| ensures fs[j].offset != f.offset { assert fs[j].offset in Offsets(fs); }
  }

  lemma AddedOne(s: Stream, f: Frame, r: Stream)
    requires f.offset !in s.retransmissionBuffer && Matches(r, f)
    requires r.retransmissionBuffer == s.retransmissionBuffer[f.offset := r.retransmissionBuffer[f.offset]]
    ensures Added(s, [f], r)
  {
    assert Offsets([f]) == {f.offset};
  }

  /** The new-data part of a packet: at most one frame. */
  lemma WriteTail(s: Stream, tail: seq<Frame>)
    requires StreamInv(s) && (tail == [] || (|tail| == 1 && CutFromPending(s, tail[0])))
    ensures var r := WriteFrames(s, tail);
            && r.Ok? && StreamInv(r.value) && Added(s, tail, r.value)
            && (AckedReleased(s) ==> AckedReleased(r.value))
  {
    if tail != [] {
      var f := tail[0];
      NewDataShape(s, f);
      NewDataInv(s, f);
      AddedOne(s, f, HandleStreamWritten(s, f).0.value);
      assert tail == [f] && tail[1..] == [];
    }
  }

  lemma WriteRetransmission(s: Stream, f: Frame, k: nat, q: seq<Buf>) returns (m: Stream)
    requires StreamInv(s) && CutFromLoss(s, f, k) && q == s.lossBuffer[k..]
    ensures HandleStreamWritten(s, f) == (Ok(m), Retransmission)
    ensures StreamInv(m) && Added(s, [f], m) && (AckedReleased(s) ==> AckedReleased(m))
    ensures |q[1..]| <= |m.lossBuffer| && q[1..] == m.lossBuffer[|m.lossBuffer| - |q[1..]|..]
    ensures m.currentWriteOffset == s.currentWriteOffset && m.pendingWrites == s.pendingWrites
    ensures m.app == s.app && m.finalWriteOffset == s.finalWriteOffset
  {
    RetransmitShape(s, f, k);
    RetransmitInv(s, f, k);
    m := HandleStreamWritten(s, f).0.value;
    AddedOne(s, f, m);
    SuffixAfterCut(s.lossBuffer, f, k, q);
  }

  lemma FirstCut(s: Stream, q: seq<Buf>, grants: seq<nat>, k: nat)
    requires StreamInv(s) && k <= |s.lossBuffer| && q == s.lossBuffer[k..]
    requires Granted(q, grants) && grants != []
    ensures CutFromLoss(s, LossFrames(q, grants)[0], k) && Granted(q[1..], grants[1..])
  {
    assert s.lossBuffer[k] == q[0];
  }

  lemma WriteCons(s: Stream, f: Frame, m: Stream, fs: seq<Frame>)
    requires HandleStreamWritten(s, f) == (Ok(m), Retransmission) && Added(s, [f], m)
    requires WriteFrames(m, fs).Ok? && Added(m, fs, WriteFrames(m, fs).value)
    ensures WriteFrames(s, [f] + fs) == WriteFrames(m, fs)
    ensures Added(s, [f] + fs, WriteFrames(m, fs).value)
  {
    AddedCons(s, f, m, fs, WriteFrames(m, fs).value);
    assert ([f] + fs)[1..] == fs;
  }

  /** A packet's retransmissions, cut from a suffix `q` of the loss buffer, then its new data. */
  lemma {:induction false} WriteScheduled(s: Stream, q: seq<Buf>, grants: seq<nat>, tail: seq<Frame>)
    requires StreamInv(s) && |q| <= |s.lossBuffer| && q == s.lossBuffer[|s.lossBuffer| - |q|..]
    requires Granted(q, grants)
    requires tail == [] || (|tail| == 1 && CutFromPending(s, tail[0]))
    ensures var fs := LossFrames(q, grants) + tail;
            var r := WriteFrames(s, fs);
            && r.Ok? && StreamInv(r.value) && Added(s, fs, r.value)
            && (AckedReleased(s) ==> AckedReleased(r.value))
    decreases |grants|
  {
    hide StreamInv, AckedReleased, Added, WriteFrames, HandleStreamWritten;
    var fs := LossFrames(q, grants) + tail;
    if grants == [] {
      assert fs == tail;
      WriteTail(s, tail);
    } else {
      var k, f := |s.lossBuffer| - |q|, LossFrames(q, grants)[0];
      FirstCut(s, q, grants, k);
      var m := WriteRetransmission(s, f, k, q);
      var rest := LossFrames(q[1..], grants[1..]) + tail;
      WriteScheduled(m, q[1..], grants[1..], tail);
      WriteCons(s, f, m, rest);
      assert fs == [f] + rest;
    }
  }

  /** Cutting from one loss entry leaves the entries behind it where they were, counted from the end. */
  lemma SuffixAfterCut(p: seq<Buf>, f: Frame, k: nat, q: seq<Buf>)
    requires k < |p| && q == p[k..] && f.len <= |p[k].data|
    ensures var r := LossAfterCut(p, f, k);
            |q[1..]| <= |r| && q[1..] == r[|r| - |q[1..]|..]
  {
  }

  lemma {:induction false} AckFramesInv(s: Stream, fs: seq<Frame>)
    requires StreamInv(s) && AllMatch(s, fs) && Distinct(fs)
    ensures var r := AckFrames(s, fs);
            && r.Ok? && StreamInv(r.value)
            && r.value.retransmissionBuffer == s.retransmissionBuffer - Offsets(fs)
            && (AckedReleased(s) ==> AckedReleased(r.value))
    decreases |fs|
  {
    if fs != [] {
      assert fs[0] in fs;
      AckInv(s, fs[0]);
      RestMatches(s, fs, AckFrame(s, fs[0]).value);
      AckFramesInv(AckFrame(s, fs[0]).value, fs[1..]);
    }
  }

  lemma {:induction false} LoseFramesInv(s: Stream, fs: seq<Frame>)
    requires StreamInv(s) && AllMatch(s, fs) && Distinct(fs)
    ensures var r := LoseFrames(s, fs);
            && StreamInv(r)
            && r.retransmissionBuffer == s.retransmissionBuffer - Offsets(fs)
            && (AckedReleased(s) ==> AckedReleased(r))
    decreases |fs|
  {
    if fs != [] {
      assert fs[0] in fs;
      LoseInv(s, fs[0]);
      RestMatches(s, fs, LoseFrame(s, fs[0]));
      LoseFramesInv(LoseFrame(s, fs[0]), fs[1..]);
    }
  }

  /** Releasing the buffer of the first frame leaves the other frames matched. */
  lemma RestMatches(s: Stream, fs: seq<Frame>, r: Stream)
    requires fs != [] && AllMatch(s, fs) && Distinct(fs)
    requires r.retransmissionBuffer == s.retransmissionBuffer - {fs[0].offset}
    ensures AllMatch(r, fs[1..]) && Distinct(fs[1..])
    ensures Offsets(fs) == {fs[0].offset} + Offsets(fs[1..])
  {
    assert forall f :: f in fs <==> f == fs[0] || f in fs[1..];
    forall f | f in fs[1..] ensures Matches(r, f) {
      var j :| 0 <= j < |fs[1..]| && fs[1..][j] == f;
      assert fs[j + 1] == f;
    }
  }

  /** A live packet is always rebuilt with the frames it was sent with. */
  lemma {:induction false} RebuildSame(s: Stream, fs: seq<Frame>)
    requires StreamInv(s) && AllMatch(s, fs)
    ensures RebuildFrames(s, fs) == Some(fs)
    decreases |fs|
  {
    if fs != [] {
      var f := fs[0];
      assert Matches(s, f) && BufOk(s, s.retransmissionBuffer[f.offset]);
      assert forall g :: g in fs[1..] ==> g in fs;
      RebuildSame(s, fs[1..]);
      assert fs == [f] + fs[1..];
    }
  }

  lemma {:induction false} WriteClones(s: Stream, fs: seq<Frame>)
    requires StreamInv(s) && AllMatch(s, fs)
    ensures WriteFrames(s, fs) == Ok(s)
    decreases |fs|
  {
    if fs != [] {
      assert Matches(s, fs[0]);
      CloneIsClone(s, fs[0]);
      assert forall g :: g in fs[1..] ==> g in fs;
      WriteClones(s, fs[1..]);
    }
  }

  // ------------------------------------------------------------------ sending

  lemma SendInv(c: Conn, grants: seq<nat>, grant: Option<nat>)
    requires ConnInv(c) && Enabled(c, Send(grants, grant))
    ensures var r := Next(c, Send(grants, grant));
            r.Ok? && ConnInv(r.value) && (AckedReleased(c.stream) ==> AckedReleased(r.value.stream))
  {
    var s, fs := c.stream, Scheduled(c.stream, grants, grant);
    var tail := if grant.Some? then [NewFrame(s, grant.value)] else [];
    assert s.lossBuffer == s.lossBuffer[|s.lossBuffer| - |s.lossBuffer|..];
    assert tail != [] ==> CutFromPending(s, tail[0]);
    WriteScheduled(s, s.lossBuffer, grants, tail);
    var r := SendPacket(c, fs).value;
    SendIds(c, fs, r);
    SendGroups(c, fs, r);
    SendCounts(c, fs, r);
  }

  lemma SendIds(c: Conn, fs: seq<Frame>, r: Conn)
    requires ConnInv(c) && SendPacket(c, fs) == Ok(r) && Added(c.stream, fs, r.stream)
    ensures IdsOk(r)
    ensures Live(r, c.nextPacketNum) && Group(r, c.nextPacketNum) == c.nextPacketNum
    ensures forall n :: n in c.packets ==> n in r.packets && r.packets[n] == c.packets[n]
    ensures forall n :: n != c.nextPacketNum ==> Live(r, n) == Live(c, n)
  {
    hide StreamInv, LiveMatch, GroupsOk, NoOrphans, CountsOk, Added, WriteFrames;
  }

  lemma SendGroups(c: Conn, fs: seq<Frame>, r: Conn)
    requires ConnInv(c) && SendPacket(c, fs) == Ok(r) && Added(c.stream, fs, r.stream)
    ensures LiveMatch(r) && GroupsOk(r) && NoOrphans(r)
  {
    hide StreamInv, CountsOk, WriteFrames;
    SendIds(c, fs, r);
    var z := c.nextPacketNum;
    forall n | Live(c, n)
      ensures AllMatch(r.stream, c.packets[n].frames)
      ensures Offsets(c.packets[n].frames) !! Offsets(fs)
    {
      assert forall f :: f in c.packets[n].frames ==> f.offset in c.stream.retransmissionBuffer;
    }
    forall k | k in r.stream.retransmissionBuffer ensures Owned(r, k) {
      if k in c.stream.retransmissionBuffer {
        assert Owned(c, k);
        var n :| Live(c, n) && k in Offsets(c.packets[n].frames);
        assert Live(r, n) && k in Offsets(r.packets[n].frames);
      } else {
        assert Live(r, z) && k in Offsets(r.packets[z].frames);
      }
    }
  }

  lemma SendLiveGroups(c: Conn, fs: seq<Frame>, r: Conn)
    requires ConnInv(c) && SendPacket(c, fs) == Ok(r) && Added(c.stream, fs, r.stream)
    ensures LiveGroups(r) == LiveGroups(c) + {c.nextPacketNum}
  {
    hide ConnInv, Live, Added;
    SendIds(c, fs, r);
    var z := c.nextPacketNum;
    forall g | g in LiveGroups(c) ensures g in LiveGroups(r) {
      var n :| n in c.packets && Live(c, n) && Group(c, n) == g;
      assert n in r.packets && Live(r, n) && Group(r, n) == g;
    }
    assert z in r.packets && Live(r, z) && Group(r, z) == z;
  }

  lemma SendCounts(c: Conn, fs: seq<Frame>, r: Conn)
    requires ConnInv(c) && SendPacket(c, fs) == Ok(r) && Added(c.stream, fs, r.stream)
    ensures CountsOk(r)
  {
    hide StreamInv, LiveMatch, GroupsOk, NoOrphans, WriteFrames, LiveGroups, Added;
    SendIds(c, fs, r);
    SendLiveGroups(c, fs, r);
    GroupsBelow(c);
    assert Cloned(r) == Cloned(c) && DeclaredLost(r) == DeclaredLost(c);
  }

  lemma GroupsBelow(c: Conn)
    requires IdsOk(c)
    ensures forall g :: g in LiveGroups(c) ==> g < c.nextPacketNum
  {
  }

  // ------------------------------------------------------------------ a packet that is processed

  /** `n` left the set of packets that can still be processed: it was removed, or declared lost. */
  ghost predicate Gone(c: Conn, n: nat, r: Conn) {
    && n in c.packets && !c.packets[n].declaredLost
    && r.cloneIds == EraseId(c, n) && r.nextPacketNum == c.nextPacketNum
    && (forall m :: m != n ==> (m in r.packets <==> m in c.packets))
    && (forall m :: m != n && m in c.packets ==> r.packets[m] == c.packets[m])
    && (n in r.packets ==> r.packets[n] == c.packets[n].(declaredLost := true))
  }

  /** Processing a live packet ends the life of all its clones and of nothing else. */
  lemma GoneLive(c: Conn, n: nat, r: Conn)
    requires IdsOk(c) && Gone(c, n, r)
    ensures IdsOk(r)
    ensures Live(c, n) ==> forall m :: Live(r, m) <==> Live(c, m) && Group(c, m) != Group(c, n)
    ensures !Live(c, n) ==> forall m :: Live(r, m) <==> Live(c, m)
    ensures forall m :: m in r.packets ==> m in c.packets && Group(r, m) == Group(c, m)
  {
    forall g | g in r.cloneIds ensures g in r.packets && r.packets[g].cloneId == Some(g) && Live(r, g) {
      assert g in c.cloneIds && g != n;
    }
  }

  lemma GoneGroups(c: Conn, n: nat, r: Conn)
    requires ConnInv(c) && Gone(c, n, r)
    requires r.stream.retransmissionBuffer ==
               if Live(c, n) then c.stream.retransmissionBuffer - Offsets(c.packets[n].frames)
               else c.stream.retransmissionBuffer
    ensures LiveMatch(r) && GroupsOk(r) && NoOrphans(r)
  {
    hide StreamInv, CountsOk, IdsOk;
    assert IdsOk(c);
    GoneLive(c, n, r);
    forall m | Live(r, m) ensures AllMatch(r.stream, r.packets[m].frames) && Distinct(r.packets[m].frames) {
      assert AllMatch(c.stream, c.packets[m].frames);
      assert Live(c, n) ==> Offsets(c.packets[n].frames) !! Offsets(c.packets[m].frames);
      assert forall f :: f in c.packets[m].frames ==> f.offset in Offsets(c.packets[m].frames);
    }
    forall k | k in r.stream.retransmissionBuffer ensures Owned(r, k) {
      assert Owned(c, k);
      var m :| Live(c, m) && k in Offsets(c.packets[m].frames);
      assert Live(r, m) && k in Offsets(r.packets[m].frames);
    }
  }

  lemma GoneLiveGroups(c: Conn, n: nat, r: Conn)
    requires IdsOk(c) && Gone(c, n, r)
    ensures LiveGroups(r) == if Live(c, n) then LiveGroups(c) - {Group(c, n)} else LiveGroups(c)
    ensures Live(c, n) ==> Group(c, n) in LiveGroups(c)
  {
    hide IdsOk, Live;
    GoneLive(c, n, r);
    forall h | h in LiveGroups(c) && (Live(c, n) ==> h != Group(c, n)) ensures h in LiveGroups(r) {
      var m :| m in c.packets && Live(c, m) && Group(c, m) == h;
      assert m in r.packets by { assert Live(r, m); InPackets(r, m); }
      assert Live(r, m) && Group(r, m) == h;
    }
  }

  lemma InPackets(c: Conn, n: nat)
    requires Live(c, n)
    ensures n in c.packets
  {
  }

  /** The counters a processed packet is counted out of are positive, and count right afterwards. */
  lemma GoneCounts(c: Conn, n: nat, r: Conn)
    requires ConnInv(c) && Gone(c, n, r)
    ensures CountOut(c, n).Ok?
    ensures |LiveGroups(r)| == CountOut(c, n).value.packetCount
    ensures |Cloned(r)| == CountOut(c, n).value.clonedPacketCount
    ensures DeclaredLost(r) == if n in r.packets then DeclaredLost(c) + {n} else DeclaredLost(c)
  {
    hide StreamInv, LiveMatch, GroupsOk, NoOrphans, IdsOk, LiveGroups, Cloned, DeclaredLost;
    GoneLiveGroups(c, n, r);
    GoneSets(c, n, r);
  }

  lemma GoneSets(c: Conn, n: nat, r: Conn)
    requires Gone(c, n, r)
    ensures Cloned(r) == if c.packets[n].cloneId.Some? then Cloned(c) - {n} else Cloned(c)
    ensures c.packets[n].cloneId.Some? ==> n in Cloned(c)
    ensures DeclaredLost(r) == if n in r.packets then DeclaredLost(c) + {n} else DeclaredLost(c)
  {
  }

  // ------------------------------------------------------------------ acknowledgement and loss

  lemma AckPacketInv(c: Conn, n: nat)
    requires ConnInv(c) && Enabled(c, Ack(n))
    ensures var r := Next(c, Ack(n));
            r.Ok? && ConnInv(r.value) && (AckedReleased(c.stream) ==> AckedReleased(r.value.stream))
  {
    hide StreamInv, AckedReleased, LiveMatch, GroupsOk, NoOrphans, IdsOk, AckFrames, CountOut, LiveGroups, Cloned, DeclaredLost, StreamInv, EraseId;
    if Live(c, n) { LiveFrames(c, n); AckFramesInv(c.stream, c.packets[n].frames); }
    var s := if Live(c, n) then AckFrames(c.stream, c.packets[n].frames).value else c.stream;
    var r := c.(stream := s, packets := c.packets - {n}, cloneIds := EraseId(c, n));
    GoneGroups(c, n, r);
    GoneCounts(c, n, r);
    GoneIds(c, n, r);
    CountedOut(c, n);
    SameView(r, AckPacket(c, n).value);
    assert DeclaredLost(r) == DeclaredLost(c);
  }

  lemma LosePacketInv(c: Conn, n: nat)
    requires ConnInv(c) && Enabled(c, Lose(n))
    ensures var r := Next(c, Lose(n));
            r.Ok? && ConnInv(r.value) && (AckedReleased(c.stream) ==> AckedReleased(r.value.stream))
  {
    hide StreamInv, AckedReleased, LiveMatch, GroupsOk, NoOrphans, IdsOk, LoseFrames, CountOut, LiveGroups, Cloned, EraseId;
    if Live(c, n) { LiveFrames(c, n); LoseFramesInv(c.stream, c.packets[n].frames); }
    var s := if Live(c, n) then LoseFrames(c.stream, c.packets[n].frames) else c.stream;
    var r := c.(stream := s, packets := c.packets[n := c.packets[n].(declaredLost := true)], cloneIds := EraseId(c, n));
    GoneGroups(c, n, r);
    GoneCounts(c, n, r);
    GoneIds(c, n, r);
    CountedOut(c, n);
    SameView(r, LosePacket(c, n).value);
    assert n !in DeclaredLost(c);
  }

  lemma LiveFrames(c: Conn, n: nat)
    requires ConnInv(c) && Live(c, n)
    ensures AllMatch(c.stream, c.packets[n].frames) && Distinct(c.packets[n].frames)
  {
  }

  lemma GoneIds(c: Conn, n: nat, r: Conn)
    requires ConnInv(c) && Gone(c, n, r)
    ensures IdsOk(r)
  {
    hide StreamInv, LiveMatch, GroupsOk, NoOrphans, CountsOk;
    GoneLive(c, n, r);
  }

  lemma CountedOut(c: Conn, n: nat)
    requires n in c.packets && CountOut(c, n).Ok?
    ensures var d := CountOut(c, n).value;
            d == c.(cloneIds := EraseId(c, n), packetCount := d.packetCount, clonedPacketCount := d.clonedPacketCount)
  {
  }

  /** The parts of the invariant that do not look at the counters. */
  lemma SameView(a: Conn, b: Conn)
    requires b == a.(packetCount := b.packetCount, clonedPacketCount := b.clonedPacketCount,
                     declaredLostCount := b.declaredLostCount)
    ensures IdsOk(a) ==> IdsOk(b)
    ensures LiveMatch(a) ==> LiveMatch(b)
    ensures GroupsOk(a) ==> GroupsOk(b)
    ensures NoOrphans(a) ==> NoOrphans(b)
    ensures LiveGroups(a) == LiveGroups(b) && Cloned(a) == Cloned(b) && DeclaredLost(a) == DeclaredLost(b)
  {
    assert forall n :: Live(a, n) == Live(b, n);
    assert forall n :: n in a.packets ==> Group(a, n) == Group(b, n);
    assert forall k :: Owned(a, k) ==> Owned(b, k);
  }

  lemma DropLostInv(c: Conn, n: nat)
    requires ConnInv(c) && Enabled(c, DropLost(n))
    ensures var r := Next(c, DropLost(n)); r.Ok? && ConnInv(r.value) && r.value.stream == c.stream
  {
    hide StreamInv, LiveGroups, Cloned, DeclaredLost;
    DropSets(c, n);
    var r := DropLostPacket(c, n).value;
    forall k | k in r.stream.retransmissionBuffer ensures Owned(r, k) {
      assert Owned(c, k);
      var m :| Live(c, m) && k in Offsets(c.packets[m].frames);
      assert Live(r, m) && k in Offsets(r.packets[m].frames);
    }
  }

  /** Dropping a lost packet changes nothing but the set of lost packets. */
  lemma DropSets(c: Conn, n: nat)
    requires Enabled(c, DropLost(n)) && CountsOk(c)
    ensures n in DeclaredLost(c) && c.declaredLostCount > 0
    ensures var r := c.(packets := c.packets - {n}, declaredLostCount := c.declaredLostCount - 1);
            && (forall m :: Live(r, m) <==> Live(c, m))
            && LiveGroups(r) == LiveGroups(c) && Cloned(r) == Cloned(c)
            && DeclaredLost(r) == DeclaredLost(c) - {n}
  {
    assert n in DeclaredLost(c);
    var r := c.(packets := c.packets - {n}, declaredLostCount := c.declaredLostCount - 1);
    assert forall m :: Live(r, m) <==> Live(c, m);
    assert forall m :: m in r.packets ==> Group(r, m) == Group(c, m);
  }

  // ------------------------------------------------------------------ cloning

  /** `r` is `c` after packet `n` was cloned with the very frames it was sent with. */
  ghost predicate ClonedTo(c: Conn, n: nat, r: Conn) {
    && n in c.packets
    && r == c.(packets := c.packets[n := c.packets[n].(cloneId := Some(Group(c, n)))]
                                   [c.nextPacketNum := Packet(c.packets[n].frames, Some(Group(c, n)), false)],
               cloneIds := c.cloneIds + {Group(c, n)},
               nextPacketNum := c.nextPacketNum + 1,
               clonedPacketCount := c.clonedPacketCount + if c.packets[n].cloneId.None? then 2 else 1)
  }

  lemma CloneShape(c: Conn, n: nat) returns (r: Conn)
    requires ConnInv(c) && Live(c, n)
    ensures ClonePacket(c, n) == Ok(r) && ClonedTo(c, n, r)
  {
    LiveFrames(c, n);
    RebuildSame(c.stream, c.packets[n].frames);
    WriteClones(c.stream, c.packets[n].frames);
    r := ClonePacket(c, n).value;
  }

  lemma CloneLive(c: Conn, n: nat, r: Conn)
    requires IdsOk(c) && Live(c, n) && ClonedTo(c, n, r)
    ensures IdsOk(r)
    ensures forall m :: Live(r, m) <==> Live(c, m) || m == c.nextPacketNum
    ensures forall m :: m in c.packets ==>
              m in r.packets && Group(r, m) == Group(c, m) && r.packets[m].frames == c.packets[m].frames
  {
  }

  lemma CloneInv(c: Conn, n: nat)
    requires ConnInv(c) && Enabled(c, Clone(n))
    ensures var r := Next(c, Clone(n)); r.Ok? && ConnInv(r.value) && r.value.stream == c.stream
  {
    var r := CloneShape(c, n);
    CloneLive(c, n, r);
    CloneGroups(c, n, r);
    CloneCounts(c, n, r);
  }

  lemma CloneGroups(c: Conn, n: nat, r: Conn)
    requires ConnInv(c) && Live(c, n) && ClonedTo(c, n, r)
    ensures LiveMatch(r) && GroupsOk(r) && NoOrphans(r)
  {
    hide StreamInv, CountsOk, IdsOk;
    assert IdsOk(c);
    CloneLive(c, n, r);
    var z := c.nextPacketNum;
    assert r.packets[z].frames == c.packets[n].frames && Group(r, z) == Group(c, n);
    forall k | k in r.stream.retransmissionBuffer ensures Owned(r, k) {
      assert Owned(c, k);
      var m :| Live(c, m) && k in Offsets(c.packets[m].frames);
      assert Live(r, m) && k in Offsets(r.packets[m].frames);
    }
  }

  lemma CloneLiveGroups(c: Conn, n: nat, r: Conn)
    requires IdsOk(c) && Live(c, n) && ClonedTo(c, n, r)
    ensures LiveGroups(r) == LiveGroups(c)
  {
    hide IdsOk, Live;
    CloneLive(c, n, r);
    var z := c.nextPacketNum;
    forall g | g in LiveGroups(c) ensures g in LiveGroups(r) {
      var m :| m in c.packets && Live(c, m) && Group(c, m) == g;
      assert m in r.packets && Live(r, m) && Group(r, m) == g;
    }
    assert Group(r, z) == Group(c, n);
  }

  lemma CloneSets(c: Conn, n: nat, r: Conn)
    requires Live(c, n) && ClonedTo(c, n, r) && c.nextPacketNum !in c.packets
    ensures DeclaredLost(r) == DeclaredLost(c)
    ensures Cloned(r) == Cloned(c) + {n} + {c.nextPacketNum}
    ensures c.packets[n].cloneId.Some? <==> n in Cloned(c)
    ensures c.nextPacketNum !in Cloned(c)
  {
  }

  lemma CloneCounts(c: Conn, n: nat, r: Conn)
    requires ConnInv(c) && Live(c, n) && ClonedTo(c, n, r)
    ensures CountsOk(r)
  {
    hide StreamInv, LiveMatch, GroupsOk, NoOrphans, LiveGroups, Cloned, DeclaredLost;
    CloneLiveGroups(c, n, r);
    CloneSets(c, n, r);
    assert n in Cloned(c) ==> Cloned(c) + {n} == Cloned(c);
    assert c.nextPacketNum !in Cloned(c) + {n};
  }

  // ------------------------------------------------------------------ every run

  lemma StepInv(c: Conn, step: Step)
    requires ConnInv(c) && Enabled(c, step)
    ensures var r := Next(c, step);
            r.Ok? && ConnInv(r.value) && (AckedReleased(c.stream) ==> AckedReleased(r.value.stream))
  {
    hide ConnInv;
    match step
    case Write(data, eof) => WriteInv(c, data, eof);
    case Send(grants, grant) => SendInv(c, grants, grant);
    case Clone(n) => CloneInv(c, n);
    case Ack(n) => AckPacketInv(c, n);
    case Lose(n) => LosePacketInv(c, n);
    case DropLost(n) => DropLostInv(c, n);
  }

  lemma WriteInv(c: Conn, data: seq<bv8>, eof: bool)
    requires ConnInv(c) && Enabled(c, Write(data, eof))
    ensures var r := Next(c, Write(data, eof));
            r.Ok? && ConnInv(r.value) && (AckedReleased(c.stream) ==> AckedReleased(r.value.stream))
  {
    hide StreamInv, AckedReleased, IdsOk, LiveMatch, GroupsOk, NoOrphans, CountsOk;
    AppWriteInv(c.stream, data, eof);
    SamePackets(c, AppWrite(c.stream, data, eof));
  }

  /** The packet part of the invariant looks only at the buffers in flight. */
  lemma SamePackets(c: Conn, s: Stream)
    requires s.retransmissionBuffer == c.stream.retransmissionBuffer
    requires IdsOk(c) && LiveMatch(c) && GroupsOk(c) && NoOrphans(c) && CountsOk(c)
    ensures var r := c.(stream := s); IdsOk(r) && LiveMatch(r) && GroupsOk(r) && NoOrphans(r) && CountsOk(r)
  {
    var r := c.(stream := s);
    SameSets(c, r);
    SameOwners(c, r);
    assert IdsOk(r);
    assert LiveMatch(r) by { hide Live; }
    hide LiveGroups, Cloned, DeclaredLost, Live, IdsOk, LiveMatch, NoOrphans;
  }

  lemma SameOwners(c: Conn, r: Conn)
    requires NoOrphans(c) && r.packets == c.packets && r.cloneIds == c.cloneIds
    requires r.stream.retransmissionBuffer == c.stream.retransmissionBuffer
    ensures NoOrphans(r)
  {
    forall k | Owned(c, k) ensures Owned(r, k) {
      var m :| Live(c, m) && k in Offsets(c.packets[m].frames);
      assert Live(r, m) && k in Offsets(r.packets[m].frames);
    }
  }

  lemma SameSets(c: Conn, r: Conn)
    requires r.packets == c.packets && r.cloneIds == c.cloneIds
    ensures forall m :: Live(r, m) == Live(c, m)
    ensures forall m :: m in c.packets ==> Group(r, m) == Group(c, m)
    ensures LiveGroups(r) == LiveGroups(c) && Cloned(r) == Cloned(c) && DeclaredLost(r) == DeclaredLost(c)
  {
    assert forall m :: Live(r, m) == Live(c, m);
    assert forall m :: m in c.packets ==> Group(r, m) == Group(c, m);
  }

  /**
   In every state that can be reached, each position sent so far is acknowledged, in flight or lost,
   with the application's own bytes, and in only one of the three.
   */
  lemma {:induction false} EveryRunKeepsBytes(steps: seq<Step>, c: Conn)
    requires Reaches(steps, c)
    ensures ConnInv(c) && AckedReleased(c.stream)
    decreases |steps|
  {
    if steps == [] {
      InitialInv();
    } else {
      var last := steps[|steps| - 1];
      var b: Conn :| Reaches(steps[..|steps| - 1], b) && Enabled(b, last) && Next(b, last) == Ok(c);
      EveryRunKeepsBytes(steps[..|steps| - 1], b);
      StepInv(b, last);
    }
  }

  lemma InitialInv()
    ensures ConnInv(INITIAL_CONN) && AckedReleased(INITIAL_CONN.stream)
  {
    assert LiveGroups(INITIAL_CONN) == {} && Cloned(INITIAL_CONN) == {} && DeclaredLost(INITIAL_CONN) == {};
  }

  /** No step that the transport takes ever fails one of the send side's CHECKs. */
  lemma NoCheckFails(steps: seq<Step>, c: Conn, step: Step)
    requires Reaches(steps, c) && Enabled(c, step)
    ensures Next(c, step).Ok?
  {
    EveryRunKeepsBytes(steps, c);
    StepInv(c, step);
  }

  /** The counter CHECKs of `processAckFrame` hold: outstanding packets cover the clones and the unprocessed packets. */
  lemma CountersConsistent(steps: seq<Step>, c: Conn)
    requires Reaches(steps, c)
    ensures |c.packets| >= c.declaredLostCount
    ensures |c.packets| - c.declaredLostCount >= c.clonedPacketCount
    ensures |c.packets| - c.declaredLostCount >= c.packetCount
  {
    EveryRunKeepsBytes(steps, c);
    var held := c.packets.Keys - DeclaredLost(c);
    assert |held| == |c.packets.Keys| - |DeclaredLost(c)| by {
      assert DeclaredLost(c) <= c.packets.Keys;
      SubsetSize(DeclaredLost(c), c.packets.Keys);
      assert c.packets.Keys == held + DeclaredLost(c);
    }
    assert Cloned(c) <= held;
    SubsetSize(Cloned(c), held);
    FewerGroups(c, held);
  }

  lemma {:induction false} SubsetSize(a: set<nat>, b: set<nat>)
    requires a <= b
    ensures |a| <= |b|
    decreases |a|
  {
    if a != {} {
      var x :| x in a;
      SubsetSize(a - {x}, b - {x});
    }
  }

  /** There are at most as many live groups as packets that are not declared lost. */
  lemma {:induction false} FewerGroups(c: Conn, held: set<nat>)
    requires held <= c.packets.Keys
    requires forall n :: n in c.packets && Live(c, n) ==> n in held
    ensures |LiveGroups(c)| <= |held|
  {
    FewerGroupsOf(c, held);
    var live := set n | n in held && Live(c, n) :: Group(c, n);
    assert live == LiveGroups(c);
  }

  lemma {:induction false} FewerGroupsOf(c: Conn, held: set<nat>)
    requires held <= c.packets.Keys
    ensures |set n | n in held && Live(c, n) :: Group(c, n)| <= |held|
    decreases |held|
  {
    var gs := set n | n in held && Live(c, n) :: Group(c, n);
    if held == {} {
      assert gs == {};
    } else {
      var x :| x in held;
      FewerGroupsOf(c, held - {x});
      var rest := set n | n in held - {x} && Live(c, n) :: Group(c, n);
      assert gs <= rest + {Group(c, x)};
      SubsetSize(gs, rest + {Group(c, x)});
    }
  }

  /** A stream whose send state becomes Closed has had every byte and its FIN acknowledged. */
  lemma ClosedStreamWasDelivered(steps: seq<Step>, c: Conn)
    requires Reaches(steps, c) && AllBytesTillFinAcked(c.stream)
    ensures forall x :: 0 <= x <= |c.stream.app| ==> x in c.stream.acked
  {
    EveryRunKeepsBytes(steps, c);
    ClosedMeansDelivered(c.stream);
  }
}
