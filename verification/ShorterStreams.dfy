/**
 What a reliable reset leaves of a connection (quic/state/stream/StreamStateFunctions.cpp): the stream after a
 reset at `size` is, buffer by buffer, one to which only `size` bytes were ever written, and frames sent before
 are seen cut at `size`.
 */
module ShorterStreams {
  import opened Prelude
  import opened SendBuffers
  import opened SendBufferProofs
  import opened StreamSend
  import opened StreamSendProofs
  import opened SpuriousLoss
  import opened ReliableReset

  // ------------------------------------------------------------------ the shorter stream

  /** The FIN waits behind bytes that the reset drops. */
  ghost predicate FinWaits(s: Stream, size: nat) {
    s.finalWriteOffset.Some? && s.currentWriteOffset <= |s.app| && size < |s.app|
  }

  /** The stream of `size` bytes that a stream is after the reset. */
  ghost function Shorter(s: Stream, size: nat): (v: Stream)
    requires RetxOk(s) && size <= |s.app|
  {
    var finSent := s.currentWriteOffset > |s.app|;
    Stream(s.app[..size], TrimPending(s, size),
           if finSent then size + 1 else Min(s.currentWriteOffset, size),
           if s.finalWriteOffset.Some? then Some(size) else None,
           TrimRetransmission(s.retransmissionBuffer, size), TrimLoss(s.lossBuffer, size),
           (set x | x in s.acked && x < size) + if finSent then {size} else {})
  }

  lemma CutOk(s: Stream, b: Buf, size: nat)
    requires StreamInv(s) && size <= |s.app| && BufOk(s, b) && b.offset < size
    ensures BufOk(Shorter(s, size), CutAt(b, size)) && Inside(CutAt(b, size), b)
  {
    hide TrimRetransmission, TrimLoss, TrimPending, RetxOk, LossOk, Covered, RetxLossApart, AckedSent;
    CutKeepsData(s, b, size);
  }

  lemma InsideApart(a: Buf, b: Buf, x: Buf, y: Buf)
    requires Apart(a, b) && Inside(x, a) && Inside(y, b) && x.offset <= x.End() && y.offset <= y.End()
    ensures Apart(x, y)
  {
  }

  lemma ShorterPending(s: Stream, size: nat)
    requires StreamInv(s) && size <= |s.app| && !FinWaits(s, size)
    ensures PendingOk(Shorter(s, size))
  {
    hide TrimRetransmission, TrimLoss, RetxOk, LossOk, Covered, RetxLossApart, AckedSent;
    var v := Shorter(s, size);
    if s.currentWriteOffset <= |s.app| {
      if s.currentWriteOffset < size {
        assert v.pendingWrites == s.app[s.currentWriteOffset..size] == v.app[v.currentWriteOffset..];
      }
    }
  }

  lemma ShorterRetx(s: Stream, size: nat)
    requires StreamInv(s) && size <= |s.app|
    ensures RetxOk(Shorter(s, size))
  {
    hide TrimLoss, TrimPending, LossOk, Covered, RetxLossApart, AckedSent, BufOk, CutAt, Apart;
    var v := Shorter(s, size);
    forall k | k in v.retransmissionBuffer
      ensures v.retransmissionBuffer[k].offset == k && BufOk(v, v.retransmissionBuffer[k])
    {
      CutOk(s, s.retransmissionBuffer[k], size);
      CutOffset(s.retransmissionBuffer[k], size);
    }
    forall k, m | k in v.retransmissionBuffer && m in v.retransmissionBuffer && k != m
      ensures Apart(v.retransmissionBuffer[k], v.retransmissionBuffer[m])
    {
      CutOk(s, s.retransmissionBuffer[k], size);
      CutOk(s, s.retransmissionBuffer[m], size);
      InsideApart(s.retransmissionBuffer[k], s.retransmissionBuffer[m], v.retransmissionBuffer[k], v.retransmissionBuffer[m]);
    }
  }

  lemma CutOffset(b: Buf, size: nat)
    requires b.offset < size
    ensures CutAt(b, size).offset == b.offset && CutAt(b, size).eof == b.eof
    ensures |CutAt(b, size).data| == if b.offset + |b.data| >= size then size - b.offset else |b.data|
  {
  }

  /** The entries of the trimmed loss buffer, one by one. */
  lemma ShorterEntries(s: Stream, size: nat)
    requires StreamInv(s) && size <= |s.app|
    ensures var (q, r) := (s.lossBuffer, TrimLoss(s.lossBuffer, size));
            && |r| <= |q|
            && (forall i :: 0 <= i < |r| ==> q[i].offset < size && r[i] == CutAt(q[i], size) && BufOk(s, q[i]))
  {
    hide TrimLoss;
    forall i | 0 <= i < |s.lossBuffer| ensures s.lossBuffer[i].offset < s.lossBuffer[i].End() {
      assert BufOk(s, s.lossBuffer[i]);
    }
    TrimLossEntries(s.lossBuffer, size);
  }

  lemma ShorterLoss(s: Stream, size: nat)
    requires StreamInv(s) && size <= |s.app|
    ensures LossOk(Shorter(s, size)) && RetxLossApart(Shorter(s, size))
  {
    hide TrimLoss, TrimPending, Covered, AckedSent, PendingOk, BufOk, CutAt, Apart;
    var v := Shorter(s, size);
    ShorterEntries(s, size);
    forall i | 0 <= i < |v.lossBuffer| ensures BufOk(v, v.lossBuffer[i]) { CutOk(s, s.lossBuffer[i], size); }
    forall i, j | 0 <= i < j < |v.lossBuffer| ensures v.lossBuffer[i].End() <= v.lossBuffer[j].offset {
      CutOk(s, s.lossBuffer[i], size);
      CutOffset(s.lossBuffer[j], size);
    }
    forall k, i | k in v.retransmissionBuffer && 0 <= i < |v.lossBuffer|
      ensures Apart(v.retransmissionBuffer[k], v.lossBuffer[i])
    {
      CutOk(s, s.retransmissionBuffer[k], size);
      CutOk(s, s.lossBuffer[i], size);
      InsideApart(s.retransmissionBuffer[k], s.lossBuffer[i], v.retransmissionBuffer[k], v.lossBuffer[i]);
    }
  }

  lemma ShorterCovered(s: Stream, size: nat)
    requires StreamInv(s) && size <= |s.app|
    ensures Covered(Shorter(s, size)) && AckedSent(Shorter(s, size))
  {
    hide TrimRetransmission, TrimLoss, TrimPending;
    var (v, r) := (Shorter(s, size), ResetAt(s, size));
    forall x | 0 <= x < v.currentWriteOffset ensures x in v.acked || InFlight(v, x) || Lost(v, x) {
      if x < size {
        ResetExactly(s, size, x);
        assert InFlight(r, x) == InFlight(v, x) && Lost(r, x) == Lost(v, x);
      }
    }
  }

  /** The stream after the reset satisfies the whole buffer invariant of a stream of `size` bytes. */
  lemma ShorterInv(s: Stream, size: nat)
    requires StreamInv(s) && size <= |s.app| && !FinWaits(s, size)
    ensures StreamInv(Shorter(s, size))
  {
    hide Shorter, PendingOk, RetxOk, LossOk, RetxLossApart, Covered, AckedSent;
    ShorterPending(s, size);
    ShorterRetx(s, size);
    ShorterLoss(s, size);
    ShorterCovered(s, size);
  }

  // ------------------------------------------------------------------ frames and packets, cut

  /** The frames as if nothing from `size` on had been sent. */
  function CutFrames(fs: seq<Frame>, size: nat): (r: seq<Frame>) {
    if fs == [] then []
    else (if fs[0].offset < size then [CutFrame(fs[0], size)] else []) + CutFrames(fs[1..], size)
  }

  function CutFrame(f: Frame, size: nat): Frame
    requires f.offset < size
  {
    Frame(f.offset, if f.offset + f.len >= size then size - f.offset else f.len, f.fin)
  }

  lemma {:induction false} CutFramesHas(fs: seq<Frame>, size: nat, g: Frame)
    ensures g in CutFrames(fs, size) <==> exists f :: f in fs && f.offset < size && CutFrame(f, size) == g
    decreases |fs|
  {
    if fs != [] {
      CutFramesHas(fs[1..], size, g);
      assert forall f :: f in fs <==> f == fs[0] || f in fs[1..];
    }
  }

  lemma CutOffsets(fs: seq<Frame>, size: nat)
    ensures Offsets(CutFrames(fs, size)) <= Offsets(fs)
    ensures forall k :: k in Offsets(fs) && k < size ==> k in Offsets(CutFrames(fs, size))
  {
    hide CutFrames;
    forall k | k in Offsets(CutFrames(fs, size)) ensures k in Offsets(fs) {
      var g :| g in CutFrames(fs, size) && g.offset == k;
      CutFramesHas(fs, size, g);
    }
    forall k | k in Offsets(fs) && k < size ensures k in Offsets(CutFrames(fs, size)) {
      var f :| f in fs && f.offset == k;
      CutFramesHas(fs, size, CutFrame(f, size));
      assert CutFrame(f, size) in CutFrames(fs, size);
    }
  }

  lemma {:induction false} CutDistinct(fs: seq<Frame>, size: nat)
    requires Distinct(fs)
    ensures Distinct(CutFrames(fs, size))
    decreases |fs|
  {
    if fs != [] {
      var (t, r) := (CutFrames(fs[1..], size), CutFrames(fs, size));
      CutDistinct(fs[1..], size);
      if fs[0].offset < size {
        forall j | 0 <= j < |t| ensures t[j].offset != fs[0].offset {
          CutFramesHas(fs[1..], size, t[j]);
          var f :| f in fs[1..] && f.offset < size && CutFrame(f, size) == t[j];
          var i :| 0 <= i < |fs[1..]| && fs[1..][i] == f;
          assert fs[i + 1] == f;
        }
        assert r == [CutFrame(fs[0], size)] + t;
        assert forall j :: 0 < j < |r| ==> r[j] == t[j - 1];
      } else {
        assert r == t;
      }
    }
  }

  lemma CutMatch(s: Stream, fs: seq<Frame>, size: nat)
    requires StreamInv(s) && size <= |s.app| && AllMatch(s, fs)
    ensures AllMatch(Shorter(s, size), CutFrames(fs, size))
  {
    hide CutFrames, TrimLoss, TrimPending, CutAt;
    forall g | g in CutFrames(fs, size) ensures Matches(Shorter(s, size), g) {
      CutFramesHas(fs, size, g);
      var f :| f in fs && f.offset < size && CutFrame(f, size) == g;
      assert Matches(s, f);
      CutOffset(s.retransmissionBuffer[f.offset], size);
    }
  }

  /** The connection with the shorter stream and with every packet's frames cut. */
  ghost function ShorterConn(c: Conn, size: nat): (v: Conn)
    requires RetxOk(c.stream) && size <= |c.stream.app|
  {
    c.(stream := Shorter(c.stream, size),
       packets := map n | n in c.packets :: c.packets[n].(frames := CutFrames(c.packets[n].frames, size)))
  }

  /** Packets that differ at most in their frames. */
  ghost predicate SameBut(c: Conn, v: Conn) {
    && v.packets.Keys == c.packets.Keys && v.cloneIds == c.cloneIds && v.nextPacketNum == c.nextPacketNum
    && v.packetCount == c.packetCount && v.clonedPacketCount == c.clonedPacketCount && v.declaredLostCount == c.declaredLostCount
    && forall n :: n in c.packets ==> v.packets[n].cloneId == c.packets[n].cloneId && v.packets[n].declaredLost == c.packets[n].declaredLost
  }

  lemma SameLive(c: Conn, v: Conn)
    requires SameBut(c, v)
    ensures forall n :: Live(v, n) == Live(c, n)
    ensures forall n :: n in c.packets ==> Group(v, n) == Group(c, n)
  {
  }

  lemma SameCounts(c: Conn, v: Conn)
    requires SameBut(c, v) && CountsOk(c) && IdsOk(c)
    ensures CountsOk(v) && IdsOk(v)
  {
    SameLive(c, v);
    hide Live, Group;
    assert LiveGroups(v) == LiveGroups(c);
    assert Cloned(v) == Cloned(c);
    assert DeclaredLost(v) == DeclaredLost(c);
    IdsFollow(c, v);
  }

  lemma IdsFollow(c: Conn, v: Conn)
    requires SameBut(c, v) && IdsOk(c)
    ensures IdsOk(v)
  {
    SameLive(c, v);
    hide Live;
  }

  lemma ShorterPackets(c: Conn, size: nat)
    requires ConnInv(c) && size <= |c.stream.app|
    ensures var v := ShorterConn(c, size); LiveMatch(v) && GroupsOk(v) && NoOrphans(v)
  {
    assert RetxOk(c.stream);
    hide CutFrames, Shorter, IdsOk, CountsOk, StreamInv, AllMatch, Distinct, Offsets;
    var v := ShorterConn(c, size);
    SameLive(c, v);
    forall n | Live(v, n) ensures AllMatch(v.stream, v.packets[n].frames) && Distinct(v.packets[n].frames) {
      LiveInPackets(c, n);
      CutMatch(c.stream, c.packets[n].frames, size);
      CutDistinct(c.packets[n].frames, size);
    }
    forall n, m | Live(v, n) && Live(v, m)
      ensures if Group(v, n) == Group(v, m) then v.packets[n].frames == v.packets[m].frames
              else Offsets(v.packets[n].frames) !! Offsets(v.packets[m].frames)
    {
      LiveInPackets(c, n);
      LiveInPackets(c, m);
      CutOffsets(c.packets[n].frames, size);
      CutOffsets(c.packets[m].frames, size);
    }
    forall k | k in v.stream.retransmissionBuffer ensures Owned(v, k) {
      KeptKey(c.stream, size, k);
      assert Owned(c, k);
      var n :| Live(c, n) && k in Offsets(c.packets[n].frames);
      LiveInPackets(c, n);
      CutOffsets(c.packets[n].frames, size);
      assert Live(v, n) && k in Offsets(v.packets[n].frames);
    }
  }

  lemma LiveInPackets(c: Conn, n: nat)
    requires Live(c, n)
    ensures n in c.packets
  {
  }

  lemma KeptKey(s: Stream, size: nat, k: nat)
    requires RetxOk(s) && size <= |s.app| && k in Shorter(s, size).retransmissionBuffer
    ensures k in s.retransmissionBuffer && k < size
  {
  }

  /** After the reset the connection is one with the shorter stream, and that one satisfies the connection invariant. */
  lemma ShorterConnInv(c: Conn, size: nat)
    requires ConnInv(c) && size <= |c.stream.app| && !FinWaits(c.stream, size)
    ensures ConnInv(ShorterConn(c, size)) && SameBut(c, ShorterConn(c, size))
  {
    assert RetxOk(c.stream);
    hide StreamInv, LiveMatch, GroupsOk, NoOrphans, IdsOk, CountsOk, Shorter, CutFrames;
    ShorterInv(c.stream, size);
    ShorterPackets(c, size);
    SameCounts(c, ShorterConn(c, size));
  }
}
