/**
 A run in which a late acknowledgement leaves a byte it acknowledges in the loss buffer. A comment beside
 `removeFromLossBuffer` (quic/state/StreamData.h) relies on contiguous entries being merged, but `insertIntoLossBuffer` merges
 a new entry only with the one in front of it.
 */
module SpuriousLeftover {
  import opened Prelude
  import opened SendBuffers
  import opened StreamSend
  import opened SpuriousLoss

  const BOTH := Buf(0, [BYTE_X, BYTE_Y], false)
  const SECOND := Buf(1, [BYTE_Y], false)

  function Open(retx: map<nat, Buf>, loss: seq<Buf>): (s: Stream) {
    Stream([BYTE_X, BYTE_Y], [], 2, None, retx, loss, {})
  }

  function BothPacket(lost: bool): (p: Packet) { Packet([Frame(0, 2, false)], None, lost) }

  /** Two bytes are sent in one packet and lost; the first is sent again and lost again. */
  const LEFTOVER_RUN: seq<Step> := [Write([BYTE_X, BYTE_Y], false), Send([], Some(2)), Lose(0), Send([1], None), Lose(1)]

  const WRITTEN := Conn(Stream([BYTE_X, BYTE_Y], [BYTE_X, BYTE_Y], 0, None, map[], [], {}), map[], {}, 0, 0, 0, 0)
  const BOTH_SENT := Conn(Open(map[0 := BOTH], []), map[0 := BothPacket(false)], {}, 1, 1, 0, 0)
  const BOTH_LOST := Conn(Open(map[], [BOTH]), map[0 := BothPacket(true)], {}, 1, 0, 0, 1)
  const FIRST_SENT := Conn(Open(map[0 := FRONT], [SECOND]), map[0 := BothPacket(true), 1 := FrontPacket(false)], {}, 2, 1, 0, 1)
  const FIRST_LOST := Conn(Open(map[], [FRONT, SECOND]), map[0 := BothPacket(true), 1 := FrontPacket(true)], {}, 2, 0, 0, 2)

  lemma SendsBoth()
    ensures Enabled(WRITTEN, LEFTOVER_RUN[1]) && Next(WRITTEN, LEFTOVER_RUN[1]) == Ok(BOTH_SENT)
  {
    var f := Frame(0, 2, false);
    assert Scheduled(WRITTEN.stream, [], Some(2)) == [f];
    assert [BYTE_X, BYTE_Y][..2] == [BYTE_X, BYTE_Y];
    WriteOne(WRITTEN.stream, f, BOTH_SENT.stream, NewData);
  }

  lemma LosesBoth()
    ensures Enabled(BOTH_SENT, LEFTOVER_RUN[2]) && Next(BOTH_SENT, LEFTOVER_RUN[2]) == Ok(BOTH_LOST)
  {
    LoseOne(BOTH_SENT.stream, Frame(0, 2, false));
    assert map[0 := BOTH] - {0} == map[];
    assert InsertIntoLossBuffer([], BOTH) == [BOTH];
    assert Live(BOTH_SENT, 0);
    assert BOTH_SENT.packets[0 := BothPacket(true)] == BOTH_LOST.packets;
  }

  lemma SendsFirst()
    ensures Enabled(BOTH_LOST, LEFTOVER_RUN[3]) && Next(BOTH_LOST, LEFTOVER_RUN[3]) == Ok(FIRST_SENT)
  {
    var f := Frame(0, 1, false);
    assert [1][1..] == [] && [BOTH][1..] == [];
    assert LossFrames([BOTH], [1]) == [f] + LossFrames([], []);
    assert Scheduled(BOTH_LOST.stream, [1], None) == [f];
    assert [BYTE_X, BYTE_Y][..1] == [BYTE_X] && [BYTE_X, BYTE_Y][1..] == [BYTE_Y];
    assert [BOTH][0 := SECOND] == [SECOND];
    WriteOne(BOTH_LOST.stream, f, FIRST_SENT.stream, Retransmission);
  }

  /** The entry in front of another is not merged with it. */
  lemma NotMerged()
    ensures InsertIntoLossBuffer([SECOND], FRONT) == [FRONT, SECOND]
  {
    assert LowerBound([SECOND], 1) == 0;
    assert [SECOND][..0] + [FRONT] + [SECOND][0..] == [FRONT, SECOND];
  }

  lemma LosesFirst()
    ensures Enabled(FIRST_SENT, LEFTOVER_RUN[4]) && Next(FIRST_SENT, LEFTOVER_RUN[4]) == Ok(FIRST_LOST)
  {
    LoseOne(FIRST_SENT.stream, Frame(0, 1, false));
    assert map[0 := FRONT] - {0} == map[];
    NotMerged();
    assert Live(FIRST_SENT, 1);
    assert FIRST_SENT.packets[1 := FrontPacket(true)] == FIRST_LOST.packets;
  }

  lemma LeftoverRunReaches()
    ensures Reaches(LEFTOVER_RUN, FIRST_LOST)
  {
    assert [] + [BYTE_X, BYTE_Y] == [BYTE_X, BYTE_Y];
    assert Next(INITIAL_CONN, LEFTOVER_RUN[0]) == Ok(WRITTEN);
    Extend([], INITIAL_CONN, LEFTOVER_RUN[0], WRITTEN);
    hide Next, Enabled, Reaches;
    assert [] + [LEFTOVER_RUN[0]] == LEFTOVER_RUN[..1];
    assert LEFTOVER_RUN[..1] + [LEFTOVER_RUN[1]] == LEFTOVER_RUN[..2];
    assert LEFTOVER_RUN[..2] + [LEFTOVER_RUN[2]] == LEFTOVER_RUN[..3];
    assert LEFTOVER_RUN[..3] + [LEFTOVER_RUN[3]] == LEFTOVER_RUN[..4];
    assert LEFTOVER_RUN[..4] + [LEFTOVER_RUN[4]] == LEFTOVER_RUN;
    SendsBoth();
    Extend(LEFTOVER_RUN[..1], WRITTEN, LEFTOVER_RUN[1], BOTH_SENT);
    LosesBoth();
    Extend(LEFTOVER_RUN[..2], BOTH_SENT, LEFTOVER_RUN[2], BOTH_LOST);
    SendsFirst();
    Extend(LEFTOVER_RUN[..3], BOTH_LOST, LEFTOVER_RUN[3], FIRST_SENT);
    LosesFirst();
    Extend(LEFTOVER_RUN[..4], FIRST_SENT, LEFTOVER_RUN[4], FIRST_LOST);
  }

  /** After that run the late acknowledgement of packet 0 acknowledges its second byte and leaves it lost. */
  lemma AckedByteStaysLost()
    ensures Reaches(LEFTOVER_RUN, FIRST_LOST) && Enabled(FIRST_LOST, DropLost(0)) && SpuriousAck(FIRST_LOST, 0).Ok?
    ensures var s := SpuriousAck(FIRST_LOST, 0).value.stream; 1 in s.acked && Lost(s, 1)
  {
    LeftoverRunReaches();
    var (f, s) := (Frame(0, 2, false), FIRST_LOST.stream);
    assert [f][1..] == [] && SpuriousFrames(s, [f]) == SpuriousFrame(s, f);
    assert FirstOverlaid([FRONT, SECOND], f) == Some(0) && Trimmed(FRONT, f) == Buf(1, [], false);
    assert [FRONT, SECOND][..0] + [FRONT, SECOND][1..] == [SECOND];
    assert RemoveFromLossBuffer(s.lossBuffer, f) == [SECOND];
    assert [SECOND][0].Covers(1);
  }
}
