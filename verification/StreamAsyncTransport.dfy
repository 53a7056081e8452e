/**
 The writing half of the adapter that offers a QUIC stream as an asynchronous transport
 (quic/api/QuicStreamAsyncTransport.cpp): writes are buffered, handed to the socket when it asks
 for data, and each caller hears once how its write went. Callbacks that call back into the
 transport are not modelled.
 */
module StreamAsyncTransport {
  import opened Prelude

  datatype EofState = NotSeen | Queued | Delivered | Error

  datatype CloseState = Open | Closing | Closed

  /** A caller waiting for the stream to be handed over up to an offset. */
  datatype Waiting = Waiting(offset: nat, callback: nat)

  /** What a caller was told. */
  datatype Told = Success(callback: nat) | Failure(callback: nat)

  function Callbacks(ws: seq<Waiting>): (r: seq<nat>)
    ensures |r| == |ws| && forall i :: 0 <= i < |ws| ==> r[i] == ws[i].callback
  {
    seq(|ws|, i requires 0 <= i < |ws| => ws[i].callback)
  }

  function ToldTo(ts: seq<Told>): (r: seq<nat>)
    ensures |r| == |ts| && forall i :: 0 <= i < |ts| ==> r[i] == ts[i].callback
  {
    seq(|ts|, i requires 0 <= i < |ts| => ts[i].callback)
  }

  /** The first `k` callers told how it went. */
  function Answers(ws: seq<Waiting>, k: nat, ok: bool): (r: seq<Told>)
    requires k <= |ws|
    ensures |r| == k && forall i :: 0 <= i < k ==> r[i] == if ok then Success(ws[i].callback) else Failure(ws[i].callback)
  {
    seq(k, i requires 0 <= i < k => if ok then Success(ws[i].callback) else Failure(ws[i].callback))
  }

  /** The waiting callers are in order, and each waits for the end of its own bytes: `ends` counts accepted bytes. */
  ghost predicate InLine(ws: seq<Waiting>, ends: seq<nat>, offset: nat, handed: nat, accepted: nat) {
    && |ends| == |ws|
    && (forall i :: 0 <= i < |ws| ==> ws[i].offset - offset == ends[i] - handed)
    && (forall i, j :: 0 <= i <= j < |ws| ==> ends[i] <= ends[j])
    && (forall i :: 0 <= i < |ws| ==> ends[i] <= accepted)
  }

  /** The last caller waits for the last byte. */
  ghost predicate LastOne(ends: seq<nat>, accepted: nat) { ends != [] && ends[|ends| - 1] == accepted }

  class AsyncTransport<Byte(==)> {
    var id: Option<nat>
    var state: CloseState
    var streamWriteOffset: nat
    var writeEof: EofState
    var writeBuf: seq<Byte>
    var writeCallbacks: seq<Waiting>
    var failed: bool
    /** Whether the socket was asked to call when the stream can be written. */
    var notified: bool

    /** Bytes accepted from callers, bytes handed to the socket, and whether the end was handed over. */
    ghost var accepted: seq<Byte>
    ghost var handed: seq<Byte>
    ghost var eofHanded: bool
    /** Whether bytes were given to the socket and refused. */
    ghost var dropped: bool
    /** The callers whose writes were accepted, in order; what each was told, in order; where each one's bytes end. */
    ghost var writers: seq<nat>
    ghost var told: seq<Told>
    ghost var ends: seq<nat>

    ghost predicate Valid()
      reads this
    {
      && InLine(writeCallbacks, ends, streamWriteOffset, |handed|, |accepted|)
      && writers == ToldTo(told) + Callbacks(writeCallbacks)
      && (!dropped ==> accepted == handed + writeBuf)
      && (dropped ==> writeEof == Error)
      && (writeEof == Error ==> writeCallbacks == [])
      && (writeEof == Delivered ==> writeBuf == [] && writeCallbacks == [] && eofHanded)
      && (eofHanded ==> writeEof == Delivered || writeEof == Error)
      && (writeBuf != [] && writeEof != Error ==> LastOne(ends, |accepted|))
      && (state == Closed ==> id.None? && writeEof == Error)
      && (notified ==> id.Some?)
    }

    /** Once the stream is known, whatever is left to send has been announced to the socket. */
    ghost predicate Live()
      reads this
    {
      id.Some? && writeEof != Error && (writeCallbacks != [] || writeBuf != [] || writeEof == Queued) ==> notified
    }

    constructor ()
      ensures Valid() && Live() && id.None? && state == Open && writeEof == NotSeen
      ensures accepted == [] && handed == [] && writers == [] && !failed && writeCallbacks == [] && writeBuf == [] && !notified
    {
      id, state, streamWriteOffset, writeEof, writeBuf, writeCallbacks := None, Open, 0, NotSeen, [], [];
      failed, notified, accepted, handed, eofHanded, dropped := false, false, [], [], false, false;
      writers, told, ends := [], [], [];
    }

    /** `write`, `writev`, `writeChain`: refused at once after the end, a close or an error. */
    method Write(data: seq<Byte>, callback: nat) returns (ok: bool)
      requires Valid() && Live()
      modifies this`writeBuf, this`writeCallbacks, this`notified, this`accepted, this`writers, this`ends
      ensures Valid() && Live()
      ensures ok <==> writeEof == NotSeen && state != Closed && !failed
      ensures ok ==> accepted == old(accepted) + data && writers == old(writers) + [callback] && ends == old(ends) + [|accepted|]
      ensures !ok ==> accepted == old(accepted) && writers == old(writers) && writeBuf == old(writeBuf) && ends == old(ends)
    {
      if writeEof != NotSeen || state == Closed || failed {
        return false;
      }
      hide InLine, Callbacks, ToldTo;
      writeBuf := writeBuf + data;
      accepted := accepted + data;
      var w := Waiting(streamWriteOffset + |writeBuf|, callback);
      JoinLine(writeCallbacks, ends, streamWriteOffset, |handed|, |accepted| - |data|, w, |accepted|);
      CallbacksSnoc(told, writeCallbacks, w);
      writeCallbacks := writeCallbacks + [w];
      writers := writers + [callback];
      ends := ends + [|accepted|];
      if id.Some? {
        notified := true;
      }
      ok := true;
    }

    /**
     `setStreamId`: callers already waiting move up by what the stream had written before. The
     socket is asked to call exactly when there are such callers, so an end that was queued
     without any stays behind. Its checks fail exactly for a second stream and once the transport is
     closing or closed.
     */
    method SetStreamId(newId: nat, streamOffset: nat) returns (r: Checked<()>)
      requires Valid() && Live()
      modifies this`id, this`writeCallbacks, this`streamWriteOffset, this`notified
      ensures r == CheckFailed <==> old(id).Some? || state != Open
      ensures r == CheckFailed ==> unchanged(this)
      ensures r.Ok? ==> Valid() && id == Some(newId) && (notified <==> writeCallbacks != [])
      ensures r.Ok? ==> Callbacks(writeCallbacks) == old(Callbacks(writeCallbacks))
      ensures r.Ok? ==> streamWriteOffset == old(streamWriteOffset) + if writeCallbacks != [] then streamOffset else 0
      ensures r.Ok? ==> (Live() <==> !(old(writeEof) == Queued && old(writeCallbacks) == []))
    {
      if id.Some? || state != Open {
        return CheckFailed;
      }
      r := Ok(());
      id := Some(newId);
      if writeCallbacks != [] {
        var ws := writeCallbacks;
        var moved := seq(|ws|, i requires 0 <= i < |ws| => Waiting(ws[i].offset + streamOffset, ws[i].callback));
        assert Callbacks(moved) == Callbacks(ws);
        assert InLine(moved, ends, streamWriteOffset + streamOffset, |handed|, |accepted|);
        writeCallbacks := moved;
        streamWriteOffset := streamWriteOffset + streamOffset;
        notified := true;
      }
    }

    /** `invokeWriteCallbacks`: callers are told in order, and only once their bytes are handed over. */
    method InvokeWriteCallbacks() returns (k: nat)
      requires InLine(writeCallbacks, ends, streamWriteOffset, |handed|, |accepted|)
      modifies this`writeCallbacks, this`told, this`ends
      ensures k <= |old(writeCallbacks)| == |old(ends)|
      ensures writeCallbacks == old(writeCallbacks)[k..] && ends == old(ends)[k..]
      ensures told == old(told) + Answers(old(writeCallbacks), k, true)
      ensures forall i :: 0 <= i < k ==> old(ends)[i] <= |handed|
      ensures writeCallbacks != [] ==> ends[0] > |handed|
    {
      ghost var ws, es := writeCallbacks, ends;
      k := 0;
      while writeCallbacks != [] && writeCallbacks[0].offset <= streamWriteOffset
        invariant k <= |ws| == |es| && writeCallbacks == ws[k..] && ends == es[k..]
        invariant told == old(told) + Answers(ws, k, true)
        invariant forall i :: 0 <= i < k ==> es[i] <= |handed|
        decreases |writeCallbacks|
      {
        assert ws[k].offset - streamWriteOffset == es[k] - |handed|;
        assert Answers(ws, k + 1, true) == Answers(ws, k, true) + [Success(ws[k].callback)];
        told := told + [Success(writeCallbacks[0].callback)];
        writeCallbacks := writeCallbacks[1..];
        ends := ends[1..];
        k := k + 1;
      }
      assert k < |ws| ==> ws[k].offset - streamWriteOffset == es[k] - |handed|;
    }

    /** `failWrites`: everyone still waiting hears of the failure, and nothing is accepted after it. */
    method FailWrites()
      requires |ends| == |writeCallbacks|
      modifies this`writeCallbacks, this`told, this`ends, this`writeEof
      ensures writeEof == Error && writeCallbacks == [] && ends == []
      ensures told == old(told) + Answers(old(writeCallbacks), |old(writeCallbacks)|, false)
    {
      ghost var ws := writeCallbacks;
      ghost var k := 0;
      while writeCallbacks != []
        invariant k <= |ws| && writeCallbacks == ws[k..] && |ends| == |writeCallbacks|
        invariant told == old(told) + Answers(ws, k, false)
        decreases |writeCallbacks|
      {
        assert Answers(ws, k + 1, false) == Answers(ws, k, false) + [Failure(ws[k].callback)];
        told := told + [Failure(writeCallbacks[0].callback)];
        writeCallbacks := writeCallbacks[1..];
        ends := ends[1..];
        k := k + 1;
      }
      writeEof := Error;
    }

    /**
     `send`; `taken` is the socket's answer. The bytes go in order and the end goes with the last
     of them; each caller whose bytes are all handed over is told so. The check that nobody waits
     once the end is handed over cannot fail.
     */
    method Send(maxToSend: nat, taken: bool)
      requires Valid() && id.Some?
      modifies this`writeBuf, this`writeEof, this`writeCallbacks, this`notified, this`streamWriteOffset
      modifies this`handed, this`eofHanded, this`dropped, this`told, this`ends
      ensures Valid()
      ensures !taken ==> writeEof == Error && handed == old(handed) && told == old(told) + Answers(old(writeCallbacks), |old(writeCallbacks)|, false)
      ensures taken ==> handed == old(handed) + old(writeBuf)[..Min(maxToSend, |old(writeBuf)|)]
      ensures taken ==> writeEof == (if old(writeEof) == Queued && |old(writeBuf)| <= maxToSend then Delivered else old(writeEof))
      ensures taken ==>
                var k := |old(writeCallbacks)| - |writeCallbacks|;
                0 <= k && told == old(told) + Answers(old(writeCallbacks), k, true) && forall i :: 0 <= i < k ==> old(ends)[i] <= |handed|
      ensures taken ==> Live() && (writeCallbacks != [] ==> |ends| == |writeCallbacks| && ends[0] > |handed|)
    {
      hide InLine, Callbacks, ToldTo, Answers;
      var toSend := Min(maxToSend, |writeBuf|);
      if taken {
        HandOver(toSend);
      } else {
        RefusedBytes(toSend);
      }
    }

    /** The socket refused the bytes: they are gone, and every caller hears of it. */
    method RefusedBytes(toSend: nat)
      requires Valid() && toSend <= |writeBuf|
      modifies this`writeBuf, this`writeEof, this`writeCallbacks, this`dropped, this`told, this`ends
      ensures Valid() && writeEof == Error
      ensures told == old(told) + Answers(old(writeCallbacks), |old(writeCallbacks)|, false)
    {
      hide InLine, Callbacks, ToldTo, Answers;
      LineLength(writeCallbacks, ends, streamWriteOffset, |handed|, |accepted|);
      ghost var ws := writeCallbacks;
      writeBuf := writeBuf[toSend..];
      dropped := true;
      FailWrites();
      AllTold(old(told), ws, |ws|, false);
      EmptyLine(streamWriteOffset, |handed|, |accepted|);
    }

    /** The socket took the bytes, and the end if it goes with them. */
    method HandOver(toSend: nat)
      requires Valid() && id.Some? && toSend <= |writeBuf|
      modifies this`writeBuf, this`writeEof, this`writeCallbacks, this`notified, this`streamWriteOffset
      modifies this`handed, this`eofHanded, this`told, this`ends
      ensures Valid() && Live() && handed == old(handed) + old(writeBuf)[..toSend]
      ensures writeCallbacks != [] ==> |ends| == |writeCallbacks| && ends[0] > |handed|
      ensures writeEof == if old(writeEof) == Queued && |old(writeBuf)| == toSend then Delivered else old(writeEof)
      ensures var k := |old(writeCallbacks)| - |writeCallbacks|;
              0 <= k && told == old(told) + Answers(old(writeCallbacks), k, true) && forall i :: 0 <= i < k ==> old(ends)[i] <= |handed|
    {
      hide InLine, Callbacks, ToldTo, Answers, LastOne;
      ghost var ws, es := writeCallbacks, ends;
      MoveBytes(toSend);
      var k := InvokeWriteCallbacks();
      AllTold(old(told), ws, k, true);
      LineTail(ws, es, streamWriteOffset, |handed|, |accepted|, k);
      NobodyBeyond(writeCallbacks, ends, streamWriteOffset, |handed|, |accepted|);
      if writeBuf != [] && writeEof != Error { SomebodyBehind(es, k, |handed|, |accepted|); }
      assert writeEof == Delivered ==> writeCallbacks == [];
    }

    /** The bytes leave the buffer; the end leaves with the last of them, or more is asked for. */
    method MoveBytes(toSend: nat)
      requires Valid() && id.Some? && toSend <= |writeBuf|
      modifies this`writeBuf, this`writeEof, this`notified, this`streamWriteOffset, this`handed, this`eofHanded
      ensures writeBuf == old(writeBuf)[toSend..] && handed == old(handed) + old(writeBuf)[..toSend]
      ensures !dropped ==> accepted == handed + writeBuf
      ensures writeEof == if old(writeEof) == Queued && |old(writeBuf)| == toSend then Delivered else old(writeEof)
      ensures eofHanded == (old(eofHanded) || writeEof != old(writeEof))
      ensures notified == (old(notified) || (writeEof == old(writeEof) && writeBuf != []))
      ensures InLine(writeCallbacks, ends, streamWriteOffset, |handed|, |accepted|)
    {
      hide InLine, Callbacks, ToldTo, LastOne;
      MoveLine(writeCallbacks, ends, streamWriteOffset, |handed|, |accepted|, toSend);
      var eof := writeEof == Queued && |writeBuf| == toSend;
      ghost var bytes := writeBuf[..toSend];
      assert bytes + writeBuf[toSend..] == writeBuf;
      writeBuf := writeBuf[toSend..];
      handed := handed + bytes;
      if eof {
        writeEof := Delivered;
        eofHanded := true;
      } else if writeBuf != [] {
        notified := true;
      }
      streamWriteOffset := streamWriteOffset + toSend;
    }

    /** `onStreamWriteReady`: the socket's call uses up the request for it. */
    method OnStreamWriteReady(maxToSend: nat, taken: bool)
      requires Valid() && Live() && id.Some? && notified
      modifies this`writeBuf, this`writeEof, this`writeCallbacks, this`notified, this`streamWriteOffset
      modifies this`handed, this`eofHanded, this`dropped, this`told, this`ends
      ensures Valid() && Live()
      ensures taken ==> handed == old(handed) + old(writeBuf)[..Min(maxToSend, |old(writeBuf)|)]
    {
      notified := false;
      if writeEof == Delivered && writeBuf == [] {
        assert handed + [] == handed;
        return;
      }
      Send(maxToSend, taken);
    }

    /** `shutdownWrite`. */
    method ShutdownWrite()
      requires Valid() && Live()
      modifies this`writeEof, this`notified
      ensures Valid() && Live()
      ensures writeEof == (if old(writeEof) == NotSeen then Queued else old(writeEof))
      ensures notified == (old(notified) || (old(writeEof) == NotSeen && id.Some?))
    {
      if writeEof == NotSeen {
        writeEof := Queued;
        if id.Some? {
          notified := true;
        }
      }
    }

    /**
     `shutdownWriteNow`: it hands over the end at once if no bytes are waiting, and otherwise resets the
     stream. It calls `send` unconditionally, and `send` checks for a stream: without one it fails
     exactly when the end has not been handed over yet. The result says whether the stream was reset.
     */
    method ShutdownWriteNow(taken: bool) returns (r: Checked<bool>)
      requires Valid() && Live()
      modifies this
      ensures r == CheckFailed <==> old(id).None? && old(writeEof) != Delivered
      ensures r.Ok? ==> Valid() && state == old(state)
      ensures r.Ok? && taken && old(writeBuf) == [] && old(writeEof) in {NotSeen, Queued} ==> writeEof == Delivered
      ensures r.Ok? ==> (r.value <==> id.Some? && writeEof != Delivered)
    {
      if writeEof == Delivered {
        return Ok(false);
      }
      ShutdownWrite();
      if id.None? {
        return CheckFailed;
      }
      Send(0, taken);
      r := Ok(id.Some? && writeEof != Delivered);
    }

    /** `close`, whatever the state: the end is queued, the bytes accepted still go out, and no stream can be assigned. */
    method Close()
      requires Valid() && Live()
      modifies this`state, this`writeEof, this`notified
      ensures Valid() && Live() && state == Closing
      ensures writeEof == (if old(writeEof) == NotSeen then Queued else old(writeEof))
    {
      state := Closing;
      ShutdownWrite();
    }

    /** `closeNow`: with a stream the end goes first, and its check for a stream holds. */
    method CloseNow(taken: bool)
      requires Valid() && Live()
      modifies this
      ensures Valid() && Live() && (old(state) != Closed ==> state == Closed && writeEof == Error) && writeCallbacks == []
    {
      if id.Some? {
        var r := ShutdownWriteNow(taken);
        assert r.Ok?;
      }
      CloseNowImpl();
    }

    /** `closeNowImpl`: everyone waiting is told, the stream is let go, and no write is accepted again. */
    method CloseNowImpl()
      requires Valid()
      modifies this
      ensures Valid() && Live()
      ensures old(state) != Closed ==> state == Closed && failed && writeEof == Error && id.None?
      ensures accepted == old(accepted) && handed == old(handed)
      ensures |told| == |old(told)| + |old(writeCallbacks)| && writers == old(writers) && writeCallbacks == []
    {
      if state == Closed {
        return;
      }
      hide InLine, Callbacks, ToldTo, Answers;
      LineLength(writeCallbacks, ends, streamWriteOffset, |handed|, |accepted|);
      state, failed, id, notified := Closed, true, None, false;
      ghost var ws := writeCallbacks;
      FailWrites();
      AllTold(old(told), ws, |ws|, false);
      EmptyLine(streamWriteOffset, |handed|, |accepted|);
    }
  }

  // ------------------------------------------------------------------ the line of callers

  lemma JoinLine(ws: seq<Waiting>, ends: seq<nat>, offset: nat, handed: nat, accepted: nat, w: Waiting, end: nat)
    requires InLine(ws, ends, offset, handed, accepted) && accepted <= end && w.offset - offset == end - handed
    ensures InLine(ws + [w], ends + [end], offset, handed, end)
  {
  }

  lemma LineTail(ws: seq<Waiting>, ends: seq<nat>, offset: nat, handed: nat, accepted: nat, k: nat)
    requires InLine(ws, ends, offset, handed, accepted) && k <= |ws|
    ensures InLine(ws[k..], ends[k..], offset, handed, accepted)
  {
  }

  lemma LineLength(ws: seq<Waiting>, ends: seq<nat>, offset: nat, handed: nat, accepted: nat)
    requires InLine(ws, ends, offset, handed, accepted)
    ensures |ends| == |ws| && forall i :: 0 <= i < |ws| ==> ends[i] <= accepted
  {
  }

  lemma EmptyLine(offset: nat, handed: nat, accepted: nat)
    ensures InLine([], [], offset, handed, accepted)
  {
  }

  lemma MoveLine(ws: seq<Waiting>, ends: seq<nat>, offset: nat, handed: nat, accepted: nat, n: nat)
    requires InLine(ws, ends, offset, handed, accepted)
    ensures InLine(ws, ends, offset + n, handed + n, accepted)
  {
  }

  /** With everything handed over and the ready callers told, nobody waits. */
  lemma NobodyBeyond(ws: seq<Waiting>, ends: seq<nat>, offset: nat, handed: nat, accepted: nat)
    requires InLine(ws, ends, offset, handed, accepted) && (ws != [] ==> ends[0] > handed)
    ensures accepted <= handed ==> ws == []
  {
  }

  /** While bytes remain, so does the last caller. */
  lemma SomebodyBehind(ends: seq<nat>, k: nat, handed: nat, accepted: nat)
    requires k <= |ends| && LastOne(ends, accepted) && handed < accepted && forall i :: 0 <= i < k ==> ends[i] <= handed
    ensures LastOne(ends[k..], accepted)
  {
  }

  lemma CallbacksSnoc(told: seq<Told>, ws: seq<Waiting>, w: Waiting)
    ensures ToldTo(told) + Callbacks(ws + [w]) == ToldTo(told) + Callbacks(ws) + [w.callback]
  {
  }

  /** Telling the first `k` callers moves them from those waiting to those told. */
  lemma AllTold(told: seq<Told>, ws: seq<Waiting>, k: nat, ok: bool)
    requires k <= |ws|
    ensures ToldTo(told + Answers(ws, k, ok)) + Callbacks(ws[k..]) == ToldTo(told) + Callbacks(ws)
    ensures k == |ws| ==> ToldTo(told + Answers(ws, k, ok)) + Callbacks([]) == ToldTo(told) + Callbacks(ws)
  {
    assert k == |ws| ==> ws[k..] == [];
  }

  // ------------------------------------------------------------------ an end that stays behind

  /** Shutting down before the stream is assigned, with nothing written: the end is queued and never announced. */
  method EndStaysBehind() returns (t: AsyncTransport<nat>)
    ensures t.Valid() && t.id.Some? && t.writeEof == Queued && !t.notified && !t.Live()
  {
    hide InLine, Callbacks, ToldTo, LastOne;
    t := new AsyncTransport<nat>();
    t.ShutdownWrite();
    var r := t.SetStreamId(0, 0);
  }

  /** Closing before the stream is assigned: the assignment fails its check. */
  method CloseBeforeStream() returns (t: AsyncTransport<nat>, r: Checked<()>)
    ensures t.Valid() && t.id.None? && r == CheckFailed
  {
    t := new AsyncTransport<nat>();
    t.Close();
    r := t.SetStreamId(0, 0);
  }
}
