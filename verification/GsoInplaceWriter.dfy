/**
 The in-place GSO path: one contiguous buffer shared by the packet builder and the
 batch writer. `SharedBuffer` is the IOBuf behind `BufAccessor`
 (quic/common/QuicBuffer.cpp); `InplaceBatch` is `GSOInplacePacketBatchWriter`
 (quic/api/QuicGsoBatchWriters.cpp) driven by `IOBufQuicBatch`
 (quic/api/IoBufQuicBatch.cpp) without happy-eyeballs state and by the write loop
 of quic/api/QuicTransportFunctions.cpp. Every CHECK of the writer is an assertion
 here. Pointers into the buffer are indices into its memory.
 */
module GsoInplaceWriter {
  import opened Prelude
  import opened GsoBatching
  import opened GsoExact

  /** Copies `n` bytes to a place not behind them, in the order that makes an overlap harmless. */
  method MoveDown(mem: array<bv8>, from: nat, to: nat, n: nat)
    requires to <= from && from + n <= mem.Length
    modifies mem
    ensures mem[to..to + n] == old(mem[from..from + n])
  {
    for i := 0 to n
      invariant forall j :: to <= j < to + i ==> mem[j] == old(mem[j + (from - to)])
      invariant forall k :: from + i <= k < mem.Length ==> mem[k] == old(mem[k])
    {
      mem[to + i] := mem[from + i];
    }
  }

  class SharedBuffer {
    var mem: array<bv8>
    var headroom: nat
    var length: nat

    ghost predicate Valid()
      reads this
    {
      headroom + length <= mem.Length
    }

    /** The bytes between `data()` and `tail()`. */
    function Contents(): (r: Bytes)
      requires Valid()
      reads this, mem
    {
      mem[headroom..headroom + length]
    }

    constructor (capacity: nat)
      ensures Valid() && fresh(mem) && mem.Length == capacity && headroom == 0 && length == 0
    {
      mem := new bv8[capacity];
      headroom, length := 0, 0;
    }

    method TrimEnd(amount: nat)
      requires Valid() && amount <= length
      modifies this`length
      ensures Valid() && length == old(length) - amount
      ensures Contents() == old(Contents())[..length]
    {
      length := length - amount;
    }

    method TrimStart(amount: nat)
      requires Valid() && amount <= length
      modifies this`length, this`headroom
      ensures Valid() && headroom == old(headroom) + amount && length == old(length) - amount
      ensures Contents() == old(Contents())[amount..]
    {
      headroom, length := headroom + amount, length - amount;
    }

    /** Takes bytes already in memory behind the tail into the buffer. */
    method Append(amount: nat)
      requires Valid() && headroom + length + amount <= mem.Length
      modifies this`length
      ensures Valid() && length == old(length) + amount
      ensures Contents() == old(mem[headroom..headroom + length + amount])
    {
      length := length + amount;
    }

    /** Moves the contents towards the start of the memory. */
    method Retreat(amount: nat)
      requires Valid() && amount <= headroom
      modifies this`headroom, mem
      ensures Valid() && headroom == old(headroom) - amount
      ensures Contents() == old(Contents())
    {
      MoveDown(mem, headroom, headroom - amount, length);
      headroom := headroom - amount;
    }

    method Clear()
      requires Valid()
      modifies this`headroom, this`length
      ensures Valid() && headroom == 0 && length == 0
    {
      headroom, length := 0, 0;
    }

    /** The shift of `GSOInplacePacketBatchWriter::write`: drop the contents, keep `amount` bytes behind them, at the start. */
    method KeepBehind(amount: nat)
      requires Valid() && headroom == 0 && length + amount <= mem.Length
      modifies this, mem
      ensures Valid() && headroom == 0 && length == amount && mem == old(mem)
      ensures Contents() == old(mem[length..length + amount])
    {
      var diffToStart := length;
      TrimStart(diffToStart);
      Append(amount);
      Retreat(diffToStart);
      assert amount == length && headroom == 0;
    }

    /** Takes bytes in memory in front of the contents back into the buffer. */
    method Prepend(amount: nat)
      requires Valid() && amount <= headroom
      modifies this`headroom, this`length
      ensures Valid() && headroom == old(headroom) - amount && length == old(length) + amount
      ensures Contents() == mem[headroom..headroom + amount] + old(Contents())
    {
      headroom, length := headroom - amount, length + amount;
    }

    /** Writes `p` behind the tail and takes it in. */
    method Push(p: Bytes)
      requires Valid() && headroom + length + |p| <= mem.Length
      modifies this`length, mem
      ensures Valid() && length == old(length) + |p|
      ensures Contents() == old(Contents()) + p
    {
      CopyIn(mem, headroom + length, p);
      length := length + |p|;
    }

    /** Replaces the contents in place by bytes that may be longer. */
    method Overwrite(p: Bytes)
      requires Valid() && headroom + |p| <= mem.Length
      modifies this`length, mem
      ensures Valid() && Contents() == p && mem[..headroom] == old(mem[..headroom])
    {
      CopyIn(mem, headroom, p);
      length := |p|;
    }
  }

  method CopyIn(mem: array<bv8>, at: nat, p: Bytes)
    requires at + |p| <= mem.Length
    modifies mem
    ensures mem[..at] == old(mem[..at]) && mem[at..at + |p|] == p
  {
    for i := 0 to |p|
      invariant mem[..at] == old(mem[..at]) && mem[at..at + i] == p[..i]
    {
      mem[at + i] := p[i];
      assert mem[at..at + i + 1] == mem[at..at + i] + [p[i]] && p[..i + 1] == p[..i] + [p[i]];
    }
    assert p[..|p|] == p;
  }

  /** What the packet builder left in the buffer: a header and a body, and whether any frame was written. */
  datatype Attempt = Attempt(header: Bytes, body: Bytes, frames: bool) {
    /** A packet without frames or without a body is not sent. */
    predicate Sends() { frames && body != [] }
  }

  /** The cipher: sealing adds a tag of fixed size; protecting a header keeps the packet's length. */
  datatype Cipher = Cipher(overhead: nat, seal: (Bytes, Bytes) -> Bytes, protect: Bytes -> Bytes)

  ghost predicate CipherOk(c: Cipher) {
    && (forall h, b :: |c.seal(h, b)| == |b| + c.overhead)
    && (forall p :: |c.protect(p)| == |p|)
  }

  /** The packet as it goes on the wire. */
  function PacketOf(a: Attempt, c: Cipher): Bytes { c.protect(a.header + c.seal(a.header, a.body)) }

  function PacketsOf(attempts: seq<Attempt>, c: Cipher): (r: seq<Bytes>)
    ensures |r| == |attempts| && forall i :: 0 <= i < |r| ==> r[i] == PacketOf(attempts[i], c)
  {
    seq(|attempts|, i requires 0 <= i < |attempts| => PacketOf(attempts[i], c))
  }

  lemma PacketSize(a: Attempt, c: Cipher)
    requires CipherOk(c)
    ensures |PacketOf(a, c)| == |a.header| + |a.body| + c.overhead
  {
  }

  lemma ConcatSnoc(ps: seq<Bytes>, p: Bytes)
    ensures Concat(ps + [p]) == Concat(ps) + p
  {
    assert (ps + [p])[..|ps + [p]| - 1] == ps;
  }

  class InplaceBatch {
    const buf: SharedBuffer
    const maxPackets: nat
    const udpSendPacketLen: nat

    // GSOInplacePacketBatchWriter
    var lastPacketEnd: Option<nat>
    var prevSize: nat
    var numPackets: nat
    var nextPacketSize: nat

    // what the socket was given: bytes and segment size of every write
    var writes: seq<(Bytes, nat)>

    // the packets behind the bytes
    ghost var batch: Batcher
    ghost var building: Bytes

    /** The buffer is exactly the batched packets and at most the one being added. */
    ghost predicate Valid()
      reads this, buf, buf.mem
    {
      && buf.Valid() && buf.headroom == 0
      && buf.Contents() == Concat(batch.open) + building
      && FieldsOk()
      && Logged(writes, batch.done)
    }

    ghost predicate FieldsOk()
      reads this
    {
      && numPackets == |batch.open|
      && (forall i :: 0 <= i < |batch.open| ==> batch.open[i] != [])
      && if batch.open == [] then lastPacketEnd == None && prevSize == 0
         else lastPacketEnd == Some(|Concat(batch.open)|) && prevSize == |batch.open[0]|
    }

    constructor (buf: SharedBuffer, maxPackets: nat, udpSendPacketLen: nat)
      requires buf.Valid() && buf.headroom == 0 && buf.length == 0
      ensures Valid() && batch == Batcher([], []) && building == [] && writes == []
      ensures this.buf == buf && this.maxPackets == maxPackets && this.udpSendPacketLen == udpSendPacketLen
    {
      this.buf, this.maxPackets, this.udpSendPacketLen := buf, maxPackets, udpSendPacketLen;
      lastPacketEnd, prevSize, numPackets, nextPacketSize := None, 0, 0, 0;
      writes, batch, building := [], Batcher([], []), [];
    }

    /**
     `continuousMemoryBuildScheduleEncrypt` up to the hand-over. The builder writes behind the batch. A
     packet that is not sent is rolled back, and the buffer is exactly the batched packets again. One
     that is sent is sealed and protected in place, with the batch and the header trimmed off and
     taken back around it; none of the checks on the way fails.
     */
    method Build(a: Attempt, c: Cipher) returns (size: Option<nat>)
      requires Valid() && building == [] && CipherOk(c) && (a.Sends() ==> a.header != [])
      requires buf.length + |a.header| + |a.body| + c.overhead <= buf.mem.Length
      modifies this`building, buf, buf.mem
      ensures Valid() && buf.mem == old(buf.mem) && (size.Some? <==> a.Sends())
      ensures size.Some? ==> building == PacketOf(a, c) && size.value == |building|
      ensures size.None? ==> building == [] && buf.Contents() == old(buf.Contents())
    {
      hide Concat, Logged;
      ghost var batched := Concat(batch.open);
      assert batched + [] == batched;
      var prevSize := buf.length;
      buf.Push(a.header + a.body);
      assert buf.length == |batched| + |a.header| + |a.body|;
      if !a.Sends() {
        buf.TrimEnd(buf.length - prevSize);
        return None;
      }
      var headerLen := |a.header|;
      assert 0 < prevSize + headerLen && prevSize + headerLen + |a.body| <= buf.length;
      assert prevSize + headerLen < buf.length;
      SealAndProtect(prevSize, headerLen, batched, a, c);
      building := PacketOf(a, c);
      size := Some(buf.length - prevSize);
    }

    method SealAndProtect(prevSize: nat, headerLen: nat, ghost batched: Bytes, a: Attempt, c: Cipher)
      requires buf.Valid() && buf.headroom == 0 && CipherOk(c) && headerLen == |a.header| && prevSize == |batched|
      requires buf.Contents() == batched + (a.header + a.body) && buf.length + c.overhead <= buf.mem.Length
      modifies buf, buf.mem
      ensures buf.Valid() && buf.headroom == 0 && buf.Contents() == batched + PacketOf(a, c) && buf.mem == old(buf.mem)
    {
      assert batched + (a.header + a.body) == (batched + a.header) + a.body;
      Seal(prevSize + headerLen, batched + a.header, a, c);
      Protect(prevSize, headerLen, batched, a, c);
    }

    /** The body is sealed where it stands, with everything in front of it trimmed off. */
    method Seal(skip: nat, ghost front: Bytes, a: Attempt, c: Cipher)
      requires buf.Valid() && buf.headroom == 0 && CipherOk(c) && skip == |front|
      requires buf.Contents() == front + a.body && buf.length + c.overhead <= buf.mem.Length
      modifies buf, buf.mem
      ensures buf.Valid() && buf.headroom == skip && buf.mem == old(buf.mem)
      ensures buf.Contents() == c.seal(a.header, a.body) && buf.mem[..skip] == front
    {
      assert buf.mem[..skip] == buf.Contents()[..skip] == front;
      buf.TrimStart(skip);
      assert buf.Contents() == a.body;
      buf.Overwrite(c.seal(a.header, buf.Contents()));
    }

    /** The header is taken back and protected with the packet, then the batch is taken back. */
    method Protect(prevSize: nat, headerLen: nat, ghost batched: Bytes, a: Attempt, c: Cipher)
      requires buf.Valid() && buf.headroom == prevSize + headerLen && CipherOk(c)
      requires prevSize == |batched| && headerLen == |a.header|
      requires buf.mem[..prevSize + headerLen] == batched + a.header && buf.Contents() == c.seal(a.header, a.body)
      modifies buf, buf.mem
      ensures buf.Valid() && buf.headroom == 0 && buf.Contents() == batched + PacketOf(a, c) && buf.mem == old(buf.mem)
    {
      assert buf.mem[prevSize..prevSize + headerLen] == a.header;
      assert buf.mem[..prevSize] == batched;
      buf.Prepend(headerLen);
      assert buf.Contents() == a.header + c.seal(a.header, a.body) && buf.headroom == prevSize;
      buf.Overwrite(c.protect(buf.Contents()));
      assert buf.Contents() == PacketOf(a, c) && buf.mem[..buf.headroom] == batched;
      hide PacketOf;
      buf.Prepend(prevSize);
      assert buf.mem[0..prevSize] == batched;
    }

    method Reset()
      modifies this`lastPacketEnd, this`prevSize, this`numPackets, this`nextPacketSize
      ensures lastPacketEnd == None && prevSize == 0 && numPackets == 0 && nextPacketSize == 0
    {
      lastPacketEnd, prevSize, numPackets, nextPacketSize := None, 0, 0, 0;
    }

    method NeedsFlush(size: nat) returns (flush: bool)
      requires Valid()
      modifies this`nextPacketSize
      ensures Valid() && flush == GsoBatching.NeedsFlush(batch, size)
      ensures flush <==> batch.open != [] && size > |batch.open[0]|
      ensures nextPacketSize == if flush then size else old(nextPacketSize)
    {
      flush := prevSize != 0 && size > prevSize;
      if flush {
        nextPacketSize := size;
      }
    }

    method Append(size: nat) returns (flush: bool)
      requires Valid() && building != [] && size == |building| && !GsoBatching.NeedsFlush(batch, size)
      modifies this
      ensures Valid() && building == []
      ensures batch == Batcher(old(batch.open) + [old(building)], old(batch.done))
      ensures flush == FlushAfter(old(batch.open), size, maxPackets)
      ensures writes == old(writes)
    {
      ghost var p := building;
      ConcatSnoc(batch.open, p);
      var tail := buf.headroom + buf.length;
      if lastPacketEnd.None? {
        assert prevSize == 0 && numPackets == 0;
        prevSize, numPackets, flush := size, 1, false;
      } else {
        assert prevSize != 0 && prevSize >= size;
        numPackets := numPackets + 1;
        flush := prevSize > size || numPackets == maxPackets;
      }
      lastPacketEnd := Some(tail);
      batch, building := Batcher(batch.open + [p], batch.done), [];
      assert Concat(batch.open) + [] == Concat(batch.open);
    }

    /** `write`: send up to `lastPacketEnd`, then move the packet behind it, if any, to the start of the buffer. */
    method WriteSocket()
      requires Valid() && batch.open != [] && (building == [] || nextPacketSize == |building|)
      modifies this, buf, buf.mem
      ensures Valid() && building == old(building) && buf.mem == old(buf.mem)
      ensures batch == GsoBatching.Flush(old(batch)) && nextPacketSize == 0
      ensures buf.length == |building|
    {
      LogSnoc(writes, batch, Concat(batch.open), GsoValue(batch.open));
      SendAndShift();
      hide Logged, Concat;
      Reset();
      batch := GsoBatching.Flush(batch);
      assert buf.Contents() == Concat(batch.open) + building;
    }

    method SendAndShift()
      requires Valid() && batch.open != [] && (building == [] || nextPacketSize == |building|)
      modifies this`writes, buf, buf.mem
      ensures buf.Valid() && buf.headroom == 0 && buf.Contents() == building && buf.mem == old(buf.mem)
      ensures writes == old(writes) + [(Concat(batch.open), GsoValue(batch.open))]
    {
      ghost var sent, p := Concat(batch.open), building;
      assert lastPacketEnd.Some? && buf.headroom <= lastPacketEnd.value <= buf.headroom + buf.length;
      var diffToEnd := buf.headroom + buf.length - lastPacketEnd.value;
      assert diffToEnd <= udpSendPacketLen || (nextPacketSize != 0 && diffToEnd == nextPacketSize);
      ghost var all := buf.mem[..buf.length];
      buf.TrimEnd(diffToEnd);
      var gso := if numPackets > 1 then prevSize else 0;
      assert buf.Contents() == sent;
      writes := writes + [(buf.Contents(), gso)];
      hide Concat, Logged;
      if diffToEnd > 0 {
        assert buf.mem[buf.length..buf.length + diffToEnd] == all[buf.length..] == p;
        buf.KeepBehind(diffToEnd);
        assert buf.length <= udpSendPacketLen || (nextPacketSize != 0 && buf.length == nextPacketSize);
      } else {
        buf.Clear();
      }
    }

    /** `flush`: nothing for an empty batch, else one socket write; then reset. */
    method Flush()
      requires Valid() && (building == [] || nextPacketSize == |building|)
      modifies this, buf, buf.mem
      ensures Valid() && building == old(building) && buf.mem == old(buf.mem)
      ensures batch == GsoBatching.Flush(old(batch))
      ensures buf.length == |building|
    {
      if numPackets != 0 {
        WriteSocket();
      } else {
        assert batch.open == [] && Concat([]) + building == building;
      }
      Reset();
    }

    /**
     One packet through `continuousMemoryBuildScheduleEncrypt` and `IOBufQuicBatch::write`; a packet that
     is not sent flushes the batch instead.
     */
    method WritePacket(a: Attempt, c: Cipher) returns (ok: bool)
      requires Valid() && building == [] && CipherOk(c) && (a.Sends() ==> a.header != [])
      requires buf.length + |a.header| + |a.body| + c.overhead <= buf.mem.Length
      modifies this, buf, buf.mem
      ensures Valid() && building == [] && buf.mem == old(buf.mem) && (ok <==> a.Sends())
      ensures batch == if ok then Add(old(batch), PacketOf(a, c), maxPackets) else GsoBatching.Flush(old(batch))
    {
      var size := Build(a, c);
      ok := size.Some?;
      if !ok {
        Flush();
        return;
      }
      PacketSize(a, c);
      var flush := NeedsFlush(size.value);
      if flush {
        Flush();
      }
      flush := Append(size.value);
      if flush {
        Flush();
      }
    }

    /** The buffer holds a whole batch of the largest packets, as the transport allocates it. */
    ghost predicate HoldsBatch()
      reads this, buf
    {
      maxPackets >= 2 && buf.mem.Length >= maxPackets * udpSendPacketLen
    }

    /** The loop itself: packets are written until one is not sent. No packet ever lacks room in the buffer. */
    method WriteAll(attempts: seq<Attempt>, c: Cipher) returns (sent: nat, stopped: bool)
      requires Valid() && building == [] && batch == Batcher([], []) && CipherOk(c) && HeadersOk(attempts)
      requires HoldsBatch() && FitDatagram(attempts, c, udpSendPacketLen)
      modifies this, buf, buf.mem
      ensures Valid() && building == [] && buf.mem == old(buf.mem)
      ensures sent <= |attempts| && (forall i :: 0 <= i < sent ==> attempts[i].Sends())
      ensures var b := AddAll(Batcher([], []), PacketsOf(attempts, c)[..sent], maxPackets);
              batch == if stopped then GsoBatching.Flush(b) else b
      ensures (stopped <==> sent < |attempts|) && (stopped ==> !attempts[sent].Sends())
    {
      hide Add, AddAll, FieldsOk, Logged, Concat;
      ghost var ps := PacketsOf(attempts, c);
      sent, stopped := 0, false;
      assert batch == AddAll(Batcher([], []), ps[..0], maxPackets) by { AddNothing(ps, maxPackets); }
      while sent < |attempts|
        invariant 0 <= sent <= |attempts| && Valid() && building == [] && buf.mem == old(buf.mem)
        invariant forall i :: 0 <= i < sent ==> attempts[i].Sends()
        invariant batch == AddAll(Batcher([], []), ps[..sent], maxPackets)
      {
        assert buf.length + udpSendPacketLen <= buf.mem.Length by {
          PacketsFit(attempts, c, udpSendPacketLen, sent);
          AlwaysRoom(ps[..sent], maxPackets, udpSendPacketLen, buf.mem.Length);
          assert Concat(batch.open) + [] == Concat(batch.open);
        }
        var ok := WritePacket(attempts[sent], c);
        if !ok {
          stopped := true;
          return;
        }
        AddAllSnoc(Batcher([], []), ps[..sent], ps[sent], maxPackets);
        assert ps[..sent] + [ps[sent]] == ps[..sent + 1];
        sent := sent + 1;
      }
    }

    /**
     `writeConnectionDataToSocket`: the loop, then the flush that leaves the buffer empty at its start. It
     ends with its last packet or at the first that is not sent, and everything before went out.
     */
    method WriteLoop(attempts: seq<Attempt>, c: Cipher) returns (sent: nat, stopped: bool)
      requires Valid() && building == [] && batch == Batcher([], []) && CipherOk(c) && HeadersOk(attempts)
      requires HoldsBatch() && FitDatagram(attempts, c, udpSendPacketLen)
      modifies this, buf, buf.mem
      ensures Valid() && building == [] && batch.open == []
      ensures sent <= |attempts| && (forall i :: 0 <= i < sent ==> attempts[i].Sends())
      ensures batch.done == Batches(PacketsOf(attempts, c)[..sent], maxPackets)
      ensures Flatten(batch.done) == PacketsOf(attempts, c)[..sent] && Grouping(batch.done, maxPackets)
      ensures (stopped <==> sent < |attempts|) && (stopped ==> !attempts[sent].Sends())
      ensures buf.length == 0 && buf.headroom == 0
    {
      hide AddAll, Concat, Logged, Grouping, Flatten;
      sent, stopped := WriteAll(attempts, c);
      Flush();
      PacketsFit(attempts, c, udpSendPacketLen, sent);
      BatchesExactly(PacketsOf(attempts, c)[..sent], maxPackets, batch.done);
    }
  }

  /** The builder's only limit: the packet with its cipher overhead fits a datagram, sent or not. */
  ghost predicate FitDatagram(attempts: seq<Attempt>, c: Cipher, len: nat) {
    forall i :: 0 <= i < |attempts| ==> |attempts[i].header| + |attempts[i].body| + c.overhead <= len
  }

  lemma AddNothing(ps: seq<Bytes>, max: nat)
    ensures AddAll(Batcher([], []), ps[..0], max) == Batcher([], [])
  {
  }

  lemma PacketsFit(attempts: seq<Attempt>, c: Cipher, len: nat, sent: nat)
    requires CipherOk(c) && FitDatagram(attempts, c, len) && sent <= |attempts|
    requires forall i :: 0 <= i < sent ==> attempts[i].Sends()
    ensures NonEmpty(PacketsOf(attempts, c)[..sent]) && AtMost(PacketsOf(attempts, c)[..sent], len)
  {
    forall i | 0 <= i < sent ensures 0 < |PacketsOf(attempts, c)[i]| <= len { PacketSize(attempts[i], c); }
  }

  ghost predicate HeadersOk(attempts: seq<Attempt>) {
    forall i :: 0 <= i < |attempts| && attempts[i].Sends() ==> attempts[i].header != []
  }

  lemma LogSnoc(writes: seq<(Bytes, nat)>, b: Batcher, data: Bytes, gso: nat)
    requires Logged(writes, b.done) && b.open != [] && data == Concat(b.open) && gso == GsoValue(b.open)
    ensures Logged(writes + [(data, gso)], GsoBatching.Flush(b).done)
    ensures Concat([]) == []
  {
  }

  /** The socket log holds the bytes and the segment size of every finished batch. */
  ghost predicate Logged(writes: seq<(Bytes, nat)>, done: seq<seq<Bytes>>) {
    |writes| == |done| && forall i :: 0 <= i < |done| ==> writes[i] == (Concat(done[i]), GsoValue(done[i]))
  }

  /** Cut every logged write at the segment size it was sent with. */
  function CutLog(writes: seq<(Bytes, nat)>): (r: seq<Bytes>) {
    if writes == [] then []
    else CutLog(writes[..|writes| - 1]) + GroCut(writes[|writes| - 1].0, writes[|writes| - 1].1)
  }

  /** Cutting what the in-place path gave the socket yields exactly the packets of the loop, in order. */
  lemma LogCarriesPackets(writes: seq<(Bytes, nat)>, ps: seq<Bytes>, max: nat)
    requires NonEmpty(ps) && Logged(writes, Batches(ps, max))
    ensures CutLog(writes) == ps
  {
    ReceiverGetsPackets(ps, max);
    CutLogIsCutAll(writes, Batches(ps, max));
  }

  lemma {:induction false} CutLogIsCutAll(writes: seq<(Bytes, nat)>, done: seq<seq<Bytes>>)
    requires Logged(writes, done)
    ensures CutLog(writes) == CutAll(done)
    decreases |done|
  {
    if done != [] { CutLogIsCutAll(writes[..|writes| - 1], done[..|done| - 1]); }
  }
}
