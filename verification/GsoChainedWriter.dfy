/**
 `GSOPacketBatchWriter` (quic/api/QuicGsoBatchWriters.cpp), which keeps its packets
 as a chain of buffers, driven by `IOBufQuicBatch` (quic/api/IoBufQuicBatch.cpp).
 It forms the same batches as the in-place writer.
 */
module GsoChainedWriter {
  import opened GsoBatching
  import opened GsoExact

  class ChainedBatch {
    const maxBufs: nat

    var chain: seq<Bytes>
    var currBufs: nat
    var prevSize: nat

    // every socket write: the chain and its segment size
    var writes: seq<(seq<Bytes>, nat)>

    function View(): (b: Batcher)
      reads this
    {
      Batcher(chain, seq(|writes|, i requires 0 <= i < |writes| reads this => writes[i].0))
    }

    ghost predicate Valid()
      reads this
    {
      && currBufs == |chain|
      && (forall i :: 0 <= i < |chain| ==> chain[i] != [])
      && prevSize == (if chain == [] then 0 else |chain[0]|)
      && (forall i :: 0 <= i < |writes| ==> writes[i].1 == GsoValue(writes[i].0))
    }

    constructor (maxBufs: nat)
      ensures Valid() && View() == Batcher([], []) && this.maxBufs == maxBufs
    {
      this.maxBufs := maxBufs;
      chain, currBufs, prevSize, writes := [], 0, 0, [];
    }

    predicate NeedsFlush(size: nat)
      reads this
    {
      prevSize != 0 && size > prevSize
    }

    method Append(p: Bytes) returns (flush: bool)
      requires Valid() && p != [] && !NeedsFlush(|p|)
      modifies this`chain, this`currBufs, this`prevSize
      ensures Valid() && View() == Batcher(old(chain) + [p], old(View()).done)
      ensures flush == FlushAfter(old(chain), |p|, maxBufs)
    {
      if chain == [] {
        chain, prevSize, currBufs := [p], |p|, 1;
        assert [p] == [] + [p];
        return false;
      }
      chain, currBufs := chain + [p], currBufs + 1;
      if |p| != prevSize {
        // CHECK_LT(size, prevSize_)
        assert |p| < prevSize;
        return true;
      }
      return currBufs == maxBufs;
    }

    method Flush()
      requires Valid()
      modifies this
      ensures Valid() && View() == GsoBatching.Flush(old(View()))
    {
      if chain != [] {
        var gso := if currBufs > 1 then prevSize else 0;
        writes := writes + [(chain, gso)];
      }
      chain, currBufs, prevSize := [], 0, 0;
    }

    method WritePacket(p: Bytes)
      requires Valid() && p != []
      modifies this
      ensures Valid() && View() == Add(old(View()), p, maxBufs)
    {
      if NeedsFlush(|p|) {
        Flush();
      }
      var flush := Append(p);
      if flush {
        Flush();
      }
    }

    /**
     The write loop over a chained writer: every packet is written and the rest flushed. The socket writes are the one
     grouping of the packets, each with its segment size, and the receiver cuts them into the packets again.
     */
    method WriteAll(ps: seq<Bytes>)
      requires Valid() && View() == Batcher([], []) && NonEmpty(ps)
      modifies this
      ensures Valid() && View() == Batcher([], Batches(ps, maxBufs))
      ensures Flatten(View().done) == ps && Grouping(View().done, maxBufs)
      ensures CutAll(View().done) == ps
    {
      hide Add, FlushAfter, Flatten, Grouping;
      var i := 0;
      while i < |ps|
        invariant 0 <= i <= |ps| && Valid() && View() == AddAll(Batcher([], []), ps[..i], maxBufs)
      {
        AddAllSnoc(Batcher([], []), ps[..i], ps[i], maxBufs);
        assert ps[..i] + [ps[i]] == ps[..i + 1];
        WritePacket(ps[i]);
        i := i + 1;
      }
      assert ps[..i] == ps;
      Flush();
      BatchesExactly(ps, maxBufs, Batches(ps, maxBufs));
      ReceiverGetsPackets(ps, maxBufs);
    }
  }
}
