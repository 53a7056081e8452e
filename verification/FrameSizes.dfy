/**
 The sizes by which a packet is filled are those of the bytes written: for each kind of frame the room it takes is the
 length of what its writer produces (quic/codec/QuicWriteCodec.cpp, quic/codec/QuicPacketBuilder.cpp).
 */
module FrameSizes {
  import opened Prelude
  import opened Varint
  import FrameReaders
  import FrameWriters
  import PacketSpace
  import StreamFrames
  import StreamScheduler

  /** A frame of known size is put into a packet exactly when its writer writes it, and takes the bytes written. */
  lemma FixedTakesBytes(f: FrameReaders.QuicFrame, space: nat)
    requires FrameWriters.Simple(f) && FrameWriters.Typed(f) && !f.Crypto? && FrameWriters.AllFit(FrameWriters.IntsOf(f))
    ensures PacketSpace.Taken(PacketSpace.Fixed(|FrameWriters.Layout(f)|), space) ==
            match FrameWriters.WriteFrame(f, space)
            case Written(bytes) => |bytes|
            case _ => 0
  {
    FrameWriters.WrittenExactly(f, space);
    hide FrameWriters.WriteFrame, FrameWriters.Layout;
  }

  /** Crypto data takes the bytes of the longest part that fits. */
  lemma CryptoTakesBytes(offset: nat, data: seq<byte>, space: nat)
    requires offset <= EIGHT_BYTE_LIMIT && |data| <= EIGHT_BYTE_LIMIT && space <= TWO_BYTE_LIMIT
    ensures var w := FrameWriters.WriteCrypto(offset, data, space);
            && w.Ok?
            && PacketSpace.Taken(PacketSpace.OfCrypto(offset, |data|), space) ==
               match w.value
               case Written(bytes) => |bytes|
               case _ => 0
  {
    FrameWriters.CryptoWritten(offset, data, space);
    if space > 3 + Size(offset).value { CryptoLength(offset, data[..Min(|data|, space - 3 - Size(offset).value)]); }
    hide FrameWriters.Layout;
  }

  lemma CryptoLength(offset: nat, data: seq<byte>)
    requires offset <= EIGHT_BYTE_LIMIT && |data| <= EIGHT_BYTE_LIMIT
    ensures FrameWriters.AllFit(FrameWriters.IntsOf(FrameReaders.Crypto(offset, data)))
    ensures |FrameWriters.Layout(FrameReaders.Crypto(offset, data))| == 1 + Size(offset).value + Size(|data|).value + |data|
  {
    var f := FrameReaders.Crypto(offset, data);
    assert FrameWriters.IntsOf(f) == [offset, |data|];
    assert [offset, |data|][1..] == [|data|] && [|data|][1..] == [];
    FrameWriters.SizesAreLengths([offset, |data|]);
    assert FrameWriters.Sizes([|data|]) == Size(|data|).value;
    assert FrameWriters.Sizes([offset, |data|]) == Size(offset).value + FrameWriters.Sizes([|data|]);
  }

  /** Stream data takes the frame the scheduler counts on. */
  lemma StreamTakesFrame(q: StreamFrames.Request, space: nat)
    requires space < 0x1_0000_0000 && StreamFrames.Encodes(q) && q.offset <= EIGHT_BYTE_LIMIT
    requires q.bufferLen <= EIGHT_BYTE_LIMIT - 8 && (StreamScheduler.Wanted(q) > 0 || (q.bufferLen == 0 && q.fin))
    ensures PacketSpace.Taken(PacketSpace.OfStream(q, None), space) ==
            match StreamScheduler.Fit(q, space, true)
            case Some(f) => f.size
            case None => 0
  {
    StreamScheduler.FitsExactly(q, space, true);
    hide StreamScheduler.Fit, StreamFrames.WriteHeader;
  }
}
