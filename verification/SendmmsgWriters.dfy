/**
 `SendmmsgGSOPacketBatchWriter` and `SendmmsgGSOInplacePacketBatchWriter`
 (quic/api/QuicGsoBatchWriters.cpp). Both compute the grouping function of
 SendmmsgGso, give every message the segment size of its packets, and ask for a
 flush at the same packet.
 */
module SendmmsgWriters {
  import opened Prelude
  import opened GsoBatching
  import opened SendmmsgGso

  /** The buffer-chain writer: it looks at the segment size so far and at the size of the last packet. */
  class ChainedWriter<A(==)> {
    const maxBufs: nat
    var currBufs: nat
    var currSize: nat
    var bufs: seq<seq<Bytes>>
    var gso: seq<nat>
    var prevSize: seq<nat>
    var addrs: seq<A>
    var addrMap: map<A, nat>

    ghost function View(): Groups<A>
      requires |addrs| == |bufs|
      reads this
    {
      Groups(seq(|bufs|, i requires 0 <= i < |bufs| && |addrs| == |bufs| reads this => Msg(addrs[i], bufs[i])), addrMap)
    }

    ghost predicate Valid()
      reads this
    {
      && |gso| == |prevSize| == |addrs| == |bufs|
      && (forall a :: a in addrMap ==> addrMap[a] < |bufs|)
      && (forall i :: 0 <= i < |bufs| ==>
            && bufs[i] != [] && (forall k :: 0 <= k < |bufs[i]| ==> bufs[i][k] != [])
            && gso[i] == GsoValue(bufs[i]) && prevSize[i] == |bufs[i][|bufs[i]| - 1]|)
    }

    constructor (maxBufs: nat)
      ensures Valid() && View() == NoGroups<A>() && currBufs == 0 && currSize == 0 && this.maxBufs == maxBufs
    {
      this.maxBufs := maxBufs;
      currBufs, currSize, bufs, gso, prevSize, addrs, addrMap := 0, 0, [], [], [], [], map[];
    }

    /** Whether the packet can join a message, and which. */
    method Joinable(p: Bytes, a: A) returns (idx: Option<nat>)
      requires Valid() && p != []
      ensures idx.Some? <==> Joins(View(), a, p)
      ensures idx.Some? ==> a in addrMap && idx.value == addrMap[a] && |bufs[idx.value][0]| == prevSize[idx.value]
    {
      if a in addrMap {
        var i := addrMap[a];
        assert View().msgs[i].packets == bufs[i];
        if |p| <= prevSize[i] && (gso[i] == 0 || gso[i] == prevSize[i]) {
          return Some(i);
        }
      }
      return None;
    }

    method Join(i: nat, p: Bytes)
      requires Valid() && p != [] && i < |bufs| && |bufs[i][0]| == prevSize[i]
      modifies this`gso, this`prevSize, this`bufs
      ensures Valid() && View().msgs == old(View()).msgs[i := Msg(addrs[i], old(View()).msgs[i].packets + [p])]
    {
      gso := gso[i := prevSize[i]];
      prevSize := prevSize[i := |p|];
      bufs := bufs[i := bufs[i] + [p]];
    }

    method Append(p: Bytes, a: A) returns (flush: bool)
      requires Valid() && p != []
      modifies this
      ensures Valid() && View() == Place(old(View()), a, p)
      ensures currBufs == old(currBufs) + 1 && currSize == old(currSize) + |p|
      ensures flush == (currBufs == maxBufs)
    {
      ghost var before := View();
      currSize, currBufs, flush := currSize + |p|, currBufs + 1, currBufs + 1 == maxBufs;
      assert View().msgs == before.msgs;
      var idx := Joinable(p, a);
      if idx.Some? {
        Join(idx.value, p);
        assert View().msgs == Place(before, a, p).msgs;
      } else {
        OpenMsg(a, p);
        assert View().msgs == Place(before, a, p).msgs;
      }
    }

    method OpenMsg(a: A, p: Bytes)
      requires Valid() && p != []
      modifies this`addrMap, this`bufs, this`gso, this`prevSize, this`addrs
      ensures Valid() && addrMap == old(addrMap)[a := |old(bufs)|] && View().msgs == old(View()).msgs + [Msg(a, [p])]
    {
      addrMap := addrMap[a := |bufs|];
      bufs, gso, prevSize, addrs := bufs + [[p]], gso + [0], prevSize + [|p|], addrs + [a];
    }
  }

  /** A range of the shared buffer. */
  datatype Iovec = Iovec(base: nat, len: nat)

  ghost predicate InBounds(shared: Bytes, vs: seq<Iovec>) {
    forall k :: 0 <= k < |vs| ==> vs[k].base + vs[k].len <= |shared|
  }

  /** The packets a list of ranges stands for. */
  ghost function Slices(shared: Bytes, vs: seq<Iovec>): (r: seq<Bytes>)
    requires InBounds(shared, vs)
    ensures |r| == |vs| && forall k :: 0 <= k < |vs| ==> r[k] == shared[vs[k].base..vs[k].base + vs[k].len]
  {
    seq(|vs|, k requires 0 <= k < |vs| => shared[vs[k].base..vs[k].base + vs[k].len])
  }

  ghost function Msgs<A>(shared: Bytes, buffers: seq<seq<Iovec>>, addrs: seq<A>): (r: seq<Msg<A>>)
    requires |addrs| == |buffers| && forall i :: 0 <= i < |buffers| ==> InBounds(shared, buffers[i])
    ensures |r| == |buffers| && forall i :: 0 <= i < |buffers| ==> r[i] == Msg(addrs[i], Slices(shared, buffers[i]))
  {
    seq(|buffers|, i requires 0 <= i < |buffers| => Msg(addrs[i], Slices(shared, buffers[i])))
  }

  /** Bytes added behind the ranges change none of them, and a range over the new bytes is the new packet. */
  lemma SlicesGrow(shared: Bytes, vs: seq<Iovec>, p: Bytes)
    requires InBounds(shared, vs)
    ensures var vec := Iovec(|shared|, |p|);
            && InBounds(shared + p, vs) && Slices(shared + p, vs) == Slices(shared, vs)
            && InBounds(shared + p, vs + [vec]) && Slices(shared + p, vs + [vec]) == Slices(shared, vs) + [p]
  {
    var more := shared + p;
    forall k | 0 <= k < |vs| ensures Slices(more, vs)[k] == Slices(shared, vs)[k] {}
    assert more[|shared|..|shared| + |p|] == p;
  }

  /** The in-place writer: it compares the first and the last range of the message. */
  class InplaceWriter<A(==)> {
    const maxBufs: nat
    var currBufs: nat
    var currSize: nat
    var shared: Bytes
    var buffers: seq<seq<Iovec>>
    var indexToGso: seq<nat>
    var indexToAddr: seq<A>
    var addrToMostRecentIndex: map<A, nat>

    ghost predicate Valid()
      reads this
    {
      && |indexToAddr| == |indexToGso| == |buffers|
      && (forall a :: a in addrToMostRecentIndex ==> addrToMostRecentIndex[a] < |buffers|)
      && (forall i :: 0 <= i < |buffers| ==>
            && buffers[i] != [] && InBounds(shared, buffers[i])
            && indexToGso[i] == if |buffers[i]| > 1 then buffers[i][0].len else 0)
    }

    ghost function View(): Groups<A>
      requires Valid()
      reads this
    {
      Groups(Msgs(shared, buffers, indexToAddr), addrToMostRecentIndex)
    }

    constructor (maxBufs: nat)
      ensures Valid() && View() == NoGroups<A>() && currBufs == 0 && currSize == 0 && this.maxBufs == maxBufs
    {
      this.maxBufs := maxBufs;
      currBufs, currSize, shared, buffers := 0, 0, [], [];
      indexToGso, indexToAddr, addrToMostRecentIndex := [], [], map[];
    }

    /** Whether the packet can join a message, and which. */
    method Joinable(p: Bytes, a: A) returns (index: Option<nat>)
      requires Valid()
      ensures index.Some? <==> Joins(View(), a, p)
      ensures index.Some? ==> a in addrToMostRecentIndex && index.value == addrToMostRecentIndex[a]
    {
      if a in addrToMostRecentIndex {
        var i := addrToMostRecentIndex[a];
        var vs := buffers[i];
        assert View().msgs[i].packets == Slices(shared, vs);
        if |p| <= vs[|vs| - 1].len && vs[0].len == vs[|vs| - 1].len {
          return Some(i);
        }
      }
      return None;
    }

    /** The packet is put behind the shared buffer's contents. */
    method Push(p: Bytes) returns (vec: Iovec)
      requires Valid()
      modifies this`shared
      ensures Valid() && View() == old(View())
      ensures InBounds(shared, [vec]) && Slices(shared, [vec]) == [p]
    {
      forall i | 0 <= i < |buffers| { SlicesGrow(shared, buffers[i], p); }
      SlicesGrow(shared, [], p);
      shared := shared + p;
      vec := Iovec(|shared| - |p|, |p|);
      assert [] + [vec] == [vec];
      assert View().msgs == old(View()).msgs;
    }

    method Append(p: Bytes, a: A) returns (flush: bool)
      requires Valid()
      modifies this
      ensures Valid() && View() == Place(old(View()), a, p)
      ensures currBufs == old(currBufs) + 1 && currSize == old(currSize) + |p|
      ensures flush == (currBufs == maxBufs)
    {
      ghost var before := View();
      var vec := Push(p);
      currBufs, currSize, flush := currBufs + 1, currSize + |p|, currBufs + 1 == maxBufs;
      var index := Joinable(p, a);
      if index.Some? {
        Join(index.value, vec, p);
        assert View().msgs == Place(before, a, p).msgs;
      } else {
        OpenMsg(a, vec, p);
        assert View().msgs == Place(before, a, p).msgs;
      }
    }

    method Join(i: nat, vec: Iovec, ghost p: Bytes)
      requires Valid() && i < |buffers| && InBounds(shared, [vec]) && Slices(shared, [vec]) == [p]
      modifies this`indexToGso, this`buffers
      ensures Valid() && addrToMostRecentIndex == old(addrToMostRecentIndex)
      ensures View().msgs == old(View()).msgs[i := Msg(indexToAddr[i], old(View()).msgs[i].packets + [p])]
    {
      ghost var vs := buffers[i];
      indexToGso := indexToGso[i := buffers[i][0].len];
      buffers := buffers[i := buffers[i] + [vec]];
      assert vec == [vec][0];
      assert Slices(shared, vs + [vec]) == Slices(shared, vs) + [p];
    }

    method OpenMsg(a: A, vec: Iovec, ghost p: Bytes)
      requires Valid() && InBounds(shared, [vec]) && Slices(shared, [vec]) == [p]
      modifies this`addrToMostRecentIndex, this`indexToAddr, this`indexToGso, this`buffers
      ensures Valid() && addrToMostRecentIndex == old(addrToMostRecentIndex)[a := |old(buffers)|]
      ensures View().msgs == old(View()).msgs + [Msg(a, [p])]
    {
      addrToMostRecentIndex := addrToMostRecentIndex[a := |buffers|];
      indexToAddr, indexToGso, buffers := indexToAddr + [a], indexToGso + [0], buffers + [[vec]];
    }
  }
}
