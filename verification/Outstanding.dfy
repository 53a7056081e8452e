/**
 The list of outstanding packets of all packet number spaces, and the algorithms
 that walk it for an acknowledgement: the insertion of `updateConnection`
 (quic/api/QuicTransportFunctions.cpp) and `AckedPacketIterator`
 (quic/state/AckedPacketIterator.cpp).
 */
module Outstanding {
  import opened Prelude

  datatype Space = Initial | Handshake | AppData

  /** An outstanding packet, as far as the list is concerned. */
  datatype Op = Op(space: Space, num: nat, cloned: bool, dsr: bool)

  /** An acknowledged range of packet numbers, both ends included. */
  datatype Block = Block(start: nat, end: nat) {
    predicate Has(n: int) { start <= n <= end }
  }

  // ------------------------------------------------------------------ order

  /** Non-decreasing by number over all spaces, strictly increasing within each. */
  ghost predicate InOrder(ops: seq<Op>) {
    forall i, j :: 0 <= i < j < |ops| ==>
      ops[i].num <= ops[j].num && (ops[i].space == ops[j].space ==> ops[i].num < ops[j].num)
  }

  /** The place `updateConnection` finds from the back: behind the last packet with a smaller number. */
  function InsertAt(ops: seq<Op>, num: nat): (k: nat)
    ensures k <= |ops|
    ensures forall i :: k <= i < |ops| ==> ops[i].num >= num
    ensures k > 0 ==> ops[k - 1].num < num
  {
    if ops == [] || ops[|ops| - 1].num < num then |ops| else InsertAt(ops[..|ops| - 1], num)
  }

  function Insert(ops: seq<Op>, op: Op): (r: seq<Op>) {
    var k := InsertAt(ops, op.num);
    ops[..k] + [op] + ops[k..]
  }

  lemma PutInOrder(ops: seq<Op>, op: Op, k: nat, r: seq<Op>)
    requires InOrder(ops) && PutIn(ops, op, k, r)
    requires forall i :: 0 <= i < k ==> ops[i].num < op.num
    requires forall i :: k <= i < |ops| ==> ops[i].num >= op.num && ops[i].space != op.space
    ensures InOrder(r)
  {
    forall i, j | 0 <= i < j < |r|
      ensures r[i].num <= r[j].num && (r[i].space == r[j].space ==> r[i].num < r[j].num)
    {
      if i != k && j != k {
        var i', j' := if i < k then i else i - 1, if j < k then j else j - 1;
        assert r[i] == ops[i'] && r[j] == ops[j'] && i' < j';
      }
    }
  }

  lemma InsertShape(ops: seq<Op>, op: Op)
    ensures PutIn(ops, op, InsertAt(ops, op.num), Insert(ops, op))
  {
    hide InsertAt;
  }

  lemma AllBelow(ops: seq<Op>, num: nat, k: nat)
    requires InOrder(ops) && 0 < k <= |ops| && ops[k - 1].num < num
    ensures forall i :: 0 <= i < k ==> ops[i].num < num
  {
    forall i | 0 <= i < k ensures ops[i].num < num { assert i == k - 1 || ops[i].num <= ops[k - 1].num; }
  }

  /** Inserting a packet whose number is new and largest in its space keeps the order. */
  lemma InsertInOrder(ops: seq<Op>, op: Op)
    requires InOrder(ops) && forall i :: 0 <= i < |ops| && ops[i].space == op.space ==> ops[i].num < op.num
    ensures InOrder(Insert(ops, op)) && PutIn(ops, op, InsertAt(ops, op.num), Insert(ops, op))
  {
    hide InOrder, InsertAt, Insert, PutIn;
    InsertShape(ops, op);
    var k := InsertAt(ops, op.num);
    if k > 0 { AllBelow(ops, op.num, k); }
    PutInOrder(ops, op, k, Insert(ops, op));
  }

  // ------------------------------------------------------------------ walking the list for an acknowledgement

  /** Blocks as an ACK frame lists them: downwards, apart. */
  ghost predicate Descending(blocks: seq<Block>) {
    && (forall k :: 0 <= k < |blocks| ==> blocks[k].start <= blocks[k].end)
    && (forall k, m :: 0 <= k < m < |blocks| ==> blocks[m].end < blocks[k].start)
  }

  ghost predicate Acked(op: Op, space: Space, blocks: seq<Block>) {
    op.space == space && exists k :: 0 <= k < |blocks| && blocks[k].Has(op.num)
  }

  /** The indices below `n` of acknowledged packets, largest first. */
  ghost function AckedBelow(ops: seq<Op>, space: Space, blocks: seq<Block>, n: nat): (r: seq<nat>)
    requires n <= |ops|
  {
    if n == 0 then []
    else (if Acked(ops[n - 1], space, blocks) then [n - 1] else []) + AckedBelow(ops, space, blocks, n - 1)
  }

  /** No packet of the space below `n` is in one of the first `b` blocks. */
  ghost predicate DoneWith(ops: seq<Op>, space: Space, blocks: seq<Block>, n: nat, b: nat) {
    n <= |ops| && b <= |blocks| &&
    forall i, k :: 0 <= i < n && 0 <= k < b && ops[i].space == space ==> !blocks[k].Has(ops[i].num)
  }

  /** A packet above the current block, or of another space, is not acknowledged. */
  lemma SkippedNotAcked(ops: seq<Op>, space: Space, blocks: seq<Block>, n: nat, b: nat)
    requires Descending(blocks) && 0 < n && b < |blocks| && DoneWith(ops, space, blocks, n, b)
    requires ops[n - 1].space != space || ops[n - 1].num > blocks[b].end
    ensures !Acked(ops[n - 1], space, blocks)
  {
    assert forall k :: b < k < |blocks| ==> blocks[k].end < blocks[b].start;
  }

  /** The indices of `lo..hi` hold no acknowledged packet. */
  ghost predicate NoneAcked(ops: seq<Op>, space: Space, blocks: seq<Block>, lo: nat, hi: nat) {
    lo <= hi <= |ops| && forall i :: lo <= i < hi ==> !Acked(ops[i], space, blocks)
  }

  /** `moveToNextValidInAckBlock`: the reverse iterator looks for the block's packets of the space. */
  method MoveToNextValidInAckBlock(ops: seq<Op>, space: Space, blocks: seq<Block>, from: nat, b: nat) returns (n: nat)
    requires InOrder(ops) && Descending(blocks) && b < |blocks| && DoneWith(ops, space, blocks, from, b)
    ensures n <= from && NoneAcked(ops, space, blocks, n, from)
    ensures n > 0 ==> ops[n - 1].space == space && ops[n - 1].num <= blocks[b].end
  {
    hide Acked;
    n := from;
    while n > 0 && ops[n - 1].num > blocks[b].end
      invariant n <= from && NoneAcked(ops, space, blocks, n, from)
    {
      SkippedNotAcked(ops, space, blocks, n, b);
      n := n - 1;
    }
    while n > 0 && ops[n - 1].space != space
      invariant n <= from && NoneAcked(ops, space, blocks, n, from)
      invariant n > 0 ==> ops[n - 1].num <= blocks[b].end
    {
      SkippedNotAcked(ops, space, blocks, n, b);
      n := n - 1;
    }
  }

  lemma {:induction false} AckedBelowSame(ops: seq<Op>, space: Space, blocks: seq<Block>, lo: nat, hi: nat)
    requires NoneAcked(ops, space, blocks, lo, hi)
    ensures AckedBelow(ops, space, blocks, lo) == AckedBelow(ops, space, blocks, hi)
    decreases hi
  {
    if lo < hi { AckedBelowSame(ops, space, blocks, lo, hi - 1); }
  }

  /** With the next packet below the block, the block is finished. */
  lemma BlockFinished(ops: seq<Op>, space: Space, blocks: seq<Block>, n: nat, b: nat)
    requires InOrder(ops) && b < |blocks| && DoneWith(ops, space, blocks, n, b)
    requires n > 0 ==> ops[n - 1].num < blocks[b].start
    ensures DoneWith(ops, space, blocks, n, b + 1)
  {
    forall i | 0 <= i < n ensures ops[i].num < blocks[b].start { assert i == n - 1 || ops[i].num <= ops[n - 1].num; }
  }

  /** `AckedPacketIterator` run to its end: it stops at every acknowledged packet of the space, largest number first. */
  method VisitAcked(ops: seq<Op>, space: Space, blocks: seq<Block>) returns (visited: seq<nat>)
    requires InOrder(ops) && Descending(blocks)
    ensures visited == AckedBelow(ops, space, blocks, |ops|)
  {
    hide InOrder, Descending;
    var n: nat, b: nat := |ops|, 0;
    visited := [];
    while b < |blocks|
      invariant b <= |blocks| && DoneWith(ops, space, blocks, n, b)
      invariant visited + AckedBelow(ops, space, blocks, n) == AckedBelow(ops, space, blocks, |ops|)
      decreases n + |blocks| - b
    {
      var m := MoveToNextValidInAckBlock(ops, space, blocks, n, b);
      AckedBelowSame(ops, space, blocks, m, n);
      n := m;
      if n > 0 && ops[n - 1].num >= blocks[b].start {
        assert blocks[b].Has(ops[n - 1].num);
        visited := visited + [n - 1];
        n := n - 1;
      } else {
        BlockFinished(ops, space, blocks, n, b);
        b := b + 1;
      }
    }
    NothingLeft(ops, space, blocks, n);
  }

  lemma {:induction false} NothingLeft(ops: seq<Op>, space: Space, blocks: seq<Block>, n: nat)
    requires DoneWith(ops, space, blocks, n, |blocks|)
    ensures AckedBelow(ops, space, blocks, n) == []
    decreases n
  {
    if n > 0 { NothingLeft(ops, space, blocks, n - 1); }
  }

  // ------------------------------------------------------------------ erasing what was acknowledged

  /** The list without its acknowledged packets. */
  ghost function Unacked(ops: seq<Op>, space: Space, blocks: seq<Block>): (r: seq<Op>)
    ensures |r| <= |ops|
  {
    if ops == [] then []
    else
      var n := |ops| - 1;
      Unacked(ops[..n], space, blocks) + if Acked(ops[n], space, blocks) then [] else [ops[n]]
  }

  /** What stays in the list, in terms of its parts. */
  lemma {:induction false} UnackedAppend(a: seq<Op>, b: seq<Op>, space: Space, blocks: seq<Block>)
    ensures Unacked(a + b, space, blocks) == Unacked(a, space, blocks) + Unacked(b, space, blocks)
    decreases |b|
  {
    if b == [] {
      assert a + b == a;
    } else {
      var n := |b| - 1;
      UnackedAppend(a, b[..n], space, blocks);
      assert (a + b)[..|a + b| - 1] == a + b[..n];
    }
  }

  lemma {:induction false} UnackedAll(ops: seq<Op>, space: Space, blocks: seq<Block>)
    requires forall i :: 0 <= i < |ops| ==> Acked(ops[i], space, blocks)
    ensures Unacked(ops, space, blocks) == []
    decreases |ops|
  {
    if ops != [] { UnackedAll(ops[..|ops| - 1], space, blocks); }
  }

  lemma {:induction false} UnackedNone(ops: seq<Op>, space: Space, blocks: seq<Block>)
    requires forall i :: 0 <= i < |ops| ==> !Acked(ops[i], space, blocks)
    ensures Unacked(ops, space, blocks) == ops
    decreases |ops|
  {
    if ops != [] {
      UnackedNone(ops[..|ops| - 1], space, blocks);
      assert ops == ops[..|ops| - 1] + [ops[|ops| - 1]];
    }
  }

  /** Stepping over packets that are not acknowledged keeps them. */
  lemma KeepPart(ops: seq<Op>, space: Space, blocks: seq<Block>, lo: nat, hi: nat)
    requires NoneAcked(ops, space, blocks, lo, hi)
    ensures Unacked(ops[..hi], space, blocks) + ops[hi..] == Unacked(ops[..lo], space, blocks) + ops[lo..]
  {
    hide Acked;
    assert ops[..hi] == ops[..lo] + ops[lo..hi] && ops[lo..] == ops[lo..hi] + ops[hi..];
    UnackedAppend(ops[..lo], ops[lo..hi], space, blocks);
    UnackedNone(ops[lo..hi], space, blocks);
  }

  /** Erasing packets that are acknowledged loses nothing else. */
  lemma DropPart(ops: seq<Op>, space: Space, blocks: seq<Block>, lo: nat, hi: nat)
    requires lo <= hi <= |ops| && forall i :: lo <= i < hi ==> Acked(ops[i], space, blocks)
    ensures Unacked(ops[..hi], space, blocks) == Unacked(ops[..lo], space, blocks)
  {
    hide Acked;
    assert ops[..hi] == ops[..lo] + ops[lo..hi];
    UnackedAppend(ops[..lo], ops[lo..hi], space, blocks);
    UnackedAll(ops[lo..hi], space, blocks);
  }

  lemma CutInOrder(ops: seq<Op>, lo: nat, hi: nat)
    requires lo <= hi <= |ops| && InOrder(ops)
    ensures InOrder(ops[..lo] + ops[hi..])
  {
    var r := ops[..lo] + ops[hi..];
    assert forall i :: 0 <= i < |r| ==> r[i] == ops[if i < lo then i else i + (hi - lo)];
  }

  /** Every acknowledged packet of the list is marked `scheduledForDestruction`. */
  ghost predicate AllMarked(ops: seq<Op>, space: Space, blocks: seq<Block>, marked: set<Op>) {
    forall i :: 0 <= i < |ops| && Acked(ops[i], space, blocks) ==> ops[i] in marked
  }

  lemma LastAcked(ops: seq<Op>, space: Space, blocks: seq<Block>, n: nat)
    requires 0 < n <= |ops| && Acked(ops[n - 1], space, blocks)
    ensures Unacked(ops[..n], space, blocks) == Unacked(ops[..n - 1], space, blocks)
  {
    hide Acked;
    assert ops[..n][..n - 1] == ops[..n - 1] && ops[..n][n - 1] == ops[n - 1];
  }

  /**
   The inner loop of `eraseAckedOutstandings`: the run of acknowledged packets below `hi`. Its two checks
   are the assertions; `count` is the number of packets scheduled for destruction.
   */
  method FindRun(ops: seq<Op>, space: Space, blocks: seq<Block>, hi: nat, b: nat, marked: set<Op>, count: nat) returns (lo: nat, left: nat)
    requires InOrder(ops) && 0 < hi <= |ops| && b < |blocks|
    requires ops[hi - 1].space == space && blocks[b].Has(ops[hi - 1].num)
    requires AllMarked(ops, space, blocks, marked) && count + |Unacked(ops[..hi], space, blocks)| >= hi
    ensures lo < hi && forall i :: lo <= i < hi ==> Acked(ops[i], space, blocks)
    ensures left == count - (hi - lo) && left + |Unacked(ops[..lo], space, blocks)| >= lo
  {
    hide Unacked;
    lo, left := hi, count;
    while lo > 0 && ops[lo - 1].num >= blocks[b].start && ops[lo - 1].space == space
      invariant lo <= hi && left == count - (hi - lo) && left + |Unacked(ops[..lo], space, blocks)| >= lo
      invariant forall i :: lo <= i < hi ==> Acked(ops[i], space, blocks)
    {
      assert lo == hi || ops[lo - 1].num <= ops[hi - 1].num;
      assert blocks[b].Has(ops[lo - 1].num);
      LastAcked(ops, space, blocks, lo);
      assert ops[lo - 1] in marked;
      assert left > 0;
      lo, left := lo - 1, left - 1;
    }
  }

  /** `eraseAckedOutstandings`: exactly the acknowledged packets of the space leave the list, and its checks pass. */
  method EraseAcked(packets: seq<Op>, space: Space, blocks: seq<Block>, marked: set<Op>, count: nat) returns (ops: seq<Op>, left: nat)
    requires InOrder(packets) && Descending(blocks)
    requires AllMarked(packets, space, blocks, marked) && count + |Unacked(packets, space, blocks)| >= |packets|
    ensures ops == Unacked(packets, space, blocks) && InOrder(ops) && left == count - (|packets| - |ops|)
  {
    hide InOrder, Descending, Acked, Unacked, AllMarked;
    ops, left := packets, count;
    var n: nat, b: nat := |ops|, 0;
    assert ops[..n] == ops;
    while b < |blocks|
      invariant b <= |blocks| && DoneWith(ops, space, blocks, n, b) && InOrder(ops)
      invariant Unacked(ops[..n], space, blocks) + ops[n..] == Unacked(packets, space, blocks)
      invariant AllMarked(ops, space, blocks, marked) && left == count - (|packets| - |ops|)
      invariant left + |Unacked(ops[..n], space, blocks)| >= n
      decreases n + |blocks| - b
    {
      var m := MoveToNextValidInAckBlock(ops, space, blocks, n, b);
      KeepPart(ops, space, blocks, m, n);
      n := m;
      if n > 0 && ops[n - 1].num >= blocks[b].start {
        var lo, fewer := FindRun(ops, space, blocks, n, b, marked, left);
        DropPart(ops, space, blocks, lo, n);
        CutInOrder(ops, lo, n);
        CutMarked(ops, space, blocks, marked, lo, n);
        var cut := ops[..lo] + ops[n..];
        assert cut[..lo] == ops[..lo] && cut[lo..] == ops[n..];
        ops, n, left := cut, lo, fewer;
      } else {
        BlockFinished(ops, space, blocks, n, b);
        b := b + 1;
      }
    }
    RestStays(ops, space, blocks, n);
  }

  lemma CutMarked(ops: seq<Op>, space: Space, blocks: seq<Block>, marked: set<Op>, lo: nat, hi: nat)
    requires lo <= hi <= |ops| && AllMarked(ops, space, blocks, marked)
    ensures AllMarked(ops[..lo] + ops[hi..], space, blocks, marked)
  {
    hide Acked;
    var r := ops[..lo] + ops[hi..];
    assert forall i :: 0 <= i < |r| ==> r[i] == ops[if i < lo then i else i + (hi - lo)];
  }

  lemma RestStays(ops: seq<Op>, space: Space, blocks: seq<Block>, n: nat)
    requires DoneWith(ops, space, blocks, n, |blocks|)
    ensures Unacked(ops[..n], space, blocks) + ops[n..] == ops
  {
    UnackedNone(ops[..n], space, blocks);
  }

  lemma {:induction false} VisitedAreAcked(ops: seq<Op>, space: Space, blocks: seq<Block>, n: nat)
    requires n <= |ops|
    ensures forall i: nat :: i in AckedBelow(ops, space, blocks, n) <==> i < n && Acked(ops[i], space, blocks)
    ensures |AckedBelow(ops, space, blocks, n)| + |Unacked(ops[..n], space, blocks)| == n
  {
    hide Acked;
    if n > 0 {
      VisitedAreAcked(ops, space, blocks, n - 1);
      assert ops[..n][..n - 1] == ops[..n - 1] && ops[..n][n - 1] == ops[n - 1];
    }
  }

  /**
   The two walks of `processAckFrame`: the first marks what it visits and counts it, the second erases what
   is acknowledged. Neither check of the second fails, and no packet stays marked or counted.
   */
  method MarkAndErase(packets: seq<Op>, space: Space, blocks: seq<Block>) returns (ops: seq<Op>, count: nat)
    requires InOrder(packets) && Descending(blocks)
    ensures ops == Unacked(packets, space, blocks) && InOrder(ops) && count == 0
  {
    hide InOrder, Descending, Acked, Unacked, AckedBelow;
    var visited := VisitAcked(packets, space, blocks);
    VisitedAreAcked(packets, space, blocks, |packets|);
    assert packets[..|packets|] == packets;
    var marked: set<Op> := {};
    count := 0;
    for k := 0 to |visited|
      invariant count == k
      invariant forall j :: 0 <= j < k ==> visited[j] < |packets| && packets[visited[j]] in marked
    {
      assert visited[k] in visited;
      marked, count := marked + {packets[visited[k]]}, count + 1;
    }
    assert AllMarked(packets, space, blocks, marked);
    ops, count := EraseAcked(packets, space, blocks, marked, count);
  }
}
