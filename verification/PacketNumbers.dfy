/**
 How packet numbers are given out, skipped and acknowledged in each packet number space:
 `updateConnection`, the probe writer and `implicitAckCryptoStream`
 (quic/api/QuicTransportFunctions.cpp) and the checks at the head of `processAckFrame`
 (quic/state/AckHandlers.cpp).
 */
module PacketNumbers {
  import opened Prelude
  import opened Outstanding

  const DISTANCE_TO_CLEAR_SKIPPED: nat := 1000

  /** The sending side of an ack state: the next number, and a number left out on purpose. */
  datatype Numbers = Numbers(next: nat, skipped: Option<nat>)

  /** What `outstandings` counts for one space. */
  datatype Counts = Counts(packets: nat, clones: nat)

  datatype AckFrame = AckFrame(largestAcked: nat, blocks: seq<Block>)

  datatype AckResult = Accepted | FuturePacketAcked | SkippedPacketAcked

  /** Numbers used so far only grow, stay below the next one and leave the skipped one out. */
  ghost predicate NumbersInv(n: Numbers, sent: seq<nat>) {
    && (forall i, j :: 0 <= i < j < |sent| ==> sent[i] < sent[j])
    && (forall i :: 0 <= i < |sent| ==> sent[i] < n.next)
    && (n.skipped.Some? ==> n.skipped.value < n.next && n.skipped.value !in sent)
  }

  ghost predicate AllNumbersInv(numbers: map<Space, Numbers>, sent: map<Space, seq<nat>>) {
    forall s: Space :: s in numbers && s in sent && NumbersInv(numbers[s], sent[s])
  }

  ghost predicate WereSent(ops: seq<Op>, sent: map<Space, seq<nat>>) {
    && (forall s: Space :: s in sent)
    && forall i :: 0 <= i < |ops| ==> ops[i].num in sent[ops[i].space]
  }

  ghost predicate Covers(blocks: seq<Block>, n: nat) { exists k :: 0 <= k < |blocks| && blocks[k].Has(n) }

  /** The guard that forgets a skipped number once acknowledgements are far past it. */
  predicate FarPast(blocks: seq<Block>, skipped: nat) {
    blocks != [] && blocks[|blocks| - 1].start > skipped + DISTANCE_TO_CLEAR_SKIPPED
  }

  /** The blocks of an implicit acknowledgement for the numbers `lo..hi`. */
  function ImplicitBlocks(lo: nat, hi: nat, skipped: Option<nat>): (blocks: seq<Block>)
    requires lo <= hi && skipped != Some(lo) && skipped != Some(hi)
    ensures blocks != [] && blocks[0].end == hi && Descending(blocks)
    ensures forall n: nat :: Covers(blocks, n) <==> lo <= n <= hi && Some(n) != skipped
  {
    if skipped.Some? && skipped.value > lo && skipped.value < hi then
      var b := [Block(skipped.value + 1, hi), Block(lo, skipped.value - 1)];
      assert forall n: nat | lo <= n <= hi && Some(n) != skipped :: b[0].Has(n) || b[1].Has(n);
      b
    else
      var b := [Block(lo, hi)];
      assert forall n: nat | lo <= n <= hi :: b[0].Has(n);
      b
  }

  class SentPackets {
    var packets: seq<Op>
    var numbers: map<Space, Numbers>
    var counts: map<Space, Counts>
    var dsrCount: nat
    var totalAckEliciting: nat
    /** Every packet number ever sent, in order, by space. */
    ghost var sent: map<Space, seq<nat>>

    ghost predicate Valid()
      reads this
    {
      && (forall s: Space :: s in counts) && AllNumbersInv(numbers, sent)
      && InOrder(packets) && WereSent(packets, sent)
    }

    constructor ()
      ensures Valid() && packets == [] && totalAckEliciting == 0 && forall s: Space :: sent[s] == []
    {
      packets, dsrCount, totalAckEliciting := [], 0, 0;
      var n, c := Numbers(0, None), Counts(0, 0);
      numbers := map[Initial := n, Handshake := n, AppData := n];
      counts := map[Initial := c, Handshake := c, AppData := c];
      sent := map[Initial := [], Handshake := [], AppData := []];
      new;
      forall s: Space ensures s in numbers && s in counts && s in sent && sent[s] == [] {
        match s
        case Initial =>
        case Handshake =>
        case AppData =>
      }
    }

    /** The number part of `updateConnection`: take the next number, and now and then leave one out. */
    method TakeNumber(space: Space, oneIn: bool) returns (num: nat)
      requires Valid()
      modifies this`numbers, this`sent
      ensures Valid()
      ensures num == old(numbers[space].next) && sent == old(sent)[space := old(sent[space]) + [num]]
      ensures numbers == old(numbers)[space := numbers[space]]
      ensures numbers[space].skipped ==
              if oneIn && old(numbers[space].skipped).None? then Some(num + 1) else old(numbers[space].skipped)
      ensures numbers[space].next == num + if oneIn && old(numbers[space].skipped).None? then 2 else 1
      ensures Some(num) != numbers[space].skipped
    {
      hide NumbersInv, AllNumbersInv, WereSent, InOrder;
      KeysOf(numbers, sent);
      num := numbers[space].next;
      var n := numbers[space].(next := num + 1);
      if n.skipped.None? && oneIn {
        n := Numbers(num + 2, Some(num + 1));
      }
      NextInv(numbers[space], sent[space], oneIn);
      SpaceChanged(numbers, sent, space, n, sent[space] + [num]);
      MoreSent(packets, sent, space, num);
      sent := sent[space := sent[space] + [num]];
      numbers := numbers[space := n];
    }

    /** `updateConnection`, as far as numbers, the list and its counters go. */
    method UpdateConnection(space: Space, ackEliciting: bool, cloned: bool, dsr: bool, oneIn: bool) returns (num: nat)
      requires Valid() && (cloned ==> ackEliciting)
      modifies this
      ensures Valid()
      ensures num == old(numbers[space].next) && sent == old(sent)[space := old(sent[space]) + [num]]
      ensures var skips := oneIn && old(numbers[space].skipped).None?;
              numbers == old(numbers)[space := Numbers(num + if skips then 2 else 1,
                                                       if skips then Some(num + 1) else old(numbers[space].skipped))]
      ensures |packets| - old(|packets|) == totalAckEliciting - old(totalAckEliciting) == if ackEliciting then 1 else 0
      ensures ackEliciting ==> packets == Insert(old(packets), Op(space, num, cloned, dsr))
      ensures !ackEliciting ==> packets == old(packets) && counts == old(counts) && dsrCount == old(dsrCount)
      ensures ackEliciting ==> dsrCount == old(dsrCount) + if dsr then 1 else 0
      ensures ackEliciting ==>
                var c := old(counts[space]);
                counts == old(counts)[space := if cloned then Counts(c.packets, c.clones + 1) else Counts(c.packets + 1, c.clones)]
    {
      hide Insert, NumbersInv, AllNumbersInv, WereSent, InOrder, PutIn;
      KeysOf(numbers, sent);
      num := TakeNumber(space, oneIn);
      if !ackEliciting {
        return;
      }
      totalAckEliciting := totalAckEliciting + 1;
      var op := Op(space, num, cloned, dsr);
      OthersBelow(packets, old(numbers), old(sent), space);
      InsertInOrder(packets, op);
      InsertLength(packets, op);
      PutInSent(packets, op, InsertAt(packets, num), Insert(packets, op), sent);
      packets := Insert(packets, op);
      if dsr {
        dsrCount := dsrCount + 1;
      }
      var c := counts[space];
      counts := counts[space := if cloned then c.(clones := c.clones + 1) else c.(packets := c.packets + 1)];
    }

    /** A probe leaves a number out, to draw an acknowledgement. */
    method SkipForProbe(space: Space)
      requires Valid()
      modifies this`numbers
      ensures Valid() && numbers == old(numbers)[space := old(numbers[space]).(next := old(numbers[space].next) + 1)]
    {
      hide WereSent, InOrder;
      numbers := numbers[space := numbers[space].(next := numbers[space].next + 1)];
    }

    /** `processAckFrame`: its two refusals, the forgetting of the skipped number, and the final erasure. */
    method ProcessAckFrame(space: Space, frame: AckFrame) returns (r: AckResult)
      requires Valid() && Descending(frame.blocks)
      modifies this`packets, this`numbers
      ensures Valid()
      ensures r == FuturePacketAcked <==> frame.largestAcked >= old(numbers[space].next)
      ensures r == SkippedPacketAcked <==>
              && frame.largestAcked < old(numbers[space].next)
              && old(numbers[space].skipped).Some? && Covers(frame.blocks, old(numbers[space].skipped).value)
      ensures r != Accepted ==> packets == old(packets) && numbers == old(numbers)
      ensures r == Accepted ==> packets == Unacked(old(packets), space, frame.blocks)
      ensures r == Accepted ==>
                var skipped := old(numbers[space].skipped);
                numbers == old(numbers)[space := Numbers(old(numbers[space].next),
                  if skipped.Some? && FarPast(frame.blocks, skipped.value) then None else skipped)]
      ensures r == Accepted && old(numbers[space].skipped).Some? ==>
                var skipped := old(numbers[space].skipped).value;
                (numbers[space].skipped.None? <==>
                 frame.blocks != [] && forall k :: 0 <= k < |frame.blocks| ==> frame.blocks[k].start > skipped + 1000)
    {
      hide NumbersInv, AllNumbersInv, WereSent, InOrder, Unacked, Descending, Covers;
      KeysOf(numbers, sent);
      var n := numbers[space];
      if frame.largestAcked >= n.next {
        return FuturePacketAcked;
      }
      if n.skipped.Some? {
        var found := FindBlock(frame.blocks, n.skipped.value);
        if found {
          return SkippedPacketAcked;
        }
      }
      var ops, _ := MarkAndErase(packets, space, frame.blocks);
      UnackedSent(packets, space, frame.blocks, sent);
      packets := ops;
      if n.skipped.Some? { FarPastAll(frame.blocks, n.skipped.value); }
      if n.skipped.Some? && FarPast(frame.blocks, n.skipped.value) {
        n := n.(skipped := None);
        ForgetInv(numbers[space], sent[space]);
      }
      SpaceChanged(numbers, sent, space, n, sent[space]);
      assert sent[space := sent[space]] == sent;
      numbers := numbers[space := n];
      r := Accepted;
    }

    /**
     `implicitAckCryptoStream`: the acknowledgement made up when a key level is done with is
     never refused, and takes every packet of the space, and no other, off the list.
     */
    method ImplicitAck(space: Space) returns (r: AckResult)
      requires Valid()
      modifies this`packets, this`numbers
      ensures Valid() && r == Accepted
      ensures packets == OtherSpaces(old(packets), space)
      ensures forall s :: s != space ==> numbers[s] == old(numbers[s])
    {
      hide NumbersInv, AllNumbersInv, WereSent, InOrder, Unacked, Descending, Covers, OtherSpaces, ImplicitBlocks, Acked;
      KeysOf(numbers, sent);
      var bounds := Bounds(packets, space);
      if bounds.None? {
        NoneOfSpace(packets, space);
        return Accepted;
      }
      var (lo, hi) := bounds.value;
      var n := numbers[space];
      BoundsSent(packets, numbers, sent, space, lo, hi);
      var blocks := ImplicitBlocks(lo, hi, n.skipped);
      UnackedOthers(packets, space, blocks);
      assert n.skipped.Some? ==> !Covers(blocks, n.skipped.value);
      r := ProcessAckFrame(space, AckFrame(hi, blocks));
    }
  }

  // ------------------------------------------------------------------ helpers

  lemma KeysOf(numbers: map<Space, Numbers>, sent: map<Space, seq<nat>>)
    requires AllNumbersInv(numbers, sent)
    ensures forall s: Space :: s in numbers && s in sent && NumbersInv(numbers[s], sent[s])
  {
  }

  lemma NextInv(n: Numbers, sent: seq<nat>, oneIn: bool)
    requires NumbersInv(n, sent)
    ensures NumbersInv(Numbers(n.next + 1, n.skipped), sent + [n.next])
    ensures n.skipped.None? ==> NumbersInv(Numbers(n.next + 2, Some(n.next + 1)), sent + [n.next])
    ensures n.skipped != Some(n.next)
  {
  }

  lemma ForgetInv(n: Numbers, sent: seq<nat>)
    requires NumbersInv(n, sent)
    ensures NumbersInv(Numbers(n.next, None), sent)
  {
  }

  /** The last block of a frame is the lowest, so all are past the skipped number when it is. */
  lemma FarPastAll(blocks: seq<Block>, skipped: nat)
    requires Descending(blocks)
    ensures FarPast(blocks, skipped) <==> blocks != [] && forall k :: 0 <= k < |blocks| ==> blocks[k].start > skipped + 1000
  {
  }

  lemma SpaceChanged(numbers: map<Space, Numbers>, sent: map<Space, seq<nat>>, space: Space, n: Numbers, s: seq<nat>)
    requires AllNumbersInv(numbers, sent) && NumbersInv(n, s)
    ensures AllNumbersInv(numbers[space := n], sent[space := s])
  {
    hide NumbersInv;
  }

  lemma MoreSent(ops: seq<Op>, sent: map<Space, seq<nat>>, space: Space, num: nat)
    requires WereSent(ops, sent)
    ensures WereSent(ops, sent[space := sent[space] + [num]])
  {
  }

  lemma OthersBelow(ops: seq<Op>, numbers: map<Space, Numbers>, sent: map<Space, seq<nat>>, space: Space)
    requires AllNumbersInv(numbers, sent) && WereSent(ops, sent)
    ensures forall i :: 0 <= i < |ops| && ops[i].space == space ==> ops[i].num < numbers[space].next
  {
    forall i | 0 <= i < |ops| && ops[i].space == space ensures ops[i].num < numbers[space].next {
      assert ops[i].num in sent[space];
    }
  }

  /** Every packet of the space is covered by blocks that leave only the skipped number out. */
  lemma BoundsSent(ops: seq<Op>, numbers: map<Space, Numbers>, sent: map<Space, seq<nat>>, space: Space, lo: nat, hi: nat)
    requires AllNumbersInv(numbers, sent) && WereSent(ops, sent)
    requires exists i :: 0 <= i < |ops| && ops[i].space == space && ops[i].num == lo
    requires exists i :: 0 <= i < |ops| && ops[i].space == space && ops[i].num == hi
    requires forall i :: 0 <= i < |ops| && ops[i].space == space ==> lo <= ops[i].num <= hi
    ensures lo <= hi < numbers[space].next && numbers[space].skipped != Some(lo) && numbers[space].skipped != Some(hi)
    ensures forall i :: 0 <= i < |ops| ==>
              (Acked(ops[i], space, ImplicitBlocks(lo, hi, numbers[space].skipped)) <==> ops[i].space == space)
  {
    hide ImplicitBlocks;
    assert NumbersInv(numbers[space], sent[space]) && lo in sent[space] && hi in sent[space];
    var blocks := ImplicitBlocks(lo, hi, numbers[space].skipped);
    forall i | 0 <= i < |ops| ensures Acked(ops[i], space, blocks) <==> ops[i].space == space {
      if ops[i].space == space {
        assert ops[i].num in sent[space];
        assert Covers(blocks, ops[i].num);
      }
    }
  }

  lemma InsertLength(ops: seq<Op>, op: Op)
    ensures |Insert(ops, op)| == |ops| + 1
  {
    hide InsertAt;
  }

  lemma PutInSent(ops: seq<Op>, op: Op, k: nat, r: seq<Op>, sent: map<Space, seq<nat>>)
    requires PutIn(ops, op, k, r) && WereSent(ops, sent) && op.num in sent[op.space]
    ensures WereSent(r, sent)
  {
    forall i | 0 <= i < |r| ensures r[i].num in sent[r[i].space] {
      assert r[i] == op || (i < k && r[i] == ops[i]) || (i > k && r[i] == ops[i - 1]);
    }
  }

  method FindBlock(blocks: seq<Block>, n: nat) returns (found: bool)
    ensures found <==> Covers(blocks, n)
  {
    found := false;
    for k := 0 to |blocks|
      invariant !found && forall j :: 0 <= j < k ==> !blocks[j].Has(n)
    {
      if blocks[k].Has(n) {
        return true;
      }
    }
  }

  /** The smallest and the largest number the list holds of a space. */
  method Bounds(ops: seq<Op>, space: Space) returns (r: Option<(nat, nat)>)
    ensures r.None? <==> forall i :: 0 <= i < |ops| ==> ops[i].space != space
    ensures r.Some? ==>
              && (exists i :: 0 <= i < |ops| && ops[i].space == space && ops[i].num == r.value.0)
              && (exists i :: 0 <= i < |ops| && ops[i].space == space && ops[i].num == r.value.1)
              && forall i :: 0 <= i < |ops| && ops[i].space == space ==> r.value.0 <= ops[i].num <= r.value.1
  {
    r := None;
    for k := 0 to |ops|
      invariant r.None? <==> forall i :: 0 <= i < k ==> ops[i].space != space
      invariant r.Some? ==>
                  && (exists i :: 0 <= i < k && ops[i].space == space && ops[i].num == r.value.0)
                  && (exists i :: 0 <= i < k && ops[i].space == space && ops[i].num == r.value.1)
                  && forall i :: 0 <= i < k && ops[i].space == space ==> r.value.0 <= ops[i].num <= r.value.1
    {
      if ops[k].space == space {
        var n := ops[k].num;
        r := Some(if r.None? then (n, n)
                  else (if n < r.value.0 then n else r.value.0, if n > r.value.1 then n else r.value.1));
      }
    }
  }

  lemma {:induction false} UnackedFrom(ops: seq<Op>, space: Space, blocks: seq<Block>)
    ensures forall op :: op in Unacked(ops, space, blocks) ==> op in ops
    decreases |ops|
  {
    if ops != [] { UnackedFrom(ops[..|ops| - 1], space, blocks); }
  }

  lemma UnackedSent(ops: seq<Op>, space: Space, blocks: seq<Block>, sent: map<Space, seq<nat>>)
    requires WereSent(ops, sent)
    ensures WereSent(Unacked(ops, space, blocks), sent)
  {
    hide Unacked;
    UnackedFrom(ops, space, blocks);
    var r := Unacked(ops, space, blocks);
    forall i | 0 <= i < |r| ensures r[i].num in sent[r[i].space] { assert r[i] in ops; }
  }

  ghost function OtherSpaces(ops: seq<Op>, space: Space): (r: seq<Op>) {
    if ops == [] then []
    else
      var n := |ops| - 1;
      OtherSpaces(ops[..n], space) + if ops[n].space == space then [] else [ops[n]]
  }

  lemma {:induction false} NoneOfSpace(ops: seq<Op>, space: Space)
    requires forall i :: 0 <= i < |ops| ==> ops[i].space != space
    ensures OtherSpaces(ops, space) == ops
    decreases |ops|
  {
    if ops != [] {
      NoneOfSpace(ops[..|ops| - 1], space);
      assert ops == ops[..|ops| - 1] + [ops[|ops| - 1]];
    }
  }

  lemma {:induction false} UnackedOthers(ops: seq<Op>, space: Space, blocks: seq<Block>)
    requires forall i :: 0 <= i < |ops| ==> (Acked(ops[i], space, blocks) <==> ops[i].space == space)
    ensures Unacked(ops, space, blocks) == OtherSpaces(ops, space)
    decreases |ops|
  {
    if ops != [] { UnackedOthers(ops[..|ops| - 1], space, blocks); }
  }
}
