/**
 The two writers that combine sendmmsg with segmentation offload
 (quic/api/QuicGsoBatchWriters.cpp): one keeps chains of buffers, one keeps ranges of
 a shared buffer. They test different fields to decide whether a packet joins the
 latest message of its address; both are proved against one grouping function, and
 the properties of the grouping are proved about that function.
 */
module SendmmsgGso {
  import opened Prelude
  import opened GsoBatching
  import opened GsoExact

  /** One message: packets for one address, sent as one segmented write. */
  datatype Msg<A> = Msg(addr: A, packets: seq<Bytes>)

  /** The messages in index order, and the latest message of every address. */
  datatype Groups<A(==)> = Groups(msgs: seq<Msg<A>>, recent: map<A, nat>)

  /** The packet joins the latest message of its address. */
  predicate Joins<A(==)>(g: Groups<A>, a: A, p: Bytes) {
    && a in g.recent && g.recent[a] < |g.msgs|
    && var ps := g.msgs[g.recent[a]].packets;
       ps != [] && |p| <= |ps[|ps| - 1]| && |ps[0]| == |ps[|ps| - 1]|
  }

  function Place<A(==)>(g: Groups<A>, a: A, p: Bytes): (r: Groups<A>) {
    if Joins(g, a, p) then
      var i := g.recent[a];
      g.(msgs := g.msgs[i := Msg(g.msgs[i].addr, g.msgs[i].packets + [p])])
    else Groups(g.msgs + [Msg(a, [p])], g.recent[a := |g.msgs|])
  }

  function PlaceAll<A(==)>(g: Groups<A>, ps: seq<(A, Bytes)>): (r: Groups<A>)
    decreases ps
  {
    if ps == [] then g else PlaceAll(Place(g, ps[0].0, ps[0].1), ps[1..])
  }

  // ------------------------------------------------------------------ what the grouping keeps

  /** The packets of one address, in the order they were appended. */
  function For<A(==)>(ps: seq<(A, Bytes)>, a: A): (r: seq<Bytes>) {
    if ps == [] then []
    else
      var n := |ps| - 1;
      For(ps[..n], a) + if ps[n].0 == a then [ps[n].1] else []
  }

  /** The messages of one address, in index order. */
  function Messages<A(==)>(ms: seq<Msg<A>>, a: A): (r: seq<seq<Bytes>>) {
    if ms == [] then []
    else
      var n := |ms| - 1;
      Messages(ms[..n], a) + if ms[n].addr == a then [ms[n].packets] else []
  }

  /** The packets of one address, read off the messages in index order. */
  function Carried<A(==)>(ms: seq<Msg<A>>, a: A): (r: seq<Bytes>) { Flatten(Messages(ms, a)) }

  ghost predicate MsgOk<A>(m: Msg<A>) {
    Segmentable(m.packets)
  }

  /** The recorded index of an address is that of its last message. */
  ghost predicate RecentOk<A>(g: Groups<A>) {
    && (forall a :: a in g.recent ==>
          && g.recent[a] < |g.msgs| && g.msgs[g.recent[a]].addr == a
          && forall i :: g.recent[a] < i < |g.msgs| ==> g.msgs[i].addr != a)
    && (forall i :: 0 <= i < |g.msgs| ==> g.msgs[i].addr in g.recent)
  }

  ghost predicate GroupsOk<A>(g: Groups<A>) {
    RecentOk(g) && forall i :: 0 <= i < |g.msgs| ==> MsgOk(g.msgs[i])
  }

  lemma PlaceRecent<A>(g: Groups<A>, a: A, p: Bytes)
    requires RecentOk(g)
    ensures RecentOk(Place(g, a, p))
  {
  }

  lemma JoinedOk(ps: seq<Bytes>, p: Bytes)
    requires Segmentable(ps) && ps != [] && p != [] && |p| <= |ps[|ps| - 1]| && |ps[0]| == |ps[|ps| - 1]|
    ensures Segmentable(ps + [p])
  {
    assert forall k :: 0 <= k < |ps| ==> (ps + [p])[k] == ps[k];
  }

  lemma PlaceOk<A>(g: Groups<A>, a: A, p: Bytes)
    requires GroupsOk(g) && p != []
    ensures GroupsOk(Place(g, a, p))
  {
    PlaceRecent(g, a, p);
    hide RecentOk;
    if Joins(g, a, p) {
      assert MsgOk(g.msgs[g.recent[a]]);
      hide Segmentable;
      JoinedOk(g.msgs[g.recent[a]].packets, p);
    }
  }

  /** Messages behind the last one of an address are none of its own. */
  lemma {:induction false} MessagesEnd<A>(ms: seq<Msg<A>>, a: A, k: nat)
    requires k <= |ms| && forall i :: k <= i < |ms| ==> ms[i].addr != a
    ensures Messages(ms, a) == Messages(ms[..k], a)
    decreases |ms|
  {
    if k < |ms| {
      MessagesEnd(ms[..|ms| - 1], a, k);
      assert ms[..|ms| - 1][..k] == ms[..k];
    } else {
      assert ms[..k] == ms;
    }
  }

  lemma MessagesSnoc<A>(ms: seq<Msg<A>>, m: Msg<A>, a: A)
    ensures Messages(ms + [m], a) == Messages(ms, a) + if m.addr == a then [m.packets] else []
  {
    assert (ms + [m])[..|ms + [m]| - 1] == ms;
  }

  /** A message of another address can change without changing what an address is sent. */
  lemma {:induction false} MessagesOther<A>(ms: seq<Msg<A>>, a: A, i: nat, m: Msg<A>)
    requires i < |ms| && ms[i].addr != a && m.addr != a
    ensures Messages(ms[i := m], a) == Messages(ms, a)
    decreases |ms|
  {
    var n := |ms| - 1;
    if i == n {
      assert ms[i := m][..n] == ms[..n];
    } else {
      MessagesOther(ms[..n], a, i, m);
      assert ms[i := m][..n] == ms[..n][i := m];
    }
  }

  /** Every address with a recorded message has one, and the recorded one is its last. */
  lemma LastMessage<A>(g: Groups<A>, a: A)
    requires RecentOk(g)
    ensures a in g.recent <==> Messages(g.msgs, a) != []
    ensures a in g.recent ==>
              Messages(g.msgs, a) == Messages(g.msgs[..g.recent[a]], a) + [g.msgs[g.recent[a]].packets]
  {
    if a in g.recent {
      var i := g.recent[a];
      MessagesEnd(g.msgs, a, i + 1);
      assert g.msgs[..i + 1] == g.msgs[..i] + [g.msgs[i]];
      MessagesSnoc(g.msgs[..i], g.msgs[i], a);
    } else {
      MessagesEnd(g.msgs, a, 0);
    }
  }

  /** A packet joins the last message of its address or opens a new one; other addresses keep theirs. */
  lemma PlaceMessages<A>(g: Groups<A>, a: A, p: Bytes, b: A)
    requires RecentOk(g)
    ensures var (was, now) := (Messages(g.msgs, b), Messages(Place(g, a, p).msgs, b));
            if a != b then now == was
            else if Joins(g, a, p) then was != [] && now == was[|was| - 1 := was[|was| - 1] + [p]]
            else now == was + [[p]]
  {
    if Joins(g, a, p) {
      var i := g.recent[a];
      var m := Msg(g.msgs[i].addr, g.msgs[i].packets + [p]);
      if a != b {
        MessagesOther(g.msgs, b, i, m);
      } else {
        LastMessage(g, a);
        PlaceRecent(g, a, p);
        LastMessage(Place(g, a, p), a);
        assert g.msgs[i := m][..i] == g.msgs[..i];
      }
    } else {
      MessagesSnoc(g.msgs, Msg(a, [p]), b);
    }
  }

  /** Placing a packet appends it to what its address is sent and leaves other addresses alone. */
  lemma PlaceCarries<A>(g: Groups<A>, a: A, p: Bytes, b: A)
    requires GroupsOk(g)
    ensures Carried(Place(g, a, p).msgs, b) == Carried(g.msgs, b) + if a == b then [p] else []
  {
    PlaceMessages(g, a, p, b);
    hide GroupsOk, Place, Messages;
    var was := Messages(g.msgs, b);
    if a == b && Joins(g, a, p) {
      var (front, last) := (was[..|was| - 1], was[|was| - 1]);
      assert was == front + [last] && was[|was| - 1 := last + [p]] == front + [last + [p]];
      FlattenSnoc(front, last);
      FlattenSnoc(front, last + [p]);
    } else if a == b {
      FlattenSnoc(was, [p]);
    }
  }

  /** A packet opens a new message only when the last message of its address had to end. */
  lemma PlaceMaximal<A>(g: Groups<A>, a: A, p: Bytes, b: A)
    requires GroupsOk(g) && Maximal(Messages(g.msgs, b), 0)
    ensures Maximal(Messages(Place(g, a, p).msgs, b), 0)
  {
    PlaceMessages(g, a, p, b);
    LastMessage(g, a);
    assert a in g.recent ==> MsgOk(g.msgs[g.recent[a]]);
    hide GroupsOk, Place, Messages;
    var was := Messages(g.msgs, b);
    if a == b && Joins(g, a, p) {
      var now := was[|was| - 1 := was[|was| - 1] + [p]];
      forall i | 0 <= i < |now| - 1 ensures EndedAt(now, i, 0) { assert EndedAt(was, i, 0); }
    } else if a == b {
      MaximalSnoc(was, [p], 0);
    }
  }

  lemma ForSnoc<A>(ps: seq<(A, Bytes)>, x: (A, Bytes), a: A)
    ensures For(ps + [x], a) == For(ps, a) + if x.0 == a then [x.1] else []
  {
    assert (ps + [x])[..|ps|] == ps;
  }

  ghost predicate Kept<A>(g: Groups<A>, before: seq<(A, Bytes)>, a: A) {
    Carried(g.msgs, a) == For(before, a) && Maximal(Messages(g.msgs, a), 0)
  }

  lemma {:induction false} PlaceAllKeeps<A>(g: Groups<A>, before: seq<(A, Bytes)>, ps: seq<(A, Bytes)>, a: A)
    requires GroupsOk(g) && (forall i :: 0 <= i < |ps| ==> ps[i].1 != []) && Kept(g, before, a)
    ensures GroupsOk(PlaceAll(g, ps)) && Kept(PlaceAll(g, ps), before + ps, a)
    decreases |ps|
  {
    hide GroupsOk, Place, Carried, Joins, For, Maximal;
    if ps == [] {
      assert before + ps == before;
    } else {
      var (b, p) := ps[0];
      PlaceOk(g, b, p);
      PlaceCarries(g, b, p, a);
      PlaceMaximal(g, b, p, a);
      ForSnoc(before, ps[0], a);
      PlaceAllKeeps(Place(g, b, p), before + [ps[0]], ps[1..], a);
      assert before + [ps[0]] + ps[1..] == before + ps;
    }
  }

  function NoGroups<A>(): (g: Groups<A>) { Groups([], map[]) }

  /**
   For every sequence of packets and addresses: every message can be segmented, and the messages of
   an address, in index order, carry exactly its packets in order.
   */
  lemma GroupsCarryPackets<A>(ps: seq<(A, Bytes)>, a: A)
    requires forall i :: 0 <= i < |ps| ==> ps[i].1 != []
    ensures var g := PlaceAll(NoGroups<A>(), ps);
            && (forall i :: 0 <= i < |g.msgs| ==> MsgOk(g.msgs[i]))
            && Carried(g.msgs, a) == For(ps, a) && Maximal(Messages(g.msgs, a), 0)
  {
    PlaceAllKeeps(NoGroups<A>(), [], ps, a);
    assert [] + ps == ps;
  }

  lemma {:induction false} MessagesSegmentable<A>(ms: seq<Msg<A>>, a: A)
    requires forall i :: 0 <= i < |ms| ==> MsgOk(ms[i])
    ensures Writable(Messages(ms, a), 0)
    decreases |ms|
  {
    hide MsgOk, Segmentable;
    if ms != [] {
      var n := |ms| - 1;
      MessagesSegmentable(ms[..n], a);
      assert ms[n].addr == a ==> Segmentable(ms[n].packets) by { assert MsgOk(ms[n]); IsSegmentable(ms[n]); }
    }
  }

  lemma IsSegmentable<A>(m: Msg<A>)
    requires MsgOk(m)
    ensures Segmentable(m.packets)
  {
  }

  lemma {:induction false} ForNonEmpty<A>(ps: seq<(A, Bytes)>, a: A)
    requires forall i :: 0 <= i < |ps| ==> ps[i].1 != []
    ensures NonEmpty(For(ps, a))
    decreases |ps|
  {
    if ps != [] { ForNonEmpty(ps[..|ps| - 1], a); }
  }

  /** Each address's packets are cut into messages as the single-address writer without a maximum cuts them into batches. */
  lemma MessagesAreBatches<A>(ps: seq<(A, Bytes)>, a: A)
    requires forall i :: 0 <= i < |ps| ==> ps[i].1 != []
    ensures Messages(PlaceAll(NoGroups<A>(), ps).msgs, a) == Batches(For(ps, a), 0)
  {
    hide PlaceAll, For, MsgOk, Maximal, Writable, Batches;
    GroupsCarryPackets(ps, a);
    ForNonEmpty(ps, a);
    var gs := Messages(PlaceAll(NoGroups<A>(), ps).msgs, a);
    MessagesSegmentable(PlaceAll(NoGroups<A>(), ps).msgs, a);
    BatchesExactly(For(ps, a), 0, gs);
  }
}
