/**
 The loop that reads the frames of a packet, with its shortcut for padding
 (quic/codec/Decode.cpp: `parseFrame`, `decodePaddingFrame`, `decodeRegularPacket`),
 and what its frames have to do with the bytes of the packet.
 */
module PacketFrames {
  import opened Prelude
  import opened Varint
  import opened AckFrames
  import opened FrameReaders

  /** A frame read: padding counts the frames merged into it. */
  datatype Frame = Padding(count: nat) | Other(frame: QuicFrame)

  predicate AllZero(d: seq<byte>) { forall i :: 0 <= i < |d| ==> d[i] == 0 }

  /** `decodePaddingFrame`: a first byte of zero and every byte equal to the next one. */
  predicate RestIsPadding(d: seq<byte>)
    ensures RestIsPadding(d) <==> d != [] && AllZero(d)
  {
    d != [] && d[0] == 0 && (AllSame(d, |d|); forall i :: 0 <= i < |d| - 1 ==> d[i] == d[i + 1])
  }

  lemma {:induction false} AllSame(d: seq<byte>, n: nat)
    requires n <= |d|
    ensures (forall i :: 0 <= i < n - 1 ==> d[i] == d[i + 1]) ==> forall i :: 0 <= i < n ==> d[i] == d[0]
  {
    if n > 1 && forall i :: 0 <= i < n - 1 ==> d[i] == d[i + 1] {
      AllSame(d, n - 1);
      assert d[n - 2] == d[n - 2 + 1];
    }
  }

  /** `parseFrame`, with or without the shortcut. */
  function ParseFrame(data: seq<byte>, p: Params, shortcut: bool): (r: Option<(Frame, seq<byte>)>) {
    var t := ReadInt(data);
    if t.None? then None
    else if t.value.0 == 0 then Some((Padding(1), if shortcut && RestIsPadding(t.value.1) then [] else t.value.1))
    else
      var f := ReadOther(t.value.0, t.value.1, p);
      if f.None? then None else Some((Other(f.value.0), f.value.1))
  }

  /** Padding behind padding is counted, not added. */
  function Push(frames: seq<Frame>, f: Frame): seq<Frame> {
    if frames != [] && frames[|frames| - 1].Padding? && f.Padding?
    then frames[|frames| - 1 := Padding(frames[|frames| - 1].count + 1)]
    else frames + [f]
  }

  lemma Shrinks(data: seq<byte>, p: Params, shortcut: bool)
    requires ParseFrame(data, p, shortcut).Some?
    ensures |ParseFrame(data, p, shortcut).value.1| < |data| && IsSuffix(ParseFrame(data, p, shortcut).value.1, data)
  {
    var t := ReadInt(data);
    assert IsSuffix(t.value.1, data);
    var rest := ParseFrame(data, p, shortcut).value.1;
    if t.value.0 != 0 {
      assert IsSuffix(ReadOther(t.value.0, t.value.1, p).value.1, t.value.1);
      assert rest == data[|data| - |rest|..];
    }
  }

  /** The frames of a packet, added to those read before. */
  ghost function Frames(data: seq<byte>, p: Params, shortcut: bool, before: seq<Frame>): Option<seq<Frame>>
    decreases |data|
  {
    if data == [] then Some(before)
    else
      var f := ParseFrame(data, p, shortcut);
      if f.None? then None
      else
        Shrinks(data, p, shortcut);
        Frames(f.value.1, p, shortcut, Push(before, f.value.0))
  }

  /** `decodeRegularPacket`: it ends, having used up the packet or met a frame it cannot read. */
  method DecodeRegularPacket(data: seq<byte>, p: Params) returns (r: Option<seq<Frame>>)
    ensures r == Frames(data, p, true, [])
  {
    hide ParseFrame;
    if data == [] {
      return Some([]);
    }
    var first := ParseFrame(data, p, true);
    if first.None? {
      return None;
    }
    Shrinks(data, p, true);
    assert Push([], first.value.0) == [first.value.0];
    var frames, queue := [first.value.0], first.value.1;
    while queue != []
      invariant frames != [] && Frames(data, p, true, []) == Frames(queue, p, true, frames)
      decreases |queue|
    {
      var f := ParseFrame(queue, p, true);
      if f.None? {
        return None;
      }
      Shrinks(queue, p, true);
      var last := |frames| - 1;
      frames := if frames[last].Padding? && f.value.0.Padding? then frames[last := Padding(frames[last].count + 1)] else frames + [f.value.0];
      queue := f.value.1;
    }
    r := Some(frames);
  }

  // ------------------------------------------------------------------ the frames tile the packet

  /** A frame with the bytes it was read from. */
  datatype Tile = Tile(frame: Frame, bytes: seq<byte>)

  function Bytes(tiles: seq<Tile>): seq<byte> { if tiles == [] then [] else tiles[0].bytes + Bytes(tiles[1..]) }

  function PushAll(before: seq<Frame>, tiles: seq<Tile>): seq<Frame>
    decreases tiles
  {
    if tiles == [] then before else PushAll(Push(before, tiles[0].frame), tiles[1..])
  }

  /** Tile `k` has bytes, and reading where it begins gives its frame and leaves the tiles behind it. */
  ghost predicate Fits(tiles: seq<Tile>, k: nat, p: Params, shortcut: bool)
    requires k < |tiles|
  {
    tiles[k].bytes != [] && ParseFrame(Bytes(tiles[k..]), p, shortcut) == Some((tiles[k].frame, Bytes(tiles[k + 1..])))
  }

  ghost predicate Tiling(tiles: seq<Tile>, p: Params, shortcut: bool) {
    forall k :: 0 <= k < |tiles| ==> Fits(tiles, k, p, shortcut)
  }

  /** A packet that is read falls into non-empty pieces, end to end, one for every frame read. */
  lemma {:induction false} FramesTile(data: seq<byte>, p: Params, shortcut: bool, before: seq<Frame>) returns (tiles: seq<Tile>)
    requires Frames(data, p, shortcut, before).Some?
    ensures Bytes(tiles) == data && Tiling(tiles, p, shortcut)
    ensures Frames(data, p, shortcut, before).value == PushAll(before, tiles)
    decreases |data|
  {
    hide ParseFrame, Push;
    if data == [] {
      tiles := [];
    } else {
      Shrinks(data, p, shortcut);
      var (f, rest) := ParseFrame(data, p, shortcut).value;
      var more := FramesTile(rest, p, shortcut, Push(before, f));
      var first := Tile(f, data[..|data| - |rest|]);
      tiles := [first] + more;
      assert tiles[1..] == more;
      assert first.bytes + rest == data;
      TilingCons(first, more, p, shortcut);
    }
  }

  lemma TilingCons(first: Tile, more: seq<Tile>, p: Params, shortcut: bool)
    requires first.bytes != [] && Tiling(more, p, shortcut)
    requires ParseFrame(first.bytes + Bytes(more), p, shortcut) == Some((first.frame, Bytes(more)))
    ensures Tiling([first] + more, p, shortcut)
  {
    hide ParseFrame;
    var tiles := [first] + more;
    assert tiles[1..] == more;
    forall k | 0 <= k < |tiles| ensures Fits(tiles, k, p, shortcut) {
      if k == 0 {
        assert tiles[0..] == tiles;
      } else {
        assert Fits(more, k - 1, p, shortcut);
        assert tiles[k..] == more[k - 1..] && tiles[k + 1..] == more[k..];
      }
    }
  }

  /** And the other way: pieces that are each read as a frame make a packet that is read as those frames. */
  lemma {:induction false} TilesAreRead(tiles: seq<Tile>, p: Params, shortcut: bool, before: seq<Frame>)
    requires Tiling(tiles, p, shortcut)
    ensures Frames(Bytes(tiles), p, shortcut, before) == Some(PushAll(before, tiles))
    decreases |tiles|
  {
    hide ParseFrame, Push;
    if tiles != [] {
      assert Fits(tiles, 0, p, shortcut) && tiles[0..] == tiles;
      forall k | 0 <= k < |tiles| - 1 ensures Fits(tiles[1..], k, p, shortcut) {
        assert Fits(tiles, k + 1, p, shortcut);
        assert tiles[k + 1..] == tiles[1..][k..] && tiles[k + 2..] == tiles[1..][k + 1..];
      }
      TilesAreRead(tiles[1..], p, shortcut, Push(before, tiles[0].frame));
      assert |Bytes(tiles)| > 0;
    }
  }

  // ------------------------------------------------------------------ padding is counted

  function Paddings(n: nat): (r: seq<Frame>)
    ensures |r| == n && forall i :: 0 <= i < n ==> r[i] == Padding(1)
  {
    seq(n, _ => Padding(1))
  }

  /** Every padding frame for itself. */
  function Expand(frames: seq<Frame>): seq<Frame> {
    if frames == [] then []
    else
      var last := frames[|frames| - 1];
      Expand(frames[..|frames| - 1]) + if last.Padding? then Paddings(last.count) else [last]
  }

  /** Padding never stands beside padding, and none counts nothing. */
  ghost predicate Merged(frames: seq<Frame>) {
    && (forall i :: 0 <= i < |frames| && frames[i].Padding? ==> frames[i].count > 0)
    && (forall i :: 0 < i < |frames| ==> !(frames[i - 1].Padding? && frames[i].Padding?))
  }

  lemma PushExpands(frames: seq<Frame>, f: Frame)
    requires Merged(frames) && (f.Padding? ==> f.count == 1)
    ensures Merged(Push(frames, f)) && Expand(Push(frames, f)) == Expand(frames) + [f]
  {
    var r := Push(frames, f);
    var n := |frames| - 1;
    if frames != [] && frames[n].Padding? && f.Padding? {
      assert r[..n] == frames[..n] && Paddings(frames[n].count + 1) == Paddings(frames[n].count) + [f];
      assert Expand(r) == Expand(frames[..n]) + (Paddings(frames[n].count) + [f]);
    } else {
      assert r == frames + [f] && r[..|frames|] == frames;
      assert f.Padding? ==> Paddings(f.count) == [f];
    }
  }

  ghost predicate SinglePaddings(tiles: seq<Tile>) {
    forall k :: 0 <= k < |tiles| && tiles[k].frame.Padding? ==> tiles[k].frame.count == 1
  }

  function FramesOf(tiles: seq<Tile>): (r: seq<Frame>)
    ensures |r| == |tiles| && forall k :: 0 <= k < |tiles| ==> r[k] == tiles[k].frame
  {
    seq(|tiles|, k requires 0 <= k < |tiles| => tiles[k].frame)
  }

  lemma FramesCons(tiles: seq<Tile>)
    requires tiles != []
    ensures FramesOf(tiles) == [tiles[0].frame] + FramesOf(tiles[1..])
  {
  }

  /** Merging keeps every frame, in order: expanded again, the frames are those that were read. */
  lemma {:induction false} MergingKeepsFrames(before: seq<Frame>, tiles: seq<Tile>)
    requires Merged(before) && SinglePaddings(tiles)
    ensures Merged(PushAll(before, tiles)) && Expand(PushAll(before, tiles)) == Expand(before) + FramesOf(tiles)
    decreases |tiles|
  {
    hide Push, Expand, Merged, FramesOf;
    if tiles == [] {
      assert Expand(before) + [] == Expand(before) && FramesOf(tiles) == [];
    } else {
      var (f, rest) := (tiles[0].frame, FramesOf(tiles[1..]));
      PushExpands(before, f);
      MergingKeepsFrames(Push(before, f), tiles[1..]);
      FramesCons(tiles);
      assert Expand(before) + [f] + rest == Expand(before) + ([f] + rest);
    }
  }

  /** What is read without the shortcut is the frames of the packet, with runs of padding counted exactly. */
  lemma ReadIsMerged(data: seq<byte>, p: Params) returns (tiles: seq<Tile>)
    requires Frames(data, p, false, []).Some?
    ensures Bytes(tiles) == data && Tiling(tiles, p, false)
    ensures var r := Frames(data, p, false, []).value; Merged(r) && Expand(r) == FramesOf(tiles)
  {
    hide ParseFrame, Push;
    tiles := FramesTile(data, p, false, []);
    forall k | 0 <= k < |tiles| && tiles[k].frame.Padding? ensures tiles[k].frame.count == 1 {
      assert Fits(tiles, k, p, false);
      ParsedPaddingIsOne(Bytes(tiles[k..]), p, false);
    }
    MergingKeepsFrames([], tiles);
    assert Expand([]) + FramesOf(tiles) == FramesOf(tiles);
  }

  lemma ParsedPaddingIsOne(data: seq<byte>, p: Params, shortcut: bool)
    requires ParseFrame(data, p, shortcut).Some?
    ensures var f := ParseFrame(data, p, shortcut).value.0; f.Padding? ==> f.count == 1
  {
  }

  // ------------------------------------------------------------------ the shortcut changes only a count

  /** The same frames, whatever the padding counts. */
  ghost predicate Alike(a: seq<Frame>, b: seq<Frame>) {
    |a| == |b| && forall i :: 0 <= i < |a| ==> a[i] == b[i] || (a[i].Padding? && b[i].Padding?)
  }

  lemma PushAlike(a: seq<Frame>, b: seq<Frame>, f: Frame)
    requires Alike(a, b)
    ensures Alike(Push(a, f), Push(b, f))
  {
  }

  lemma ZeroByte(data: seq<byte>)
    requires data != [] && data[0] == 0
    ensures ReadInt(data) == Some((0, data[1..]))
  {
  }

  /** Byte by byte, zeros behind padding only raise its count. */
  lemma {:induction false} ZerosAreCounted(data: seq<byte>, p: Params, before: seq<Frame>)
    requires AllZero(data) && before != [] && before[|before| - 1].Padding?
    ensures Frames(data, p, false, before).Some? && Alike(Frames(data, p, false, before).value, before)
    decreases |data|
  {
    if data != [] {
      ZeroByte(data);
      hide ReadInt;
      var f := ParseFrame(data, p, false);
      assert f == Some((Padding(1), data[1..]));
      ZerosAreCounted(data[1..], p, Push(before, Padding(1)));
    }
  }

  /** With the shortcut or without, a packet is refused alike, or gives the same frames up to the counts. */
  lemma {:induction false} ShortcutIsHarmless(data: seq<byte>, p: Params, a: seq<Frame>, b: seq<Frame>)
    requires Alike(a, b)
    ensures var (fast, slow) := (Frames(data, p, true, a), Frames(data, p, false, b));
            (fast.Some? <==> slow.Some?) && (fast.Some? ==> Alike(fast.value, slow.value))
    decreases |data|
  {
    if data != [] {
      var slow := ParseFrame(data, p, false);
      if slow.Some? {
        var (f, rest) := slow.value;
        Shrinks(data, p, false);
        PushAlike(a, b, f);
        if f.Padding? && RestIsPadding(rest) {
          ShortcutTaken(data, p, a, b, rest);
        } else {
          assert ParseFrame(data, p, true) == slow by { hide ReadInt; }
          hide ParseFrame, Push, Alike;
          ShortcutIsHarmless(rest, p, Push(a, f), Push(b, f));
        }
      }
    }
  }

  lemma ShortcutTaken(data: seq<byte>, p: Params, a: seq<Frame>, b: seq<Frame>, rest: seq<byte>)
    requires Alike(a, b) && data != [] && RestIsPadding(rest)
    requires ParseFrame(data, p, false) == Some((Padding(1), rest))
    ensures var (fast, slow) := (Frames(data, p, true, a), Frames(data, p, false, b));
            fast.Some? && slow.Some? && Alike(fast.value, slow.value)
  {
    assert ParseFrame(data, p, true) == Some((Padding(1), [])) by { hide ReadInt; }
    var pa, pb := Push(a, Padding(1)), Push(b, Padding(1));
    PushAlike(a, b, Padding(1));
    ZerosAreCounted(rest, p, pb);
    hide ParseFrame;
    assert Frames(data, p, true, a) == Frames([], p, true, pa) == Some(pa);
    assert Frames(data, p, false, b) == Frames(rest, p, false, pb);
  }
}
