/**
 QUIC's variable-length integers (quic/codec/QuicInteger.h and quic/codec/QuicInteger.cpp;
 section 16 of RFC 9000).

 Words are modelled by their values: keeping the low bits is a remainder by a power of two,
 a right shift is a division, and setting bits that are clear is an addition.
 */
module Varint {
  import opened Prelude

  newtype byte = b: int | 0 <= b < 256

  const ONE_BYTE_LIMIT: nat := 0x3F
  const TWO_BYTE_LIMIT: nat := 0x3FFF
  const FOUR_BYTE_LIMIT: nat := 0x3FFF_FFFF
  const EIGHT_BYTE_LIMIT: nat := 0x3FFF_FFFF_FFFF_FFFF

  /** A word of `size` bytes written in network order. */
  function WriteBE(v: nat, size: nat): (r: seq<byte>)
    ensures |r| == size
  {
    if size == 0 then [] else WriteBE(v / 256, size - 1) + [(v % 256) as byte]
  }

  /** The largest value a width holds, and the tag its two top bits carry. */
  function Limit(size: nat): nat {
    match size
    case 1 => ONE_BYTE_LIMIT
    case 2 => TWO_BYTE_LIMIT
    case 4 => FOUR_BYTE_LIMIT
    case _ => EIGHT_BYTE_LIMIT
  }

  function Tag(size: nat): nat {
    match size
    case 1 => 0
    case 2 => 0x4000
    case 4 => 0x8000_0000
    case _ => 0xC000_0000_0000_0000
  }

  predicate Width(size: nat) { size == 1 || size == 2 || size == 4 || size == 8 }

  function EncodeSized(v: nat, size: nat): (r: seq<byte>)
    requires Width(size) && v <= Limit(size)
    ensures |r| == size
  {
    WriteBE(v + Tag(size), size)
  }

  /** `encodeQuicInteger` with a given output size: a wrong size is an error, a value too large for it fails a check. */
  function EncodeInto(v: nat, size: int): (r: Checked<Option<seq<byte>>>) {
    if size != 1 && size != 2 && size != 4 && size != 8 then Ok(None)
    else if v > Limit(size) then CheckFailed
    else Ok(Some(EncodeSized(v, size)))
  }

  /** `getQuicIntegerSize`. */
  function Size(v: nat): (r: Option<nat>)
    ensures r.None? <==> v > EIGHT_BYTE_LIMIT
    ensures r.Some? ==> Width(r.value) && v <= Limit(r.value)
    ensures r.Some? ==> forall s: nat :: Width(s) && v <= Limit(s) ==> r.value <= s
  {
    if v <= ONE_BYTE_LIMIT then Some(1)
    else if v <= TWO_BYTE_LIMIT then Some(2)
    else if v <= FOUR_BYTE_LIMIT then Some(4)
    else if v <= EIGHT_BYTE_LIMIT then Some(8)
    else None
  }

  /** `encodeQuicInteger`: the shortest form. */
  function Encode(v: nat): (r: Option<seq<byte>>) {
    var size := Size(v);
    if size.None? then None else Some(EncodeSized(v, size.value))
  }

  /** `decodeQuicIntegerLength`. */
  function LengthOf(first: byte): (r: nat)
    ensures Width(r)
  {
    match first / 64
    case 0 => 1
    case 1 => 2
    case 2 => 4
    case _ => 8
  }

  /** A word as a little-endian host loads it: the first byte in memory is the lowest. */
  function LoadLE(memory: seq<byte>): nat { if memory == [] then 0 else memory[0] as nat + 256 * LoadLE(memory[1..]) }

  /** The low `n` bytes of a word, lowest first. */
  function LowBytes(v: nat, n: nat): (r: seq<byte>)
    ensures |r| == n
  {
    if n == 0 then [] else [(v % 256) as byte] + LowBytes(v / 256, n - 1)
  }

  /** The value of bytes in network order. */
  function BigEndian(bytes: seq<byte>): nat {
    if bytes == [] then 0 else BigEndian(bytes[..|bytes| - 1]) * 256 + bytes[|bytes| - 1] as nat
  }

  /** `folly::Endian::big` on a little-endian host: the lowest byte of a word of `n` bytes becomes the highest. */
  function Swap(v: nat, n: nat): nat { BigEndian(LowBytes(v, n)) }

  function Zeros(n: nat): (r: seq<byte>)
    ensures |r| == n && forall i :: 0 <= i < n ==> r[i] == 0
  {
    seq(n, _ => 0 as byte)
  }

  /** The final shift, by eight bits for each byte not read. */
  function ShiftDown(v: nat, size: nat): nat {
    match size
    case 1 => v / 0x100_0000_0000_0000
    case 2 => v / 0x1_0000_0000_0000
    case 4 => v / 0x1_0000_0000
    case _ => v
  }

  /** `decodeQuicInteger`: the value and the bytes read, or nothing and the cursor stays. */
  function Decode(data: seq<byte>, atMost: nat): (r: Option<(nat, nat)>)
    ensures r.Some? <==> data != [] && atMost > 0 && LengthOf(data[0]) <= |data| && LengthOf(data[0]) <= atMost
    ensures r.Some? ==> r.value.1 == LengthOf(data[0])
  {
    if atMost == 0 || data == [] then None
    else
      var size := LengthOf(data[0]);
      if size == 1 then Some(((data[0] % 64) as nat, 1))
      else if |data| < size || atMost < size then None
      else Some((ShiftDown(Swap(LoadLE(data[..size] + Zeros(8 - size)), 8) % TWO_TO_62, size), size))
  }

  // ------------------------------------------------------------------ what it means

  /** The definition in section 16 of RFC 9000: two bits of length, the rest a number in network order. */
  function Meaning(bytes: seq<byte>): nat
    requires bytes != []
  {
    BigEndian([bytes[0] % 64] + bytes[1..])
  }

  /** The value of up to eight bytes at the top of a 64-bit word. */
  function LoadBE(bytes: seq<byte>): nat
    requires Width(|bytes|)
  {
    var at := (i: nat) => if i < |bytes| then bytes[i] as nat else 0;
    at(0) * 0x100_0000_0000_0000 + at(1) * 0x1_0000_0000_0000 + at(2) * 0x100_0000_0000 + at(3) * 0x1_0000_0000 +
    at(4) * 0x100_0000 + at(5) * 0x1_0000 + at(6) * 0x100 + at(7)
  }

  /** The bytes loaded are the bytes of the word. */
  lemma {:induction false} LowBytesOfLoad(memory: seq<byte>)
    ensures LowBytes(LoadLE(memory), |memory|) == memory
    decreases |memory|
  {
    if memory != [] {
      var rest := LoadLE(memory[1..]);
      LowBytesOfLoad(memory[1..]);
      assert LoadLE(memory) == memory[0] as nat + 256 * rest;
      LowByteOff(memory[0], rest, |memory| - 1);
      hide LoadLE, LowBytes;
      assert memory == [memory[0]] + memory[1..];
    }
  }

  lemma LowByteOff(b: byte, rest: nat, n: nat)
    ensures LowBytes(b as nat + 256 * rest, n + 1) == [b] + LowBytes(rest, n)
  {
    FirstDigit(b, rest);
  }

  lemma FirstDigit(b: byte, rest: nat)
    ensures (b as nat + 256 * rest) % 256 == b as nat && (b as nat + 256 * rest) / 256 == rest
  {
  }

  /** Swapping a loaded word gives the value of its memory in network order. */
  lemma SwapOfLoad(memory: seq<byte>)
    ensures Swap(LoadLE(memory), |memory|) == BigEndian(memory)
  {
    LowBytesOfLoad(memory);
  }

  /** The bytes pulled into a zeroed word and swapped stand at its top. */
  lemma LoadAndSwap(bytes: seq<byte>)
    requires Width(|bytes|)
    ensures Swap(LoadLE(bytes + Zeros(8 - |bytes|)), 8) == LoadBE(bytes)
  {
    var memory := bytes + Zeros(8 - |bytes|);
    hide BigEndian, LoadLE, LowBytes;
    SwapOfLoad(memory);
    BigEndian8(memory);
    assert forall i :: 0 <= i < 8 ==> memory[i] == if i < |bytes| then bytes[i] else 0;
  }

  lemma BigEndian1(a: byte)
    ensures BigEndian([a]) == a as nat
  {
    assert [a][..0] == [];
  }

  lemma BigEndian2(a: byte, b: byte)
    ensures BigEndian([a, b]) == a as nat * 0x100 + b as nat
  {
    assert [a, b][..1] == [a];
    BigEndian1(a);
  }

  lemma BigEndian4(a: byte, b: byte, c: byte, d: byte)
    ensures BigEndian([a, b, c, d]) == a as nat * 0x100_0000 + b as nat * 0x1_0000 + c as nat * 0x100 + d as nat
  {
    assert [a, b, c, d][..3] == [a, b, c] && [a, b, c][..2] == [a, b];
    BigEndian2(a, b);
  }

  lemma BigEndian8(x: seq<byte>)
    requires |x| == 8
    ensures BigEndian(x) == LoadBE(x)
  {
    assert x[..7][..6] == x[..6] && x[..6][..5] == x[..5] && x[..5][..4] == [x[0], x[1], x[2], x[3]];
    BigEndian4(x[0], x[1], x[2], x[3]);
    assert BigEndian(x[..5]) == BigEndian([x[0], x[1], x[2], x[3]]) * 256 + x[4] as nat;
    assert BigEndian(x[..6]) == BigEndian(x[..5]) * 256 + x[5] as nat;
    assert BigEndian(x[..7]) == BigEndian(x[..6]) * 256 + x[6] as nat;
  }

  /** Dropping the two top bits of the word drops them from the first byte. */
  lemma TopBits(x: seq<byte>)
    requires |x| == 8
    ensures LoadBE(x) % TWO_TO_62 == LoadBE([x[0] % 64] + x[1..])
  {
    var y := [x[0] % 64] + x[1..];
    assert y[0] == x[0] % 64 && forall i :: 0 < i < 8 ==> y[i] == x[i];
    assert x[0] as nat == (x[0] / 64) as nat * 64 + (x[0] % 64) as nat;
    assert LoadBE(x) == (x[0] / 64) as nat * TWO_TO_62 + LoadBE(y);
    assert LoadBE(y) < TWO_TO_62;
  }

  /** The load, swap, mask and shift compute the standard's value. */
  lemma DecodeMeaning(data: seq<byte>, atMost: nat)
    requires Decode(data, atMost).Some?
    ensures Decode(data, atMost).value.0 == Meaning(data[..LengthOf(data[0])])
  {
    var size := LengthOf(data[0]);
    var x := data[..size];
    if size == 1 {
      assert [x[0] % 64] + x[1..] == [x[0] % 64];
      BigEndian1(x[0] % 64);
    } else {
      hide LoadLE, Swap, Meaning, ShiftDown;
      MaskAndShift(x);
    }
  }

  lemma MaskAndShift(x: seq<byte>)
    requires x != [] && LengthOf(x[0]) == |x| > 1
    ensures ShiftDown(Swap(LoadLE(x + Zeros(8 - |x|)), 8) % TWO_TO_62, |x|) == Meaning(x)
  {
    hide LoadLE, LowBytes, Swap;
    LoadAndSwap(x);
    if |x| == 2 {
      MaskTwo(x[0], x[1]);
      assert x == [x[0], x[1]];
    } else if |x| == 4 {
      MaskFour(x[0], x[1], x[2], x[3]);
      assert x == [x[0], x[1], x[2], x[3]];
    } else {
      TopBits(x);
      BigEndian8([x[0] % 64] + x[1..]);
    }
  }

  lemma MaskTwo(a: byte, b: byte)
    requires 64 <= a < 128
    ensures ShiftDown(LoadBE([a, b]) % TWO_TO_62, 2) == Meaning([a, b])
  {
    var top := (a - 64) as nat * 0x100_0000_0000_0000 + b as nat * 0x1_0000_0000_0000;
    assert LoadBE([a, b]) == TWO_TO_62 + top && top < TWO_TO_62;
    assert [a % 64] + [a, b][1..] == [a % 64, b];
    BigEndian2(a % 64, b);
  }

  lemma MaskFour(a: byte, b: byte, c: byte, d: byte)
    requires 128 <= a < 192
    ensures ShiftDown(LoadBE([a, b, c, d]) % TWO_TO_62, 4) == Meaning([a, b, c, d])
  {
    var low := b as nat * 0x1_0000_0000_0000 + c as nat * 0x100_0000_0000 + d as nat * 0x1_0000_0000;
    var top := (a - 128) as nat * 0x100_0000_0000_0000 + low;
    assert LoadBE([a, b, c, d]) == 2 * TWO_TO_62 + top && top < TWO_TO_62;
    assert [a % 64] + [a, b, c, d][1..] == [a % 64, b, c, d];
    BigEndian4(a % 64, b, c, d);
  }

  // ------------------------------------------------------------------ round trips

  function Pow256(n: nat): nat { if n == 0 then 1 else 256 * Pow256(n - 1) }

  lemma {:induction false} WriteRead(v: nat, n: nat)
    requires v < Pow256(n)
    ensures BigEndian(WriteBE(v, n)) == v
  {
    if n > 0 {
      WriteRead(v / 256, n - 1);
      var r := WriteBE(v, n);
      assert r[..n - 1] == WriteBE(v / 256, n - 1);
    }
  }

  lemma {:induction false} ReadWrite(x: seq<byte>)
    ensures BigEndian(x) < Pow256(|x|) && WriteBE(BigEndian(x), |x|) == x
    decreases |x|
  {
    if x != [] {
      var n := |x| - 1;
      ReadWrite(x[..n]);
      assert x == x[..n] + [x[n]];
      assert BigEndian(x) / 256 == BigEndian(x[..n]) && BigEndian(x) % 256 == x[n] as nat;
    }
  }

  lemma {:induction false} HighByte(a: byte, t: seq<byte>)
    ensures BigEndian([a] + t) == a as nat * Pow256(|t|) + BigEndian(t)
    decreases |t|
  {
    if t == [] {
      assert [a] + t == [a];
      BigEndian1(a);
    } else {
      var n := |t| - 1;
      HighByte(a, t[..n]);
      assert ([a] + t)[..n + 1] == [a] + t[..n];
      assert a as nat * Pow256(|t|) == a as nat * Pow256(n) * 256;
    }
  }

  lemma FirstByteParts(x: seq<byte>, p: nat)
    requires x != [] && p == Pow256(|x| - 1)
    ensures BigEndian(x) == x[0] as nat * p + BigEndian(x[1..]) && BigEndian(x[1..]) < p
    ensures Meaning(x) == (x[0] % 64) as nat * p + BigEndian(x[1..])
  {
    hide BigEndian, WriteBE, Pow256;
    assert x == [x[0]] + x[1..];
    HighByte(x[0], x[1..]);
    HighByte(x[0] % 64, x[1..]);
    ReadWrite(x[1..]);
  }

  /** The bytes of a width, split into the tag bits and the number. */
  lemma FirstByte(x: seq<byte>)
    requires Width(|x|)
    ensures BigEndian(x) == (x[0] / 64) as nat * (Limit(|x|) + 1) + Meaning(x) && Meaning(x) <= Limit(|x|)
  {
    hide BigEndian, Meaning, Pow256;
    var p := Pow256(|x| - 1);
    FirstByteParts(x, p);
    assert 64 * p == Limit(|x|) + 1 by { Powers(); }
    hide Limit;
    SplitFirst((x[0] / 64) as nat, (x[0] % 64) as nat, p, BigEndian(x[1..]));
  }

  function TagBits(size: nat): nat { match size case 1 => 0 case 2 => 1 case 4 => 2 case _ => 3 }

  lemma SplitFirst(q: nat, m: nat, p: nat, t: nat)
    requires m < 64 && t < p
    ensures (q * 64 + m) * p + t == q * (64 * p) + (m * p + t) && m * p + t < 64 * p
  {
    MulLess(m, 64, p);
    assert (q * 64 + m) * p == q * 64 * p + m * p;
  }

  lemma Powers()
    ensures Pow256(0) == 1 && Pow256(1) == 0x100 && Pow256(2) == 0x1_0000 && Pow256(3) == 0x100_0000
    ensures Pow256(4) == 0x1_0000_0000 && Pow256(7) == 0x100_0000_0000_0000 && Pow256(8) == 0x1_0000_0000_0000_0000
  {
    assert Pow256(5) == 0x100_0000_0000 && Pow256(6) == 0x1_0000_0000_0000;
  }

  /** The tagged word shows its width in the first byte and its value in the rest. */
  lemma EncodedMeaning(v: nat, size: nat)
    requires Width(size) && v <= Limit(size)
    ensures LengthOf(EncodeSized(v, size)[0]) == size && Meaning(EncodeSized(v, size)) == v
  {
    var x := EncodeSized(v, size);
    assert v + Tag(size) < Pow256(size) by { Powers(); }
    WriteRead(v + Tag(size), size);
    FirstByte(x);
    hide WriteBE, BigEndian, Meaning, Pow256;
    var l := Limit(size) + 1;
    assert Tag(size) == TagBits(size) * l;
    SameDigits(v, TagBits(size), Meaning(x), (x[0] / 64) as nat, l);
  }

  lemma SameDigits(v: nat, c: nat, w: nat, d: nat, l: nat)
    requires v < l && w < l && v + c * l == d * l + w
    ensures v == w && c == d
  {
    MulLess(c, d, l);
    MulLess(d, c, l);
  }

  /** Whatever width a value was written with, it is read back, and what follows it stays unread. */
  lemma RoundTrip(v: nat, size: nat, rest: seq<byte>, atMost: nat)
    requires Width(size) && v <= Limit(size) && size <= atMost
    ensures Decode(EncodeSized(v, size) + rest, atMost) == Some((v, size))
  {
    hide Decode, Meaning, EncodeSized;
    var data := EncodeSized(v, size) + rest;
    assert data[0] == EncodeSized(v, size)[0];
    EncodedMeaning(v, size);
    assert data[..size] == EncodeSized(v, size);
    DecodeMeaning(data, atMost);
  }

  /** The fixed-width form is an error exactly for a wrong width, fails its check exactly for a value too large, and is read back. */
  lemma FixedWidth(v: nat, size: int, rest: seq<byte>, atMost: nat)
    ensures EncodeInto(v, size) == Ok(None) <==> size < 0 || !Width(size)
    ensures EncodeInto(v, size).CheckFailed? <==> size >= 0 && Width(size) && v > Limit(size)
    ensures EncodeInto(v, size).Ok? && EncodeInto(v, size).value.Some? ==>
              var bytes := EncodeInto(v, size).value.value;
              |bytes| == size && (size <= atMost ==> Decode(bytes + rest, atMost) == Some((v, size)))
  {
    hide Decode, EncodeSized;
    if size >= 0 && Width(size) && v <= Limit(size) && size <= atMost { RoundTrip(v, size, rest, atMost); }
  }

  /** The value decoded fits the width it was read from, and writing it back gives the bytes read. */
  lemma ReEncode(data: seq<byte>, atMost: nat)
    requires Decode(data, atMost).Some?
    ensures var (v, size) := Decode(data, atMost).value;
            v <= Limit(size) && EncodeSized(v, size) == data[..size]
  {
    hide Decode, Meaning, BigEndian, WriteBE;
    var (v, size) := Decode(data, atMost).value;
    DecodeMeaning(data, atMost);
    FirstByte(data[..size]);
    assert BigEndian(data[..size]) == v + Tag(size);
    ReadWrite(data[..size]);
  }

  /** The default form is read back, and no byte string that reads as the value is shorter. */
  lemma EncodeIsShortest(v: nat, rest: seq<byte>, data: seq<byte>, atMost: nat)
    requires Encode(v).Some?
    ensures Decode(Encode(v).value + rest, 8) == Some((v, |Encode(v).value|))
    ensures Decode(data, atMost).Some? && Decode(data, atMost).value.0 == v ==> |Encode(v).value| <= Decode(data, atMost).value.1
  {
    hide Decode, EncodeSized;
    RoundTrip(v, Size(v).value, rest, 8);
    if Decode(data, atMost).Some? && Decode(data, atMost).value.0 == v { ReEncode(data, atMost); }
  }
}
