/**
 Truncated packet numbers (quic/codec/PacketNumber.cpp; appendices A.2 and A.3 of RFC 9000).
 */
module PacketNumberCodec {
  import opened Prelude

  datatype EncodingResult = EncodingResult(result: nat, length: nat)

  /** Two to the power of eight times the length. */
  function Window(length: nat): (r: nat)
    requires 1 <= length <= 4
    ensures r > 0 && r % 2 == 0
  {
    match length
    case 1 => 0x100
    case 2 => 0x1_0000
    case 3 => 0x100_0000
    case _ => 0x1_0000_0000
  }

  function Half(length: nat): nat
    requires 1 <= length <= 4
  {
    Window(length) / 2
  }

  /** The position of the highest set bit, counted from one; zero for zero. */
  function FindLastSet(x: nat): nat { if x == 0 then 0 else 1 + FindLastSet(x / 2) }

  function LengthInBytes(twiceDistance: nat): nat {
    var bits := FindLastSet(twiceDistance);
    if bits == 0 then 1 else (bits + 7) / 8
  }

  /** `encodePacketNumber`, on 64-bit words. */
  function Encode(num: nat, largestAcked: nat): (r: Checked<EncodingResult>) {
    var twiceDistance := ((num - largestAcked) % TWO_TO_64) * 2 % TWO_TO_64;
    var length := LengthInBytes(twiceDistance);
    if length > 4 || length < 1 then CheckFailed else Ok(EncodingResult(num % Window(length), length))
  }

  /** `decodePacketNumber`, for the numbers below two to the 62nd that QUIC allows. */
  function Decode(encoded: nat, length: nat, expected: nat): (r: nat)
    requires 1 <= length <= 4 && encoded < Window(length) && expected <= TWO_TO_62
  {
    var win, half := Window(length), Half(length);
    var candidate := expected / win * win + encoded;
    if expected > half && candidate <= expected - half && candidate < TWO_TO_62 - win then candidate + win
    else if candidate > expected + half && candidate >= win then candidate - win
    else candidate
  }

  // ------------------------------------------------------------------ decoding

  /** The numbers the standard wants decoding to choose from: nearest to the expected one. */
  predicate InWindow(num: int, length: nat, expected: nat)
    requires 1 <= length <= 4
  {
    expected - Half(length) < num <= expected + Half(length)
  }

  /** The quotient and remainder by a window. */
  lemma DivFacts(n: nat, length: nat)
    requires 1 <= length <= 4
    ensures n == n / Window(length) * Window(length) + n % Window(length)
  {
  }

  /** A number of the window lies in the expected number's block of numbers, or in one next to it. */
  lemma QuotientNear(num: nat, expected: nat, length: nat)
    requires 1 <= length <= 4 && InWindow(num, length, expected)
    ensures var win := Window(length);
            var candidate := expected / win * win + num % win;
            candidate == num || candidate == num + win || candidate == num - win
  {
    var win := Window(length);
    var a, b := num / win, expected / win;
    DivFacts(num, length);
    DivFacts(expected, length);
    assert Half(length) < win;
    hide Window, Half;
    Distance(a, b, win);
    Distance(b, a, win);
  }

  /** Blocks further apart are at least that many windows apart. */
  lemma Distance(a: nat, b: nat, win: nat)
    ensures a >= b + 2 ==> a * win >= b * win + 2 * win
    ensures a == b + 1 ==> a * win == b * win + win
  {
    MulLess(b, b + 1, win);
    MulLess(b + 1, a, win);
  }

  /**
   A number near enough to the expected one is decoded from its low bytes, with one exception: the
   guard against a negative bound also turns down the expected number equal to half a window, and
   then a whole window decodes as zero.
   */
  lemma DecodeNearest(num: nat, length: nat, expected: nat)
    requires 1 <= length <= 4 && num < TWO_TO_62 && expected <= TWO_TO_62 && InWindow(num, length, expected)
    ensures Decode(num % Window(length), length, expected) == num <==>
            !(expected == Half(length) && num == Window(length))
  {
    var win := Window(length);
    QuotientNear(num, expected, length);
    CandidateCases(num, length, expected, expected / win * win + num % win);
  }

  lemma CandidateCases(num: nat, length: nat, expected: nat, candidate: nat)
    requires 1 <= length <= 4 && num < TWO_TO_62 && expected <= TWO_TO_62 && InWindow(num, length, expected)
    requires candidate == expected / Window(length) * Window(length) + num % Window(length)
    requires candidate == num || candidate == num + Window(length) || candidate == num - Window(length)
    ensures Decode(num % Window(length), length, expected) == num <==>
            !(expected == Half(length) && num == Window(length))
  {
    var win := Window(length);
    assert expected / win * win <= expected < expected / win * win + win by { DivFacts(expected, length); }
    assert win == 2 * Half(length);
  }

  /** The exception, at the smallest size. */
  lemma WindowDecodesAsZero()
    ensures InWindow(256, 1, 128) && Decode(256 % Window(1), 1, 128) == 0
  {
  }

  /**
   The result has the bytes received, and is a packet number unless all numbers are used up and the bytes
   are not those of one of the last half window.
   */
  lemma DecodeKeepsBytes(encoded: nat, length: nat, expected: nat)
    requires 1 <= length <= 4 && encoded < Window(length) && expected <= TWO_TO_62
    ensures Decode(encoded, length, expected) < TWO_TO_62 <==> !(expected == TWO_TO_62 && encoded <= Half(length))
    ensures Decode(encoded, length, expected) % Window(length) == encoded
  {
    var win := Window(length);
    DivFacts(expected, length);
    if expected < TWO_TO_62 { QuotientBelow(expected, length); } else { QuotientAtEnd(length); }
    SameBytes(encoded, length, expected / win);
  }

  lemma QuotientBelow(expected: nat, length: nat)
    requires 1 <= length <= 4 && expected < TWO_TO_62
    ensures expected / Window(length) * Window(length) + Window(length) <= TWO_TO_62
  {
    match length
    case 1 =>
    case 2 =>
    case 3 =>
    case 4 =>
  }

  lemma QuotientAtEnd(length: nat)
    requires 1 <= length <= 4
    ensures TWO_TO_62 / Window(length) * Window(length) == TWO_TO_62
  {
    match length
    case 1 =>
    case 2 =>
    case 3 =>
    case 4 =>
  }

  lemma SameBytes(encoded: nat, length: nat, q: nat)
    requires 1 <= length <= 4 && encoded < Window(length)
    ensures var win := Window(length);
            && (q * win + encoded) % win == encoded && (q * win + encoded + win) % win == encoded
            && (q > 0 ==> (q * win + encoded - win) % win == encoded)
  {
    var win := Window(length);
    ModOf(q, encoded, length);
    ModOf(q + 1, encoded, length);
    assert (q + 1) * win == q * win + win;
    if q > 0 {
      ModOf(q - 1, encoded, length);
      assert (q - 1) * win == q * win - win;
    }
  }

  lemma ModOf(q: nat, encoded: nat, length: nat)
    requires 1 <= length <= 4 && encoded < Window(length)
    ensures (q * Window(length) + encoded) % Window(length) == encoded
  {
    match length
    case 1 =>
    case 2 =>
    case 3 =>
    case 4 =>
  }

  // ------------------------------------------------------------------ encoding

  lemma {:induction false} LastSetBound(x: nat, n: nat)
    ensures FindLastSet(x) <= n <==> x < Pow2(n)
    decreases n
  {
    if n == 0 {
    } else if x > 0 {
      LastSetBound(x / 2, n - 1);
    }
  }

  lemma WindowIsPower(length: nat)
    requires 1 <= length <= 4
    ensures Pow2(8 * length) == Window(length)
  {
    Pow2Step(0);
    Pow2Step(8);
    Pow2Step(16);
    Pow2Step(24);
  }

  lemma Pow2Step(n: nat)
    ensures Pow2(n + 8) == 256 * Pow2(n)
  {
    assert Pow2(n + 2) == 4 * Pow2(n);
    assert Pow2(n + 4) == 4 * Pow2(n + 2);
    assert Pow2(n + 6) == 4 * Pow2(n + 4);
    assert Pow2(n + 8) == 4 * Pow2(n + 6);
  }

  /** The length is the least whose window is larger than twice the distance. */
  lemma LengthIsLeast(twiceDistance: nat, length: nat)
    requires 1 <= length <= 4
    ensures LengthInBytes(twiceDistance) >= 1
    ensures LengthInBytes(twiceDistance) <= length <==> twiceDistance < Window(length)
  {
    LastSetBound(twiceDistance, 8 * length);
    WindowIsPower(length);
  }

  /** Encoding fails its check exactly when the distance is negative or two to the 31st or more. */
  lemma EncodeChecks(num: nat, largestAcked: nat)
    requires num < TWO_TO_62 && largestAcked < TWO_TO_62
    ensures Encode(num, largestAcked).CheckFailed? <==> num < largestAcked || num - largestAcked >= 0x8000_0000
    ensures Encode(num, largestAcked).Ok? ==>
              var e := Encode(num, largestAcked).value;
              && 1 <= e.length <= 4 && e.result == num % Window(e.length)
              && num - largestAcked < Half(e.length)
              && forall l :: 1 <= l < e.length ==> num - largestAcked >= Half(l)
  {
    hide LengthInBytes;
    var d := ((num - largestAcked) % TWO_TO_64) * 2 % TWO_TO_64;
    assert num >= largestAcked ==> d == 2 * (num - largestAcked);
    assert num < largestAcked ==> d == TWO_TO_64 - 2 * (largestAcked - num);
    forall l | 1 <= l <= 4 ensures LengthInBytes(d) <= l <==> d < Window(l) { LengthIsLeast(d, l); }
    LengthIsLeast(d, 4);
  }

  /**
   What is sent can be read by every receiver that expects a number not below the largest
   acknowledged and less than half a window above the one sent.
   */
  lemma RoundTrip(num: nat, largestAcked: nat, expected: nat)
    requires num < TWO_TO_62 && largestAcked < TWO_TO_62 && expected <= TWO_TO_62
    requires Encode(num, largestAcked).Ok?
    requires largestAcked <= expected < num + Half(Encode(num, largestAcked).value.length)
    ensures var e := Encode(num, largestAcked).value; Decode(e.result, e.length, expected) == num
  {
    hide Encode, Decode;
    EncodeChecks(num, largestAcked);
    var e := Encode(num, largestAcked).value;
    DecodeNearest(num, e.length, expected);
  }

  /**
   A shorter encoding fails some such receiver, exactly when the number is not one of the first
   window and is not exactly half a window ahead (apart from the decoder's own exception).
   */
  lemma ShorterFails(num: nat, largestAcked: nat, length: nat)
    requires num < TWO_TO_62 && largestAcked <= num && Encode(num, largestAcked).Ok?
    requires 1 <= length < Encode(num, largestAcked).value.length
    ensures (exists expected :: && largestAcked <= expected <= TWO_TO_62 && expected < num + Half(length)
                                && Decode(num % Window(length), length, expected) != num) <==>
            num >= Window(length) && (num - largestAcked != Half(length) || largestAcked == Half(length))
  {
    hide Encode, Decode;
    EncodeChecks(num, largestAcked);
    if num < Window(length) {
      forall expected | largestAcked <= expected <= TWO_TO_62 && expected < num + Half(length)
        ensures Decode(num % Window(length), length, expected) == num
      {
        FirstWindow(num, length, expected);
      }
    } else if num - largestAcked == Half(length) {
      forall expected | largestAcked <= expected <= TWO_TO_62 && expected < num + Half(length)
        ensures Decode(num % Window(length), length, expected) == num <==> !(expected == Half(length) && num == Window(length))
      {
        DecodeNearest(num, length, expected);
      }
      assert Decode(num % Window(length), length, largestAcked) == num <==> !(largestAcked == Half(length) && num == Window(length));
    } else {
      TooFar(num, length, largestAcked);
    }
  }

  /** A number of the first window is found by any receiver that is not half a window past it. */
  lemma FirstWindow(num: nat, length: nat, expected: nat)
    requires 1 <= length <= 4 && num < Window(length) && expected <= TWO_TO_62 && expected < num + Half(length)
    ensures Decode(num % Window(length), length, expected) == num
  {
    var win := Window(length);
    assert win == 2 * Half(length) && num % win == num;
    assert expected / win == if expected < win then 0 else 1 by {
      match length
      case 1 =>
      case 2 =>
      case 3 =>
      case 4 =>
    }
  }

  /** A number past the first window and more than half a window ahead is not what decoding finds. */
  lemma TooFar(num: nat, length: nat, expected: nat)
    requires 1 <= length <= 4 && Window(length) <= num < TWO_TO_62 && num > expected + Half(length)
    ensures Decode(num % Window(length), length, expected) != num
  {
    var win := Window(length);
    DivFacts(expected, length);
    assert win == 2 * Half(length);
  }
}
