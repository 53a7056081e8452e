/**
 How many bytes may be written (quic/api/QuicTransportFunctions.cpp:
 `maybeUnvalidatedClientWritableBytes` and `congestionControlWritableBytes`), on unsigned
 64-bit words.
 */
module WritableBytes {
  import opened Prelude

  const MAX64: nat := 0xFFFF_FFFF_FFFF_FFFF

  /** A word after an addition or a multiplication. */
  function Wrap(n: nat): nat { n % (MAX64 + 1) }

  /** `n` packets. */
  function Times(n: nat, packetLen: nat): (r: nat)
    ensures n == 0 ==> r == 0
    ensures n == 1 ==> r == packetLen
  {
    n * packetLen
  }

  /** Integer division. */
  function Quotient(n: nat, d: nat): (q: nat)
    requires d > 0
    ensures Times(q, d) <= n < Times(q, d) + d
  {
    if n < d then 0 else 1 + Quotient(n - d, d)
  }

  /** The amount rounded up to whole packets. */
  function RoundUp(bytes: nat, packetLen: nat): nat
    requires packetLen > 0
  {
    Wrap(Times(Quotient(Wrap(bytes + packetLen - 1), packetLen), packetLen))
  }

  /** `maybeUnvalidatedClientWritableBytes`: what is left of the limit of a client not yet validated. */
  function UnvalidatedClient(limit: Option<nat>, sent: nat, packetLen: nat): nat
    requires packetLen > 0
  {
    if limit.None? then MAX64
    else if limit.value <= sent then 0
    else RoundUp(limit.value - sent, packetLen)
  }

  /** The inputs of `congestionControlWritableBytes`: `excess` is the percentage granted to a stream about to end. */
  datatype Inputs = Inputs(path: nat, limit: Option<nat>, sent: nat, packetLen: nat,
                           congestion: Option<nat>, excess: Option<nat>, throttle: Option<nat>)

  /** The congestion window, with the excess granted to a stream about to end. */
  function Window(i: Inputs): nat
    requires i.congestion.Some?
  {
    if i.excess.Some? then Wrap(i.congestion.value + Wrap(i.congestion.value * i.excess.value) / 100) else i.congestion.value
  }

  /** The limit of an unvalidated client if there is one, else that of the path. */
  function FirstLimit(i: Inputs): nat
    requires i.packetLen > 0
  {
    if i.limit.Some? then UnvalidatedClient(i.limit, i.sent, i.packetLen) else i.path
  }

  /** What all limits together leave, before it is rounded. */
  function Allowed(i: Inputs): nat
    requires i.packetLen > 0
  {
    if i.congestion.None? then FirstLimit(i)
    else
      var capped := Min(FirstLimit(i), Window(i));
      if i.throttle.Some? then Min(i.throttle.value, capped) else capped
  }

  /** `congestionControlWritableBytes`; a path that is validated allows the largest word. */
  function CongestionControl(i: Inputs): nat
    requires i.packetLen > 0
  {
    if Allowed(i) == MAX64 then MAX64 else RoundUp(Allowed(i), i.packetLen)
  }

  // ------------------------------------------------------------------ rounding

  /** Whole packets, and the fewest that hold the amount. */
  ghost predicate FewestPackets(r: nat, bytes: nat, packetLen: nat) {
    r >= bytes && exists q :: r == Times(q, packetLen) && forall m :: Times(m, packetLen) >= bytes ==> q <= m
  }

  lemma TimesLess(c: nat, d: nat, l: nat)
    ensures c < d ==> Times(c, l) + l <= Times(d, l)
  {
    MulLess(c, d, l);
  }

  /** Rounding gives the fewest packets as long as the addition does not wrap. */
  lemma RoundUpIsLeast(bytes: nat, packetLen: nat)
    requires packetLen > 0 && bytes + packetLen - 1 <= MAX64
    ensures FewestPackets(RoundUp(bytes, packetLen), bytes, packetLen)
    ensures RoundUp(bytes, packetLen) <= bytes + packetLen - 1
  {
    var q := Quotient(bytes + packetLen - 1, packetLen);
    hide Quotient, Times;
    forall m | Times(m, packetLen) >= bytes ensures q <= m { TimesLess(m, q, packetLen); }
    assert RoundUp(bytes, packetLen) == Times(q, packetLen);
  }

  /** Past that point it gives less than was asked for. */
  lemma RoundUpWraps(bytes: nat, packetLen: nat)
    requires 0 < packetLen <= MAX64 && bytes <= MAX64 && bytes + packetLen - 1 > MAX64
    ensures RoundUp(bytes, packetLen) < bytes
  {
    hide Quotient, Times;
    var w := Wrap(bytes + packetLen - 1);
    assert w == bytes + packetLen - 2 - MAX64;
    assert Times(Quotient(w, packetLen), packetLen) <= w;
  }

  /** An amount already rounded stays. */
  lemma RoundUpTwice(bytes: nat, packetLen: nat)
    requires packetLen > 0 && bytes + 2 * packetLen - 2 <= MAX64
    ensures RoundUp(RoundUp(bytes, packetLen), packetLen) == RoundUp(bytes, packetLen)
  {
    hide RoundUp, Times;
    var r := RoundUp(bytes, packetLen);
    RoundUpIsLeast(bytes, packetLen);
    RoundUpIsLeast(r, packetLen);
    var q :| r == Times(q, packetLen) && forall m :: Times(m, packetLen) >= bytes ==> q <= m;
    var q2 :| RoundUp(r, packetLen) == Times(q2, packetLen) && forall m :: Times(m, packetLen) >= r ==> q2 <= m;
    TimesLess(q2, q, packetLen);
  }

  // ------------------------------------------------------------------ the limit of an unvalidated client

  /** Nothing is withheld while the limit is not reached, and nothing granted once it is. */
  lemma LimitIsExact(limit: nat, sent: nat, packetLen: nat)
    requires packetLen > 0 && limit + packetLen - 1 <= MAX64
    ensures UnvalidatedClient(Some(limit), sent, packetLen) > 0 <==> sent < limit
    ensures sent < limit ==> UnvalidatedClient(Some(limit), sent, packetLen) >= packetLen
  {
    if sent < limit {
      RoundUpIsLeast(limit - sent, packetLen);
      hide RoundUp, Times;
      var q :| RoundUp(limit - sent, packetLen) == Times(q, packetLen);
      TimesLess(0, q, packetLen);
    }
  }

  /** The words the function works on. */
  predicate Words(i: Inputs) {
    && 0 < i.packetLen <= MAX64 && i.path <= MAX64
    && (i.congestion.Some? ==> i.congestion.value <= MAX64) && (i.throttle.Some? ==> i.throttle.value <= MAX64)
    && (i.limit.Some? ==> i.limit.value <= MAX64)
  }

  /** Whatever is rounded, the result is less than a packet above it, and whole packets. */
  lemma RoundUpBelow(bytes: nat, packetLen: nat)
    requires 0 < packetLen <= MAX64 && bytes <= MAX64
    ensures RoundUp(bytes, packetLen) < bytes + packetLen && RoundUp(bytes, packetLen) <= MAX64
    ensures exists q :: RoundUp(bytes, packetLen) == Times(q, packetLen)
    ensures RoundUp(bytes, packetLen) >= bytes <==> bytes + packetLen - 1 <= MAX64
    ensures bytes == 0 ==> RoundUp(bytes, packetLen) == 0
  {
    var q := Quotient(Wrap(bytes + packetLen - 1), packetLen);
    assert Wrap(Times(q, packetLen)) == Times(q, packetLen) by { hide Times, Quotient; }
    if bytes + packetLen - 1 <= MAX64 {
      hide Times, Quotient;
      RoundUpIsLeast(bytes, packetLen);
    } else {
      RoundUpWraps(bytes, packetLen);
    }
  }

  /** No fewer packets hold more, and whole packets stay as they are: a rounded limit bounds what is rounded below it. */
  lemma RoundUpWithin(bytes: nat, packetLen: nat, q: nat)
    requires 0 < packetLen <= MAX64 && bytes <= Times(q, packetLen) <= MAX64
    ensures RoundUp(bytes, packetLen) <= Times(q, packetLen)
  {
    if bytes + packetLen - 1 <= MAX64 {
      hide RoundUp, Times;
      RoundUpIsLeast(bytes, packetLen);
      var k :| RoundUp(bytes, packetLen) == Times(k, packetLen) && forall m :: Times(m, packetLen) >= bytes ==> k <= m;
      TimesLess(k, q, packetLen);
    } else {
      hide RoundUp, Times;
      RoundUpWraps(bytes, packetLen);
    }
  }

  /**
   `x` bytes are within every limit that applies: what is left of an unvalidated client's limit, in whole packets, or
   else what the path allows; the congestion window with the excess in per cent; the throttle, which is asked only with
   a congestion controller.
   */
  predicate WithinLimits(i: Inputs, x: nat)
    requires i.packetLen > 0
  {
    && (if i.limit.None? then x <= i.path
        else if i.sent >= i.limit.value then x == 0
        else x <= RoundUp(i.limit.value - i.sent, i.packetLen))
    && (i.congestion.Some? ==>
          x <= match i.excess
               case None => i.congestion.value
               case Some(percent) =>
                 (i.congestion.value + i.congestion.value * percent % 0x1_0000_0000_0000_0000 / 100) % 0x1_0000_0000_0000_0000)
    && (i.congestion.Some? && i.throttle.Some? ==> x <= i.throttle.value)
  }

  ghost predicate IsMost(i: Inputs, most: nat)
    requires i.packetLen > 0
  {
    WithinLimits(i, most) && forall x: nat :: WithinLimits(i, x) ==> x <= most
  }

  /** What is rounded is the most that is within every limit. */
  lemma MostWithinLimits(i: Inputs)
    requires Words(i)
    ensures IsMost(i, Allowed(i))
  {
    hide RoundUp;
  }

  /** Each limit by itself: what is granted is less than a packet above it. */
  lemma BelowEachLimit(i: Inputs)
    requires Words(i)
    ensures var w := CongestionControl(i);
            && (i.limit.None? ==> w < i.path + i.packetLen)
            && (i.limit.Some? ==> w < (if i.sent < i.limit.value then i.limit.value - i.sent + i.packetLen else 1))
            && (i.congestion.Some? && i.excess.None? ==> w < i.congestion.value + i.packetLen)
            && (i.congestion.Some? && i.excess.Some? ==>
                  i.congestion.value * i.excess.value <= MAX64 ==>
                    w < i.congestion.value + i.congestion.value * i.excess.value / 100 + i.packetLen)
            && (i.congestion.Some? && i.throttle.Some? ==> w < i.throttle.value + i.packetLen)
  {
    hide RoundUp, Times;
    WithinEveryLimit(i);
  }

  /** And nothing less: all of it if that is the largest word, else the fewest packets that hold the most within every limit. */
  lemma GrantsExactly(i: Inputs, most: nat)
    requires Words(i) && IsMost(i, most)
    ensures most <= MAX64 && (most == MAX64 ==> CongestionControl(i) == MAX64)
    ensures most + i.packetLen - 1 <= MAX64 && most < MAX64 ==> FewestPackets(CongestionControl(i), most, i.packetLen)
    ensures most < MAX64 < most + i.packetLen - 1 ==> CongestionControl(i) < most
  {
    MostWithinLimits(i);
    assert most == Allowed(i);
    hide RoundUp, Times, FewestPackets, WithinLimits;
    FirstLimitWord(i);
    if most < MAX64 {
      if most + i.packetLen - 1 <= MAX64 { RoundUpIsLeast(most, i.packetLen); } else { RoundUpWraps(most, i.packetLen); }
    }
  }

  /**
   For every path, limit, congestion window and throttle: what is granted is less than a packet above
   each of them, is whole packets or unlimited, and is not below what they allow together unless the
   rounding wraps. A validated path allows the largest word and so drops out.
   */
  lemma WithinEveryLimit(i: Inputs)
    requires Words(i)
    ensures var w := CongestionControl(i);
            && (i.limit.None? ==> w < i.path + i.packetLen)
            && (i.limit.Some? ==> w <= UnvalidatedClient(i.limit, i.sent, i.packetLen))
            && (i.limit.Some? && i.sent < i.limit.value ==> w < i.limit.value - i.sent + i.packetLen)
            && (i.limit.Some? && i.sent >= i.limit.value ==> w == 0)
            && (i.congestion.Some? ==> w < Window(i) + i.packetLen)
            && (i.congestion.Some? && i.throttle.Some? ==> w < i.throttle.value + i.packetLen)
            && (w == MAX64 || exists q :: w == Times(q, i.packetLen))
            && (w >= Allowed(i) <==> Allowed(i) == MAX64 || Allowed(i) + i.packetLen - 1 <= MAX64)
    ensures i.path == MAX64 && i.limit.None? && i.congestion.None? ==> CongestionControl(i) == MAX64
  {
    hide RoundUp, Times, Wrap;
    assert FirstLimit(i) <= MAX64 by { FirstLimitWord(i); }
    RoundUpBelow(Allowed(i), i.packetLen);
    if i.limit.Some? && i.sent < i.limit.value {
      RoundUpBelow(i.limit.value - i.sent, i.packetLen);
      var q :| RoundUp(i.limit.value - i.sent, i.packetLen) == Times(q, i.packetLen);
      RoundUpWithin(Allowed(i), i.packetLen, q);
    }
  }

  lemma FirstLimitWord(i: Inputs)
    requires Words(i)
    ensures FirstLimit(i) <= MAX64
  {
    hide RoundUp;
    if i.limit.Some? && i.sent < i.limit.value { RoundUpBelow(i.limit.value - i.sent, i.packetLen); }
  }
}
