/** Result wrappers shared by the models. */
module Prelude {

  datatype Option<+T> = None | Some(value: T)

  /** A computation that either continues or fails a run-time `CHECK` of the transport (and aborts). */
  datatype Checked<+T> = Ok(value: T) | CheckFailed

  const TWO_TO_62: nat := 0x4000_0000_0000_0000
  const TWO_TO_64: nat := 0x1_0000_0000_0000_0000

  function Min(a: nat, b: nat): nat { if a <= b then a else b }

  function Pow2(n: nat): (r: nat)
    ensures r > 0
  {
    if n == 0 then 1 else 2 * Pow2(n - 1)
  }

  /** Products grow with their first factor, by at least the second for every step. */
  lemma {:induction false} MulLess(c: nat, d: nat, l: nat)
    ensures c < d ==> c * l + l <= d * l
    ensures d == c + 1 ==> d * l == c * l + l
    decreases d
  {
    if c + 1 < d { MulLess(c, d - 1, l); }
  }

  /** Element by element, `r` is `s` with `x` put in at `k`. */
  ghost predicate PutIn<T>(s: seq<T>, x: T, k: nat, r: seq<T>) {
    && k <= |s| && |r| == |s| + 1 && r[k] == x
    && (forall i :: 0 <= i < k ==> r[i] == s[i])
    && (forall i :: k < i < |r| ==> r[i] == s[i - 1])
  }
}
