/** Unity's global random generator (`UnityEngine.Random`), as the layout code uses it.
    The generator is an infinite stream of raw draws; every call reads the draw at
    the current cursor and the caller moves the cursor on by one. Threading the
    cursor through the recursion reproduces the order in which the source draws. */
module UnityRandom {

  /** The raw draws of one run of the generator. */
  type Stream = nat -> nat

  /** `Random.value > 0.5f`: a fair coin, read from one raw draw. */
  function Coin(rng: Stream, k: nat): bool
  {
    rng(k) % 2 == 1
  }

  /** The integer `Random.Range(lo, hi)`: `hi` is excluded and `lo` comes back
      when the two are equal. When `hi < lo` the bounds are swapped, and the
      draw is taken from the mirror image of the usual range, `(hi, lo]`. */
  predicate RangeOutcome(r: int, lo: int, hi: int)
  {
    if hi > lo then lo <= r < hi
    else if hi == lo then r == lo
    else hi < r <= lo
  }

  /** The integer `Random.Range(lo, hi)`, read from one raw draw. */
  function Range(lo: int, hi: int, rng: Stream, k: nat): (r: int)
    ensures RangeOutcome(r, lo, hi)
  {
    if hi > lo then lo + rng(k) % (hi - lo)
    else if hi == lo then lo
    else hi + 1 + rng(k) % (lo - hi)
  }

  /** The raw draw that makes `Range(lo, hi)` return `r`. */
  function DrawFor(r: int, lo: int, hi: int): nat
    requires RangeOutcome(r, lo, hi)
  {
    if hi > lo then r - lo else if hi == lo then 0 else r - hi - 1
  }

  /** Every outcome Unity may return is reachable by some draw, so the stream
      model does not rule out any behaviour of the source. */
  lemma RangeReachable(lo: int, hi: int, r: int, k: nat)
    requires RangeOutcome(r, lo, hi)
    ensures Range(lo, hi, (_: nat) => DrawFor(r, lo, hi), k) == r
  {
    var d := DrawFor(r, lo, hi);
    var rng: Stream := (_: nat) => d;
    assert rng(k) == d;
    if hi > lo {
      SmallRemainder(d, hi - lo);
    } else if hi < lo {
      SmallRemainder(d, lo - hi);
    }
  }

  lemma SmallRemainder(d: nat, m: int)
    requires d < m
    ensures d % m == d
  {
  }

  /** Both sides of the coin are reachable. */
  lemma CoinReachable(b: bool, k: nat)
    ensures Coin((_: nat) => if b then 1 else 0, k) == b
  {
  }
}
