// 64-bit durations and the backoff both cluster adapters compute.
module Backoff {
  import opened Wrappers
  import opened Clock
  import opened Balancing

  const TWO62: int := 0x4000_0000_0000_0000
  const TWO63: int := 0x8000_0000_0000_0000
  const TWO64: int := 0x1_0000_0000_0000_0000

  /** The int64 a mathematical integer wraps to. */
  function Wrap64(n: int): (r: int)
    ensures -TWO63 <= r < TWO63
    ensures -TWO63 <= n < TWO63 ==> r == n
  {
    (n + TWO63) % TWO64 - TWO63
  }

  function Pow2(k: nat): (p: nat)
    ensures p >= 1
  {
    if k == 0 then 1 else 2 * Pow2(k - 1)
  }

  function Min(a: int, b: int): int { if a <= b then a else b }

  /** Division of int64 truncates toward zero. */
  function Quarter(n: int): int { if n >= 0 then n / 4 else -(-n / 4) }

  /** `time.Duration(1<<uint(attempt))`: a shift of 64 or more leaves nothing. */
  function Shifted(attempt: nat): int {
    if attempt >= 64 then 0 else Wrap64(Pow2(attempt))
  }

  function Capped(attempt: nat, base: int, max: int): int {
    Min(Wrap64(Shifted(attempt) * base), max)
  }

  /** `calculateBackoff`; `random` is what the source of randomness holds.
      rand.Int63n panics on a bound that is not positive: None. */
  function CalculateBackoff(attempt: nat, base: int, max: int, random: nat): Option<int> {
    var backoff := Capped(attempt, base, max);
    if Quarter(backoff) <= 0 then None else Some(backoff + random % Quarter(backoff))
  }

  lemma {:induction false} Pow2Monotone(j: nat, k: nat)
    requires j <= k
    ensures Pow2(j) <= Pow2(k)
    decreases k
  {
    if j < k { Pow2Monotone(j, k - 1); }
  }

  lemma PowSixtyThree()
    ensures Pow2(62) == TWO62 && Pow2(63) == TWO63
  {
    assert Pow2(1) == 2;
    assert Pow2(2) == 4;
    Pow2Sum(2, 2);
    Pow2Sum(4, 4);
    Pow2Sum(8, 8);
    Pow2Sum(16, 16);
    assert Pow2(32) == 0x1_0000_0000;
    Pow2Sum(32, 16);
    Pow2Sum(48, 8);
    Pow2Sum(56, 4);
    Pow2Sum(60, 2);
    Pow2Sum(62, 1);
  }

  lemma {:induction false} Pow2Sum(j: nat, k: nat)
    ensures Pow2(j + k) == Pow2(j) * Pow2(k)
  {
    if k > 0 {
      Pow2Sum(j, k - 1);
      assert j + k - 1 == j + (k - 1);
    }
  }

  lemma Product(a: int, b: int)
    requires a >= 1 && b >= 0
    ensures b <= a * b
  {
    assert a * b == (a - 1) * b + b;
  }

  // ----- wrapping around -----

  lemma WrapShift(n: int, k: int)
    ensures Wrap64(n + TWO64 * k) == Wrap64(n)
  {
    var q, s := (n + TWO63) / TWO64, (n + TWO63) % TWO64;
    assert n + TWO63 == TWO64 * q + s;
    assert TWO64 * (q + k) == TWO64 * q + TWO64 * k;
    DivUnique(n + TWO64 * k + TWO63, TWO64, q + k, s);
  }

  lemma WrapTimes(a: int, b: int)
    ensures Wrap64(Wrap64(a) * b) == Wrap64(a * b)
  {
    var q := (a + TWO63) / TWO64;
    assert Wrap64(a) == a - TWO64 * q;
    assert (a - TWO64 * q) * b == a * b + TWO64 * -(q * b) by {
      assert (a - TWO64 * q) * b == a * b - (TWO64 * q) * b;
      assert (TWO64 * q) * b == TWO64 * (q * b);
    }
    WrapShift(a * b, -(q * b));
  }

  lemma PowFromSixtyFour(k: nat)
    ensures Pow2(k + 64) == TWO64 * Pow2(k)
  {
    PowSixtyThree();
    Pow2Sum(k, 63);
    Pow2Sum(k + 63, 1);
    assert k + 63 + 1 == k + 64 && Pow2(1) == 2;
    hide Pow2;
  }

  /** The shift, the product and their overflows together are one wrap of the
      mathematical product, at every attempt. */
  lemma CappedWraps(attempt: nat, base: int, max: int)
    ensures Capped(attempt, base, max) == Min(Wrap64(base * Pow2(attempt)), max)
  {
    hide Pow2, Wrap64;
    if attempt < 64 {
      WrapTimes(Pow2(attempt), base);
      assert Pow2(attempt) * base == base * Pow2(attempt);
    } else {
      WrappedAway(attempt, base);
      assert Shifted(attempt) * base == 0;
    }
  }

  lemma WrappedAway(attempt: nat, base: int)
    requires attempt >= 64
    ensures Wrap64(base * Pow2(attempt)) == 0 == Wrap64(0)
  {
    hide Pow2;
    var p := Pow2(attempt - 64);
    PowFromSixtyFour(attempt - 64);
    assert base * (TWO64 * p) == TWO64 * (base * p);
    WrapShift(0, base * p);
  }

  /** For every attempt, base and cap: with b the product wrapped to 64 bits and
      capped, the wait lies in [b, b + b/4), and there is no wait, the draw
      panics, exactly when the wrapped product or the cap is below four
      nanoseconds. */
  lemma BackoffRange(attempt: nat, base: int, max: int, random: nat)
    ensures var product := Wrap64(base * Pow2(attempt));
            var b := Min(product, max);
            var r := CalculateBackoff(attempt, base, max, random);
            && (r.None? <==> product < 4 || max < 4)
            && (r.Some? ==> b <= r.value < b + b / 4)
  {
    CappedWraps(attempt, base, max);
  }

  lemma WithinRange(p: int, max: int)
    requires 0 <= p < TWO63
    ensures Wrap64(p) == p && (Min(p, max) < 4 <==> p < 4 || max < 4)
  {
  }

  /** Below 63 bits nothing wraps: b is min(base * 2^attempt, max). */
  lemma BackoffWithoutOverflow(attempt: nat, base: int, max: int, random: nat)
    requires 0 <= base && base * Pow2(attempt) < TWO63
    ensures var b := Min(base * Pow2(attempt), max);
            var r := CalculateBackoff(attempt, base, max, random);
            && (r.None? <==> b < 4)
            && (r.Some? ==> b <= r.value < b + b / 4)
  {
    hide Pow2, Wrap64, CalculateBackoff, Min;
    BackoffRange(attempt, base, max, random);
    var p := Pow2(attempt);
    assert base * p >= 0;
    WithinRange(base * p, max);
  }

  /** Whatever overflows, a wait never reaches the cap and a quarter. */
  lemma BackoffCapped(attempt: nat, base: int, max: int, random: nat)
    requires CalculateBackoff(attempt, base, max, random).Some?
    ensures 4 <= CalculateBackoff(attempt, base, max, random).value < max + max / 4
  {
  }

  /** Until the cap is reached every wait is longer than the one before it,
      whatever the draws. */
  lemma BackoffGrows(attempt: nat, base: int, max: int, random: nat, random': nat)
    requires 4 <= base && base * Pow2(attempt + 1) <= max < TWO63
    ensures var a, b := CalculateBackoff(attempt, base, max, random), CalculateBackoff(attempt + 1, base, max, random');
            a.Some? && b.Some? && a.value < b.value
  {
    var p := Pow2(attempt);
    assert base * Pow2(attempt + 1) == 2 * (base * p);
    assert base <= base * p by { Product(p, base); }
    BackoffWithoutOverflow(attempt, base, max, random);
    BackoffWithoutOverflow(attempt + 1, base, max, random');
  }

  /** From attempt 64 on every call panics, whatever base and cap. */
  lemma HugeAttemptPanics(attempt: nat, base: int, max: int, random: nat)
    requires attempt >= 64
    ensures CalculateBackoff(attempt, base, max, random).None?
  {
  }

  lemma PowThirtyFour()
    ensures Pow2(33) == 0x2_0000_0000 && Pow2(34) == 0x4_0000_0000
  {
    assert Pow2(16) == 0x1_0000;
    Pow2Sum(16, 16);
    Pow2Sum(32, 1);
    Pow2Sum(33, 1);
    assert Pow2(1) == 2;
  }

  /** With the default base of a second and cap of thirty, every attempt up to
      33 gets its wait, and attempt 34 panics. */
  lemma DefaultsPanic(attempt: nat, random: nat)
    ensures attempt <= 33 ==> CalculateBackoff(attempt, SECOND, 30 * SECOND, random).Some?
    ensures CalculateBackoff(34, SECOND, 30 * SECOND, random).None?
  {
    hide Pow2, CalculateBackoff;
    PowThirtyFour();
    BackoffRange(34, SECOND, 30 * SECOND, random);
    if attempt <= 33 {
      Pow2Monotone(attempt, 33);
      Product(Pow2(attempt), SECOND);
      BackoffWithoutOverflow(attempt, SECOND, 30 * SECOND, random);
    }
  }
}
