/** Listening with retries: how often, how long, and where 64-bit delays overflow. */
module ListenRetry {
  import opened Wrappers
  import opened Numbers

  /** Durations are 64-bit nanoseconds that wrap around. */
  const TWO_63 := 0x8000_0000_0000_0000

  const CAP := 3_000_000_000

  function Wrap(x: int): (r: int)
    ensures -TWO_63 <= r < TWO_63
    ensures -TWO_63 <= x < TWO_63 ==> r == x
  {
    (x + TWO_63) % (2 * TWO_63) - TWO_63
  }

  function Pow2(n: nat): (r: nat)
    ensures r > 0
  {
    if n == 0 then 1 else 2 * Pow2(n - 1)
  }

  /** The delay behind failed attempt `i`: the shifted factor wraps, the product wraps, and
      the cap cuts only what is still large. */
  function Delay(base: int, i: nat): int {
    var delay := Wrap(base * Wrap(Pow2(i)));
    if delay > CAP then CAP else delay
  }

  /** `attempt(i)` is the error of attempt `i`, if it fails. */
  method ListenWithRetry(attempt: nat -> Option<string>, maxRetries: int, base: int)
    returns (listening: bool, lastErr: Option<string>, tries: nat, sleeps: seq<int>)
    requires -TWO_63 <= base < TWO_63
    ensures listening <==> exists i: nat :: i < maxRetries && attempt(i).None?
    ensures listening ==> 0 < tries <= maxRetries && attempt(tries - 1).None? && |sleeps| == tries - 1 && lastErr.None?
    ensures !listening ==> tries == (if maxRetries < 0 then 0 else maxRetries)
    ensures !listening && tries > 0 ==> |sleeps| == tries - 1 && lastErr == attempt(tries - 1)
    ensures !listening && tries == 0 ==> sleeps == [] && lastErr.None?
    ensures forall i: nat :: i < tries - 1 ==> attempt(i).Some?
    ensures forall k :: 0 <= k < |sleeps| ==> sleeps[k] == Delay(base, k)
  {
    lastErr, tries, sleeps := None, 0, [];
    while tries < maxRetries
      invariant 0 <= tries && (tries <= maxRetries || tries == 0)
      invariant forall i: nat :: i < tries ==> attempt(i).Some?
      invariant if tries > 0 then lastErr == attempt(tries - 1) else lastErr.None?
      invariant |sleeps| == if tries == maxRetries && tries > 0 then tries - 1 else tries
      invariant forall k :: 0 <= k < |sleeps| ==> sleeps[k] == Delay(base, k)
    {
      var err := attempt(tries);
      if err.None? {
        return true, None, tries + 1, sleeps;
      }
      lastErr := err;
      if tries < maxRetries - 1 {
        var delay := Wrap(base * Wrap(Pow2(tries)));
        if delay > CAP {
          delay := CAP;
        }
        sleeps := sleeps + [delay];
      }
      tries := tries + 1;
    }
    listening := false;
  }

  // ---- Overflow ----

  lemma {:induction false} Pow2Grows(i: nat, j: nat)
    requires i <= j
    ensures Pow2(i) <= Pow2(j)
    decreases j - i
  {
    if i < j { Pow2Grows(i, j - 1); }
  }

  lemma ScaledGrows(base: nat, i: nat, j: nat)
    requires i <= j
    ensures base * Pow2(i) <= base * Pow2(j)
  {
    Pow2Grows(i, j);
    var d := Pow2(j) - Pow2(i);
    assert base * Pow2(j) == base * Pow2(i) + base * d;
  }

  /** Below the overflow limit each delay is the doubled base, capped at three seconds. */
  lemma DelayIsDoubled(base: nat, i: nat)
    requires 0 < base && base * Pow2(i) < TWO_63
    ensures Delay(base, i) == Min(base * Pow2(i), 3_000_000_000)
  {
    assert Pow2(i) <= base * Pow2(i) by {
      assert base * Pow2(i) == Pow2(i) + (base - 1) * Pow2(i);
    }
  }

  lemma FirstOverflow(base: nat, power: nat)
    requires TWO_63 <= base * power < 2 * TWO_63 && (base == 1 || power < TWO_63)
    ensures Wrap(base * Wrap(power)) < 0
  {
    if base == 1 {
      assert base * power == power && Wrap(power) == power - 2 * TWO_63;
      assert base * Wrap(power) == Wrap(power);
    } else {
      assert Wrap(base * power) == base * power - 2 * TWO_63;
    }
  }

  /** Past the limit some delay comes out negative, so the caller does not wait at all. */
  lemma {:induction false} SomeDelayOverflows(base: nat, n: nat) returns (i: nat)
    requires 0 < base < TWO_63 && base * Pow2(n) >= TWO_63
    ensures i <= n && Delay(base, i) < 0 && base * Pow2(i) >= TWO_63
  {
    if n > 0 {
      var half := base * Pow2(n - 1);
      if half >= TWO_63 {
        i := SomeDelayOverflows(base, n - 1);
      } else {
        i := n;
        Doubling(base, Pow2(n - 1));
        FirstOverflow(base, Pow2(n));
      }
    }
  }

  lemma Doubling(base: nat, power: nat)
    ensures base * (2 * power) == 2 * (base * power)
    ensures base >= 2 ==> 2 * power <= base * power
  {
    if base >= 2 { assert base * power == 2 * power + (base - 2) * power; }
  }

  /** The delays of a listen that always fails are the doubled bases capped at three seconds
      exactly when the largest doubling stays below 2^63. */
  lemma DelaysDoubleExactly(base: nat, maxRetries: nat)
    requires 0 < base < TWO_63 && maxRetries >= 2
    ensures (forall i: nat :: i <= maxRetries - 2 ==> Delay(base, i) == Min(base * Pow2(i), 3_000_000_000))
       <==> base * Pow2(maxRetries - 2) < TWO_63
  {
    if base * Pow2(maxRetries - 2) < TWO_63 {
      forall i: nat | i <= maxRetries - 2 ensures Delay(base, i) == Min(base * Pow2(i), 3_000_000_000) {
        ScaledGrows(base, i, maxRetries - 2);
        DelayIsDoubled(base, i);
      }
    } else {
      var i := SomeDelayOverflows(base, maxRetries - 2);
    }
  }

  function Total(sleeps: seq<int>): int {
    if sleeps == [] then 0 else Total(sleeps[..|sleeps| - 1]) + sleeps[|sleeps| - 1]
  }

  lemma DelayBounds(base: nat, k: nat, n: nat)
    requires 0 < base && k <= n && base * Pow2(n) < TWO_63
    ensures Delay(base, k) == Min(base * Pow2(k), CAP) && 0 < Delay(base, k) <= CAP
  {
    ScaledGrows(base, k, n);
    ScaledGrows(base, 0, k);
    DelayIsDoubled(base, k);
  }

  lemma DelaysGrow(base: nat, i: nat, j: nat, n: nat)
    requires 0 < base && i <= j <= n && base * Pow2(n) < TWO_63
    ensures Delay(base, i) <= Delay(base, j)
  {
    DelayBounds(base, i, n);
    DelayBounds(base, j, n);
    ScaledGrows(base, i, j);
  }

  lemma {:induction false} TotalBounded(sleeps: seq<int>)
    requires forall k :: 0 <= k < |sleeps| ==> sleeps[k] <= CAP
    ensures Total(sleeps) <= CAP * |sleeps|
  {
    if sleeps != [] { TotalBounded(sleeps[..|sleeps| - 1]); }
  }

  /** Without overflow the delays never shrink, are positive, and add up to at most three
      seconds each. */
  lemma DelaysAreBounded(base: nat, sleeps: seq<int>)
    requires 0 < base && (sleeps != [] ==> base * Pow2(|sleeps| - 1) < TWO_63)
    requires forall k :: 0 <= k < |sleeps| ==> sleeps[k] == Delay(base, k)
    ensures forall k :: 0 <= k < |sleeps| ==> 0 < sleeps[k] <= 3_000_000_000
    ensures forall i, j :: 0 <= i <= j < |sleeps| ==> sleeps[i] <= sleeps[j]
    ensures Total(sleeps) <= 3_000_000_000 * |sleeps|
  {
    forall k | 0 <= k < |sleeps| ensures 0 < sleeps[k] <= CAP { DelayBounds(base, k, |sleeps| - 1); }
    forall i, j | 0 <= i <= j < |sleeps| ensures sleeps[i] <= sleeps[j] { DelaysGrow(base, i, j, |sleeps| - 1); }
    TotalBounded(sleeps);
  }
}
