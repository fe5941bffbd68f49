// Retry delays.
module Backoff {
  import opened Arithmetic

  datatype RetryStrategy = Fixed | Linear | Exponential

  datatype Policy = Policy(strategy: RetryStrategy, baseDelayMs: nat, maxDelayMs: int)

  function Pow2(n: nat): nat { if n == 0 then 1 else 2 * Pow2(n - 1) }

  // The largest value of floor(random * base * 0.1) for a random number below one.
  function MaxJitter(base: nat): nat { if base == 0 then 0 else (base - 1) / 10 }

  function CalculateDelay(p: Policy, attempt: nat, jitter: nat): int {
    match p.strategy
    case Fixed => Min(p.baseDelayMs, p.maxDelayMs)
    case Linear => Min(p.baseDelayMs * attempt, p.maxDelayMs)
    case Exponential => Min(p.baseDelayMs * Pow2(attempt) + jitter, p.maxDelayMs)
  }

  lemma {:induction false} SomeDraw(base: nat, jitter: nat) returns (random: real)
    requires jitter <= MaxJitter(base)
    ensures 0.0 <= random < 1.0 && IsDraw(base, random, jitter)
  {
    if base == 0 {
      random := 0.0;
    } else {
      var b := base as real;
      random := 10.0 * jitter as real / b;
      Divided(10.0 * jitter as real, b);
      assert 10 * jitter < base;
      assert random * b * 0.1 == jitter as real;
    }
  }

  lemma {:induction false} Divided(a: real, b: real)
    requires b > 0.0 && a >= 0.0
    ensures a / b * b == a && a / b >= 0.0
    ensures a < b ==> a / b < 1.0
  {
    var q := a / b;
    assert q * b == a;
    if q >= 1.0 {
      NonNegative(q - 1.0, b);
      assert (q - 1.0) * b == q * b - b;
    }
  }

  lemma {:induction false} NonNegative(a: real, b: real)
    requires a >= 0.0 && b >= 0.0
    ensures a * b >= 0.0
  {
  }

  lemma {:induction false} TenthIsBounded(x: real, base: nat, jitter: nat)
    requires 0.0 <= x && (x < base as real || x == 0.0) && IsFlooredTenth(x, jitter)
    ensures jitter <= MaxJitter(base)
  {
    assert jitter as real <= x * 0.1;
    assert jitter > 0 ==> 10 * jitter < base;
  }

  lemma {:induction false} DrawIsBounded(base: nat, random: real, jitter: nat)
    requires 0.0 <= random < 1.0 && IsDraw(base, random, jitter)
    ensures jitter <= MaxJitter(base)
  {
    var b := base as real;
    var x := random * b;
    Shrinks(random, b, x);
    TenthIsBounded(x, base, jitter);
  }

  lemma {:induction false} Shrinks(a: real, b: real, x: real)
    requires 0.0 <= a < 1.0 && b >= 0.0 && x == a * b
    ensures 0.0 <= x && (x < b || x == 0.0)
  {
    NonNegative(a, b);
    NonNegative(1.0 - a, b);
    assert (1.0 - a) * b == b - x;
    if b > 0.0 && x == b {
      assert (1.0 - a) * b == 0.0;
    }
  }

  // The jitters up to the largest are exactly those that some random number draws.
  lemma {:induction false} JittersAreDraws(base: nat, jitter: nat)
    ensures jitter <= MaxJitter(base) <==> exists random: real :: 0.0 <= random < 1.0 && IsDraw(base, random, jitter)
  {
    if jitter <= MaxJitter(base) {
      var random := SomeDraw(base, jitter);
    }
    forall random: real | 0.0 <= random < 1.0 && IsDraw(base, random, jitter) ensures jitter <= MaxJitter(base) {
      DrawIsBounded(base, random, jitter);
    }
  }

  // The jitter is floor(random * base * 0.1).
  predicate IsDraw(base: nat, random: real, jitter: nat) {
    IsFlooredTenth(random * base as real, jitter)
  }

  predicate IsFlooredTenth(x: real, jitter: nat) { (x * 0.1).Floor == jitter }

  lemma {:induction false} Pow2Doubles(base: nat, a: nat, b: nat)
    requires a < b
    ensures base * Pow2(b) >= base * Pow2(a) + base
    decreases b
  {
    var x := base * Pow2(b - 1);
    assert base * Pow2(b) == 2 * x;
    if a + 1 < b {
      Pow2Doubles(base, a, b - 1);
    } else {
      Pow2AtLeastOne(base, a);
    }
  }

  lemma {:induction false} Pow2AtLeastOne(base: nat, n: nat)
    ensures base * Pow2(n) >= base
  {
    if n == 0 {
    } else {
      Pow2AtLeastOne(base, n - 1);
      assert base * Pow2(n) == 2 * (base * Pow2(n - 1));
    }
  }

  // Whatever jitter each attempt draws, a later attempt never waits less, no wait exceeds the cap,
  // and from the first capped attempt on every wait is the cap.
  lemma {:induction false} DelaysGrowToTheCap(p: Policy, a: nat, b: nat, jitterA: nat, jitterB: nat)
    requires a < b && jitterA <= MaxJitter(p.baseDelayMs) && jitterB <= MaxJitter(p.baseDelayMs)
    ensures CalculateDelay(p, a, jitterA) <= CalculateDelay(p, b, jitterB) <= p.maxDelayMs
    ensures CalculateDelay(p, a, jitterA) == p.maxDelayMs ==> CalculateDelay(p, b, jitterB) == p.maxDelayMs
  {
    Pow2Doubles(p.baseDelayMs, a, b);
    MulMono(a, b, p.baseDelayMs);
  }

  // A wait whose uncapped value reaches the cap is the cap. With a positive base delay a linear or
  // exponential policy gets there after at most as many attempts as the cap has milliseconds.
  lemma {:induction false} CapIsReached(p: Policy, attempt: nat, jitter: nat)
    ensures p.strategy.Fixed? && p.baseDelayMs >= p.maxDelayMs ==> CalculateDelay(p, attempt, jitter) == p.maxDelayMs
    ensures p.strategy.Linear? && p.baseDelayMs * attempt >= p.maxDelayMs
            ==> CalculateDelay(p, attempt, jitter) == p.maxDelayMs
    ensures p.strategy.Exponential? && p.baseDelayMs * Pow2(attempt) + jitter >= p.maxDelayMs
            ==> CalculateDelay(p, attempt, jitter) == p.maxDelayMs
    ensures !p.strategy.Fixed? && p.baseDelayMs > 0 && attempt >= p.maxDelayMs
            ==> CalculateDelay(p, attempt, jitter) == p.maxDelayMs
  {
    if p.baseDelayMs > 0 {
      Pow2Exceeds(attempt);
      AtLeast(p.baseDelayMs, attempt);
      AtLeast(p.baseDelayMs, Pow2(attempt));
    }
  }

  lemma {:induction false} Pow2Exceeds(n: nat)
    ensures Pow2(n) > n
  {
    if n == 0 {
    } else {
      Pow2Exceeds(n - 1);
    }
  }

  lemma {:induction false} AtLeast(a: nat, b: nat)
    requires a > 0
    ensures a * b >= b
  {
    MulMono(1, a, b);
  }

  // ----- Totals -----

  // The waits after attempts 1 to |jitters|.
  function TotalWait(p: Policy, jitters: seq<nat>): int {
    if |jitters| == 0 then 0
    else TotalWait(p, jitters[..|jitters| - 1]) + CalculateDelay(p, |jitters|, jitters[|jitters| - 1])
  }

  function Sum(xs: seq<nat>): nat {
    if |xs| == 0 then 0 else Sum(xs[..|xs| - 1]) + xs[|xs| - 1]
  }

  lemma {:induction false} TotalIsCapped(p: Policy, jitters: seq<nat>)
    ensures TotalWait(p, jitters) <= |jitters| * p.maxDelayMs
  {
    if |jitters| == 0 {
    } else {
      TotalIsCapped(p, jitters[..|jitters| - 1]);
      OneMore(|jitters| - 1, p.maxDelayMs);
    }
  }

  // The fixed waits total one capped base delay each; the linear ones, while uncapped, the base
  // delay times a triangular number.
  lemma {:induction false} FixedAndLinearTotals(p: Policy, jitters: seq<nat>)
    ensures p.strategy.Fixed? ==> TotalWait(p, jitters) == |jitters| * Min(p.baseDelayMs, p.maxDelayMs)
    ensures p.strategy.Linear? && p.baseDelayMs * |jitters| <= p.maxDelayMs
            ==> 2 * TotalWait(p, jitters) == p.baseDelayMs * |jitters| * (|jitters| + 1)
  {
    var k := |jitters|;
    if k == 0 {
    } else {
      FixedAndLinearTotals(p, jitters[..k - 1]);
      OneMore(k - 1, Min(p.baseDelayMs, p.maxDelayMs));
      TriangleStep(p.baseDelayMs, k);
    }
  }

  lemma {:induction false} TriangleStep(base: nat, k: nat)
    requires k > 0
    ensures base * k * (k + 1) == base * (k - 1) * k + 2 * (base * k)
    ensures base * (k - 1) <= base * k
  {
  }

  // The exponential waits total at most the geometric sum plus one jitter for each, and exactly
  // that while no wait reaches the cap.
  lemma {:induction false} ExponentialTotal(p: Policy, jitters: seq<nat>)
    requires p.strategy.Exponential?
    requires forall i | 0 <= i < |jitters| :: jitters[i] <= MaxJitter(p.baseDelayMs)
    ensures var k := |jitters|;
            && TotalWait(p, jitters) <= p.baseDelayMs * (Pow2(k + 1) - 2) + Sum(jitters)
            && Sum(jitters) <= k * MaxJitter(p.baseDelayMs)
            && (p.baseDelayMs * Pow2(k) + MaxJitter(p.baseDelayMs) <= p.maxDelayMs
                ==> TotalWait(p, jitters) == p.baseDelayMs * (Pow2(k + 1) - 2) + Sum(jitters))
  {
    var k := |jitters|;
    if k == 0 {
    } else {
      ExponentialTotal(p, jitters[..k - 1]);
      Pow2Doubles(p.baseDelayMs, k - 1, k);
      GeometricStep(p.baseDelayMs, k);
      OneMore(k - 1, MaxJitter(p.baseDelayMs));
    }
  }

  lemma {:induction false} GeometricStep(base: nat, k: nat)
    ensures base * (Pow2(k + 1) - 2) == base * (Pow2(k) - 2) + base * Pow2(k)
  {
  }
}
