/** The delay between attempts: exponential growth, a cap, symmetric jitter, rounding and a clamp. */
module Backoff {
  datatype Policy = Policy(minDelayMs: real, maxDelayMs: real, factor: real, jitter: real) {
    predicate Valid() {
      minDelayMs >= 0.0 && maxDelayMs >= 0.0 && factor >= 0.0 && jitter >= 0.0
    }

    /** The uncapped exponential. */
    function Growth(attempt: nat): real {
      minDelayMs * Pow(factor, attempt)
    }

    /** The first delay, lengthened by jitter as far as possible. */
    function Longest(): real {
      (1.0 + jitter) * minDelayMs
    }

    /** The uncapped delay of an attempt, lengthened by jitter as far as possible. */
    function Stretched(attempt: nat): real {
      Scaled(Longest(), Pow(factor, attempt))
    }

    function Base(attempt: nat): real {
      Min(Growth(attempt), maxDelayMs)
    }

    /** `draw` is the value of `Math.random()`. */
    function Delay(attempt: nat, draw: real): real {
      Jittered(Base(attempt), jitter, draw, maxDelayMs)
    }
  }

  function Jittered(base: real, jitter: real, draw: real, cap: real): real {
    Clamped(base + Offset(base, jitter, draw), cap)
  }

  function Offset(base: real, jitter: real, draw: real): real {
    base * jitter * (draw * 2.0 - 1.0)
  }

  function Clamped(x: real, cap: real): real {
    Min(cap, Max(0.0, Round(x)))
  }

  function Scaled(c: real, power: real): real {
    c * power
  }

  function Pow(x: real, n: nat): real {
    if n == 0 then 1.0 else x * Pow(x, n - 1)
  }

  function Min(x: real, y: real): real {
    if x < y then x else y
  }

  function Max(x: real, y: real): real {
    if x > y then x else y
  }

  /** `Math.round`: halves go up. */
  function Round(x: real): real {
    (x + 0.5).Floor as real
  }

  lemma {:induction false} PowNonNegative(x: real, n: nat)
    requires x >= 0.0
    ensures Pow(x, n) >= 0.0
  {
    if n > 0 {
      PowNonNegative(x, n - 1);
    }
  }

  lemma MulMonotone(a: real, x: real, y: real)
    requires a >= 0.0 && x <= y
    ensures a * x <= a * y
  {
  }

  lemma BaseInRange(p: Policy, attempt: nat)
    requires p.Valid()
    ensures 0.0 <= p.Base(attempt) <= p.maxDelayMs && p.Base(attempt) <= p.Growth(attempt)
  {
    PowNonNegative(p.factor, attempt);
    MulMonotone(p.minDelayMs, 0.0, Pow(p.factor, attempt));
  }

  lemma JitterBound(base: real, jitter: real, t: real)
    requires base >= 0.0 && jitter >= 0.0 && -1.0 <= t <= 1.0
    ensures -(base * jitter) <= base * jitter * t <= base * jitter
  {
    MulMonotone(base, 0.0, jitter);
    MulMonotone(base * jitter, t, 1.0);
    MulMonotone(base * jitter, -1.0, t);
  }

  /** Rounding and clamping move a value near `base` by at most a half further from it. */
  lemma ClampBound(base: real, spread: real, offset: real, cap: real)
    requires 0.0 <= base <= cap && -spread <= offset <= spread
    ensures var d := Clamped(base + offset, cap);
      0.0 <= d <= cap && base - (spread + 0.5) <= d <= base + (spread + 0.5)
  {
  }

  lemma JitteredBounds(base: real, jitter: real, draw: real, cap: real)
    requires 0.0 <= base <= cap && jitter >= 0.0 && 0.0 <= draw <= 1.0
    ensures var d := Jittered(base, jitter, draw, cap);
      0.0 <= d <= cap && base - (base * jitter + 0.5) <= d <= base + (base * jitter + 0.5)
  {
    JitterBound(base, jitter, draw * 2.0 - 1.0);
    ClampBound(base, base * jitter, Offset(base, jitter, draw), cap);
  }

  /** Every delay is within the cap and close to its base. */
  lemma DelayBounds(p: Policy, attempt: nat, draw: real)
    requires p.Valid() && 0.0 <= draw <= 1.0
    ensures var delay, base := p.Delay(attempt, draw), p.Base(attempt);
      && 0.0 <= delay <= p.maxDelayMs
      && base - (base * p.jitter + 0.5) <= delay <= base + (base * p.jitter + 0.5)
  {
    BaseInRange(p, attempt);
    JitteredBounds(p.Base(attempt), p.jitter, draw, p.maxDelayMs);
  }

  lemma ClampedExactly(x: real, cap: real) returns (d: int)
    requires cap >= 0.0
    ensures x - 0.5 < d as real <= x + 0.5
    ensures Clamped(x, cap) == if d < 0 then 0.0 else if d as real > cap then cap else d as real
  {
    d := (x + 0.5).Floor;
  }

  lemma ClampedMonotone(x: real, y: real, cap: real)
    requires x <= y
    ensures Clamped(x, cap) <= Clamped(y, cap)
  {
    assert (x + 0.5).Floor <= (y + 0.5).Floor;
  }

  lemma OffsetIs(base: real, jitter: real, draw: real)
    ensures base + Offset(base, jitter, draw) == base * (1.0 + jitter * (draw * 2.0 - 1.0))
  {
    var t := draw * 2.0 - 1.0;
    assert base * jitter * t == base * (jitter * t);
  }

  lemma OffsetMonotone(base: real, jitter: real, draw: real, more: real)
    requires base >= 0.0 && jitter >= 0.0 && draw <= more
    ensures Offset(base, jitter, draw) <= Offset(base, jitter, more)
  {
    MulMonotone(base, 0.0, jitter);
    MulMonotone(base * jitter, draw * 2.0 - 1.0, more * 2.0 - 1.0);
  }

  /**
    The delay is the integer nearest to `x`, the base moved by the draw up to the jitter either way;
    halves go up, and it is clamped to between zero and the cap.
   */
  lemma DelayExactly(p: Policy, attempt: nat, draw: real, x: real) returns (d: int)
    requires p.Valid() && x == p.Base(attempt) * (1.0 + p.jitter * (draw * 2.0 - 1.0))
    ensures x - 0.5 < d as real <= x + 0.5
    ensures p.Delay(attempt, draw) ==
      if d < 0 then 0.0 else if d as real > p.maxDelayMs then p.maxDelayMs else d as real
  {
    OffsetIs(p.Base(attempt), p.jitter, draw);
    d := ClampedExactly(x, p.maxDelayMs);
  }

  /** A larger draw never gives a shorter delay. */
  lemma DelayMonotone(p: Policy, attempt: nat, draw: real, more: real)
    requires p.Valid() && draw <= more
    ensures p.Delay(attempt, draw) <= p.Delay(attempt, more)
  {
    BaseInRange(p, attempt);
    var base := p.Base(attempt);
    OffsetMonotone(base, p.jitter, draw, more);
    ClampedMonotone(base + Offset(base, p.jitter, draw), base + Offset(base, p.jitter, more), p.maxDelayMs);
  }

  lemma {:induction false} PowGrows(x: real, a: nat, b: nat)
    requires x >= 1.0 && a <= b
    ensures 1.0 <= Pow(x, a) <= Pow(x, b)
    decreases b
  {
    if b > 0 {
      if a < b {
        PowGrows(x, a, b - 1);
        MulMonotone(Pow(x, b - 1), 1.0, x);
      } else {
        PowGrows(x, a - 1, b - 1);
        MulMonotone(Pow(x, b - 1), 1.0, x);
      }
    }
  }

  lemma GrowthGrows(p: Policy, a: nat, b: nat)
    requires p.Valid() && p.factor >= 1.0 && a <= b
    ensures p.Growth(a) <= p.Growth(b)
  {
    PowGrows(p.factor, a, b);
    MulMonotone(p.minDelayMs, Pow(p.factor, a), Pow(p.factor, b));
  }

  /** Bases never shrink; they follow the exponential below the cap and stay at the cap above it. */
  lemma BaseShape(p: Policy, a: nat, b: nat)
    requires p.Valid() && p.factor >= 1.0 && a <= b
    ensures p.Base(a) <= p.Base(b)
    ensures p.Base(a) == p.maxDelayMs ==> p.Base(b) == p.maxDelayMs
    ensures p.Growth(b) <= p.maxDelayMs ==> p.Base(a) == p.Growth(a)
  {
    GrowthGrows(p, a, b);
  }

  /** The exponential starts at `minDelayMs` and grows by the factor. */
  lemma GrowthShape(p: Policy, a: nat)
    ensures p.Growth(0) == p.minDelayMs
    ensures p.Growth(a + 1) == p.Growth(a) * p.factor
  {
    Reorder(p.minDelayMs, p.factor, Pow(p.factor, a));
  }

  lemma Reorder(a: real, b: real, c: real)
    ensures a * (b * c) == a * c * b
  {
  }

  lemma MulNonNegative(a: real, b: real)
    requires a >= 0.0 && b >= 0.0
    ensures a * b >= 0.0
  {
  }

  lemma BernoulliStep(d: real, m: real, power: real)
    requires d >= 0.0 && m >= 0.0 && power >= 1.0 + m * d
    ensures (1.0 + d) * power >= 1.0 + (m + 1.0) * d
  {
    MulMonotone(1.0 + d, 1.0 + m * d, power);
    MulNonNegative(m, d);
    MulNonNegative(m * d, d);
    assert (1.0 + d) * (1.0 + m * d) == 1.0 + d + m * d + m * d * d;
    assert (m + 1.0) * d == m * d + d;
  }

  /** Bernoulli: powers of a factor above one outgrow every line. */
  lemma {:induction false} PowAboveLine(d: real, n: nat)
    requires d >= 0.0
    ensures Pow(1.0 + d, n) >= 1.0 + n as real * d
  {
    if n > 0 {
      PowAboveLine(d, n - 1);
      BernoulliStep(d, (n - 1) as real, Pow(1.0 + d, n - 1));
    }
  }

  lemma LineReaches(m: real, d: real, cap: real) returns (n: nat)
    requires m > 0.0 && d > 0.0 && cap >= 0.0
    ensures m * (1.0 + n as real * d) >= cap
  {
    var slope := m * d;
    n := (cap / slope).Floor + 1;
    MulMonotone(slope, cap / slope, n as real);
    assert slope * (cap / slope) == cap;
    assert m * (1.0 + n as real * d) == m + slope * n as real;
  }

  lemma CapIsReached(p: Policy) returns (n: nat)
    requires p.Valid() && p.factor > 1.0 && p.minDelayMs > 0.0
    ensures p.Growth(n) >= p.maxDelayMs
  {
    var d := p.factor - 1.0;
    n := LineReaches(p.minDelayMs, d, p.maxDelayMs);
    PowAboveLine(d, n);
    assert 1.0 + d == p.factor;
    MulMonotone(p.minDelayMs, 1.0 + n as real * d, Pow(p.factor, n));
  }

  /** There is one crossover attempt: geometric and below the cap before it, the cap from it on. */
  lemma Crossover(p: Policy) returns (k: nat)
    requires p.Valid() && p.factor > 1.0 && p.minDelayMs > 0.0
    ensures forall a: nat | a < k :: p.Base(a) == p.Growth(a) < p.maxDelayMs
    ensures forall a: nat | k <= a :: p.Base(a) == p.maxDelayMs
  {
    k := CapIsReached(p);
    while k > 0 && p.Growth(k - 1) >= p.maxDelayMs
      invariant p.Growth(k) >= p.maxDelayMs
    {
      k := k - 1;
    }
    forall a: nat ensures a < k ==> p.Base(a) == p.Growth(a) < p.maxDelayMs {
      if a < k { GrowthGrows(p, a, k - 1); }
    }
    forall a: nat ensures k <= a ==> p.Base(a) == p.maxDelayMs {
      if k <= a { GrowthGrows(p, k, a); }
    }
  }

  // ----- the total wait

  function Sum(terms: nat -> real, n: nat): real {
    if n == 0 then 0.0 else Sum(terms, n - 1) + terms(n - 1)
  }

  ghost predicate PossibleDelay(p: Policy, attempt: nat, delay: real) {
    exists draw :: 0.0 <= draw <= 1.0 && delay == p.Delay(attempt, draw)
  }

  function Times(n: nat, x: real): real {
    n as real * x
  }

  lemma TimesStep(n: nat, x: real)
    requires n > 0
    ensures Times(n, x) == Times(n - 1, x) + x
  {
    assert n as real == (n - 1) as real + 1.0;
  }

  lemma {:induction false} SumBelowCaps(terms: nat -> real, cap: real, n: nat)
    requires forall a: nat :: terms(a) <= cap
    ensures Sum(terms, n) <= Times(n, cap)
  {
    if n > 0 {
      SumBelowCaps(terms, cap, n - 1);
      TimesStep(n, cap);
    }
  }

  lemma {:induction false} SumBelowSum(delays: nat -> real, terms: nat -> real, n: nat)
    requires forall a: nat :: delays(a) <= terms(a) + 0.5
    ensures Sum(delays, n) <= Sum(terms, n) + n as real / 2.0
  {
    if n > 0 {
      SumBelowSum(delays, terms, n - 1);
    }
  }

  predicate ClosedForm(x: real, c: real, sum: real, power: real) {
    (x - 1.0) * sum == c * (power - 1.0)
  }

  lemma GeometricStep(x: real, c: real, sum: real, power: real, term: real)
    requires ClosedForm(x, c, sum, power) && term == Scaled(c, power)
    ensures ClosedForm(x, c, sum + term, x * power)
  {
    assert (x - 1.0) * term == c * (x * power - power);
  }

  lemma {:induction false} GeometricClosed(terms: nat -> real, x: real, c: real, n: nat)
    requires forall a: nat {:trigger terms(a)} :: terms(a) == Scaled(c, Pow(x, a))
    ensures ClosedForm(x, c, Sum(terms, n), Pow(x, n))
  {
    if n > 0 {
      GeometricClosed(terms, x, c, n - 1);
      GeometricStep(x, c, Sum(terms, n - 1), Pow(x, n - 1), terms(n - 1));
    }
  }

  lemma JitteredBelow(base: real, jitter: real, draw: real, cap: real, minDelayMs: real, power: real, longest: real)
    requires 0.0 <= base <= cap && jitter >= 0.0 && 0.0 <= draw <= 1.0 && base <= minDelayMs * power
    requires longest == (1.0 + jitter) * minDelayMs
    ensures Jittered(base, jitter, draw, cap) <= Scaled(longest, power) + 0.5
  {
    JitteredBounds(base, jitter, draw, cap);
    StretchAbove(base, jitter, minDelayMs, power);
  }

  lemma StretchAbove(base: real, jitter: real, minDelayMs: real, power: real)
    requires jitter >= 0.0 && base <= minDelayMs * power
    ensures base + base * jitter <= (1.0 + jitter) * minDelayMs * power
  {
    MulMonotone(1.0 + jitter, base, minDelayMs * power);
    assert (1.0 + jitter) * base == base + base * jitter;
    assert (1.0 + jitter) * (minDelayMs * power) == (1.0 + jitter) * minDelayMs * power;
  }

  lemma DelayBelow(p: Policy, attempt: nat, draw: real)
    requires p.Valid() && 0.0 <= draw <= 1.0
    ensures p.Delay(attempt, draw) <= p.Stretched(attempt) + 0.5
  {
    BaseInRange(p, attempt);
    JitteredBelow(p.Base(attempt), p.jitter, draw, p.maxDelayMs, p.minDelayMs, Pow(p.factor, attempt), p.Longest());
  }

  function GeometricTotal(x: real, c: real, power: real): real
    requires x > 1.0
  {
    c * (power - 1.0) / (x - 1.0)
  }

  /** `(1 + jitter) * minDelayMs * (factor^n - 1) / (factor - 1) + n / 2` */
  function GrowthBound(p: Policy, n: nat): real
    requires p.factor > 1.0
  {
    GeometricTotal(p.factor, p.Longest(), Pow(p.factor, n)) + n as real / 2.0
  }

  lemma Quotient(d: real, sum: real, r: real)
    requires d > 0.0 && d * sum == r
    ensures sum == r / d
  {
  }

  lemma DivideOut(x: real, c: real, sum: real, power: real)
    requires x > 1.0 && ClosedForm(x, c, sum, power)
    ensures sum == GeometricTotal(x, c, power)
  {
    Quotient(x - 1.0, sum, c * (power - 1.0));
  }

  ghost predicate PossibleDelays(p: Policy, delays: nat -> real) {
    forall a: nat {:trigger delays(a)} :: PossibleDelay(p, a, delays(a))
  }

  lemma PossibleIsBounded(p: Policy, attempt: nat, delay: real)
    requires p.Valid() && PossibleDelay(p, attempt, delay)
    ensures delay <= p.maxDelayMs
    ensures delay <= p.Stretched(attempt) + 0.5
  {
    var draw :| 0.0 <= draw <= 1.0 && delay == p.Delay(attempt, draw);
    DelayBounds(p, attempt, draw);
    DelayBelow(p, attempt, draw);
  }

  lemma TotalBelowCaps(p: Policy, delays: nat -> real, n: nat)
    requires p.Valid() && PossibleDelays(p, delays)
    ensures Sum(delays, n) <= Times(n, p.maxDelayMs)
  {
    forall a: nat {:trigger delays(a)} ensures delays(a) <= p.maxDelayMs {
      PossibleIsBounded(p, a, delays(a));
    }
    SumBelowCaps(delays, p.maxDelayMs, n);
  }

  /** `terms` lists what jitter can make of each uncapped delay. */
  ghost predicate StretchedTerms(p: Policy, terms: nat -> real) {
    forall a: nat {:trigger terms(a)} :: terms(a) == p.Stretched(a)
  }

  lemma TotalBelowStretched(p: Policy, delays: nat -> real, terms: nat -> real, n: nat)
    requires p.Valid() && PossibleDelays(p, delays) && StretchedTerms(p, terms)
    ensures Sum(delays, n) <= Sum(terms, n) + n as real / 2.0
  {
    forall a: nat {:trigger delays(a)} ensures delays(a) <= terms(a) + 0.5 {
      PossibleIsBounded(p, a, delays(a));
    }
    SumBelowSum(delays, terms, n);
  }

  lemma StretchedClosed(p: Policy, terms: nat -> real, n: nat)
    requires StretchedTerms(p, terms)
    ensures ClosedForm(p.factor, p.Longest(), Sum(terms, n), Pow(p.factor, n))
  {
    GeometricClosed(terms, p.factor, p.Longest(), n);
  }

  lemma BoundFromClosed(p: Policy, sum: real, n: nat)
    requires p.factor > 1.0 && ClosedForm(p.factor, p.Longest(), sum, Pow(p.factor, n))
    ensures sum + n as real / 2.0 == GrowthBound(p, n)
  {
    DivideOut(p.factor, p.Longest(), sum, Pow(p.factor, n));
  }

  /** The total wait over `n` retries: at most the caps, and at most the closed geometric bound. */
  lemma TotalWaitBound(p: Policy, delays: nat -> real, n: nat)
    requires p.Valid() && p.factor > 1.0 && PossibleDelays(p, delays)
    ensures Sum(delays, n) <= Times(n, p.maxDelayMs)
    ensures Sum(delays, n) <= GrowthBound(p, n)
  {
    var terms := (a: nat) => p.Stretched(a);
    TotalBelowCaps(p, delays, n);
    TotalBelowStretched(p, delays, terms, n);
    StretchedClosed(p, terms, n);
    BoundFromClosed(p, Sum(terms, n), n);
  }
}
