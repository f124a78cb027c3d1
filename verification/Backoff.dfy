/**
 Exponential back-off, over the reals: the delay of every attempt, what jitter adds to it, for which settings the
 delays never shrink, and what a run of calls and resets gets.
 */
module Backoff {

  datatype Options = Options(
    initialDelay: real, maxDelay: real, multiplier: real, jitter: real, immediateFirstRetry: bool)

  datatype Refusal = Accepted | InitialDelay | MaxDelay | Multiplier | Jitter

  /** The first complaint of the constructor, if it has any. */
  function Check(o: Options): (r: Refusal)
    ensures r == Accepted <==> o.initialDelay > 0.0 && o.maxDelay > 0.0 && o.multiplier > 1.0 && 0.0 <= o.jitter <= 1.0
    ensures r == InitialDelay <==> o.initialDelay <= 0.0
    ensures r == MaxDelay ==> o.maxDelay <= 0.0 < o.initialDelay
    ensures r == Multiplier ==> o.multiplier <= 1.0 && o.initialDelay > 0.0 && o.maxDelay > 0.0
    ensures r == Jitter ==> o.initialDelay > 0.0 && o.maxDelay > 0.0 && o.multiplier > 1.0
  {
    if o.initialDelay <= 0.0 then InitialDelay
    else if o.maxDelay <= 0.0 then MaxDelay
    else if o.multiplier <= 1.0 then Multiplier
    else if o.jitter < 0.0 || o.jitter > 1.0 then Jitter
    else Accepted
  }

  type Settings = o: Options | Check(o) == Accepted witness Options(1.0, 1.0, 2.0, 0.0, false)

  /** A result of `Math.random`. */
  type Random = r: real | 0.0 <= r < 1.0 witness 0.0

  const LOCAL: Settings := Options(50.0, 1000.0, 2.0, 0.0, true)

  const NETWORK: Settings := Options(100.0, 10000.0, 2.0, 0.1, false)

  function Pow(base: real, exponent: nat): real {
    if exponent == 0 then 1.0 else Pow(base, exponent - 1) * base
  }

  function Min(a: real, b: real): real {
    if a <= b then a else b
  }

  /** `Math.round`: the nearest integer, and of two the higher one. */
  function Round(x: real): (n: int)
    ensures x - 0.5 < n as real <= x + 0.5
  {
    (x + 0.5).Floor
  }

  /** The delay before jitter and limit. */
  function Nominal(o: Settings, exponent: nat): real {
    o.initialDelay * Pow(o.multiplier, exponent)
  }

  function Extra(delay: real, random: Random, jitter: real): real {
    random * delay * jitter
  }

  function Limited(nominal: real, o: Settings, random: Random): real {
    var delay := Min(nominal, o.maxDelay);
    if o.jitter > 0.0 then Min(delay + Extra(delay, random, o.jitter), o.maxDelay) else delay
  }

  /** What is rounded in the end. */
  function Unrounded(o: Settings, exponent: nat, random: Random): real {
    Limited(Nominal(o, exponent), o, random)
  }

  function Calc(o: Settings, attempts: nat, random: Random): int {
    if o.immediateFirstRetry && attempts == 0 then 0
    else Round(Unrounded(o, if o.immediateFirstRetry then attempts - 1 else attempts, random))
  }

  lemma MulMonotone(a: real, b: real, c: real)
    requires a <= b && c >= 0.0
    ensures a * c <= b * c
  {
    assert (b - a) * c == b * c - a * c;
  }

  /** A part of something. */
  lemma PartOf(a: real, b: real)
    requires 0.0 <= a <= 1.0 && b >= 0.0
    ensures 0.0 <= a * b <= b
  {
    NonNegative(a, b);
    NonNegative(1.0 - a, b);
    assert (1.0 - a) * b == b - a * b;
  }

  lemma NonNegative(a: real, b: real)
    requires a >= 0.0 && b >= 0.0
    ensures a * b >= 0.0
  {
  }

  lemma {:induction false} PowPositive(base: real, exponent: nat)
    requires base > 1.0
    ensures Pow(base, exponent) >= 1.0
  {
    if exponent > 0 {
      PowPositive(base, exponent - 1);
      var p := Pow(base, exponent - 1);
      assert p * base - p == p * (base - 1.0) >= 0.0;
    }
  }

  lemma {:induction false} Bernoulli(base: real, exponent: nat)
    requires base > 1.0
    ensures Pow(base, exponent) >= 1.0 + exponent as real * (base - 1.0)
  {
    if exponent > 0 {
      Bernoulli(base, exponent - 1);
      PowPositive(base, exponent - 1);
      var p, d := Pow(base, exponent - 1), base - 1.0;
      assert p * base == p + p * d;
      assert p * d >= d by {
        assert (p - 1.0) * d >= 0.0;
      }
      assert exponent as real * d == (exponent - 1) as real * d + d;
    }
  }

  lemma GrowsPast(initial: real, multiplier: real, bound: real, exponent: nat)
    requires initial > 0.0 && multiplier > 1.0 && exponent as real >= bound / initial / (multiplier - 1.0)
    ensures initial * Pow(multiplier, exponent) >= bound
  {
    var d, ratio := multiplier - 1.0, bound / initial;
    var quotient, p := ratio / d, Pow(multiplier, exponent);
    Bernoulli(multiplier, exponent);
    assert quotient * d == ratio;
    MulMonotone(quotient, exponent as real, d);
    assert ratio * initial == bound;
    MulMonotone(ratio, p, initial);
  }

  lemma {:induction false} PowAtMostOne(base: real, exponent: nat)
    requires 0.0 <= base <= 1.0
    ensures 0.0 <= Pow(base, exponent) <= 1.0
  {
    if exponent > 0 {
      PowAtMostOne(base, exponent - 1);
      var p := Pow(base, exponent - 1);
      PartOf(p, base);
      assert Pow(base, exponent) == p * base;
    }
  }

  /** Between `growth / jitter` and 1 there is room for a random value. */
  lemma RandomAbove(growth: real, jitter: real) returns (random: Random)
    requires 0.0 < growth < jitter
    ensures random * jitter > growth
  {
    var quotient := growth / jitter;
    assert quotient * jitter == growth;
    assert quotient < 1.0 by {
      if quotient >= 1.0 { MulMonotone(1.0, quotient, jitter); }
    }
    assert quotient > 0.0;
    random := (quotient + 1.0) / 2.0;
    assert random * jitter - quotient * jitter == (random - quotient) * jitter > 0.0;
  }

  lemma ExtraBounds(delay: real, random: Random, jitter: real)
    requires delay >= 0.0 && 0.0 <= jitter
    ensures 0.0 <= Extra(delay, random, jitter) <= delay * jitter
  {
    var part := random * delay;
    PartOf(random, delay);
    MulMonotone(part, delay, jitter);
    NonNegative(part, jitter);
  }

  // ------------------------------------------------------------- the guards

  ghost predicate AboveFrom(initial: real, multiplier: real, bound: real, n: nat) {
    forall k: nat :: k >= n ==> initial * Pow(multiplier, k) >= bound
  }

  ghost predicate Reaches(initial: real, multiplier: real, bound: real) {
    exists n: nat :: AboveFrom(initial, multiplier, bound, n)
  }

  /** Whatever the longest delay, the delays reach it in the end. */
  ghost predicate ReachesEveryBound(initial: real, multiplier: real) {
    forall bound: real :: Reaches(initial, multiplier, bound)
  }

  /** Jitter does not shorten a delay, and at most doubles it. */
  ghost predicate AtMostDoubles(jitter: real) {
    forall delay: real, random: Random :: delay > 0.0 ==> 0.0 <= Extra(delay, random, jitter) <= delay
  }

  lemma ReachesIfGrowing(initial: real, multiplier: real)
    requires initial > 0.0 && multiplier > 1.0
    ensures ReachesEveryBound(initial, multiplier)
  {
    forall bound: real
      ensures Reaches(initial, multiplier, bound)
    {
      var quotient := bound / initial / (multiplier - 1.0);
      var n: nat := if quotient < 0.0 then 0 else quotient.Floor + 1;
      forall k: nat | k >= n
        ensures initial * Pow(multiplier, k) >= bound
      {
        GrowsPast(initial, multiplier, bound, k);
      }
      assert AboveFrom(initial, multiplier, bound, n);
    }
  }

  /** With a multiplier of at most 1 some delay after every other is not above the first one. */
  lemma StaysLow(initial: real, multiplier: real, n: nat)
    requires initial > 0.0 && multiplier <= 1.0
    ensures !AboveFrom(initial, multiplier, initial + 1.0, n)
  {
    var p := Pow(multiplier, n);
    var k: nat := if p <= 1.0 then n else n + 1;
    assert Pow(multiplier, k) <= 1.0 by {
      if p > 1.0 {
        if multiplier >= 0.0 { PowAtMostOne(multiplier, n); }
        MulMonotone(multiplier, 0.0, p);
      }
    }
    MulMonotone(Pow(multiplier, k), 1.0, initial);
    assert initial * Pow(multiplier, k) < initial + 1.0;
  }

  lemma ReachesExactlyIfGrowing(initial: real, multiplier: real)
    requires initial > 0.0
    ensures ReachesEveryBound(initial, multiplier) <==> multiplier > 1.0
  {
    if multiplier > 1.0 {
      ReachesIfGrowing(initial, multiplier);
    } else if ReachesEveryBound(initial, multiplier) {
      var bound := initial + 1.0;
      assert Reaches(initial, multiplier, bound);
      var n: nat :| AboveFrom(initial, multiplier, bound, n);
      StaysLow(initial, multiplier, n);
    }
  }

  lemma AtMostDoublesExactly(jitter: real)
    ensures AtMostDoubles(jitter) <==> 0.0 <= jitter <= 1.0
  {
    if 0.0 <= jitter <= 1.0 {
      forall delay: real, random: Random | delay > 0.0
        ensures 0.0 <= Extra(delay, random, jitter) <= delay
      {
        ExtraBounds(delay, random, jitter);
        MulMonotone(jitter, 1.0, delay);
      }
    } else if jitter < 0.0 {
      assert Extra(1.0, 0.5, jitter) == 0.5 * jitter < 0.0;
    } else {
      var random := RandomAbove(1.0, jitter);
      assert Extra(1.0, random, jitter) == random * jitter;
    }
  }

  /**
   The constructor accepts exactly the settings with which the delays are positive and reach every maximum,
   and jitter neither shortens a delay nor more than doubles it.
   */
  lemma AcceptedExactly(o: Options)
    ensures Check(o) == Accepted <==>
      && o.initialDelay > 0.0
      && o.maxDelay > 0.0
      && ReachesEveryBound(o.initialDelay, o.multiplier)
      && AtMostDoubles(o.jitter)
  {
    AtMostDoublesExactly(o.jitter);
    if o.initialDelay > 0.0 {
      ReachesExactlyIfGrowing(o.initialDelay, o.multiplier);
    }
  }

  lemma LimitedBounds(nominal: real, most: real, o: Settings, random: Random)
    requires nominal > 0.0 && most == nominal * o.jitter
    ensures Min(nominal, o.maxDelay) <= Limited(nominal, o, random) <= Min(nominal + most, o.maxDelay)
  {
    var delay := Min(nominal, o.maxDelay);
    ExtraBounds(delay, random, o.jitter);
    MulMonotone(delay, nominal, o.jitter);
  }

  lemma NominalPositive(o: Settings, exponent: nat)
    ensures Nominal(o, exponent) >= o.initialDelay > 0.0
  {
    PowPositive(o.multiplier, exponent);
    MulMonotone(1.0, Pow(o.multiplier, exponent), o.initialDelay);
  }

  // ---------------------------------------------------------- the delays told

  /** Without a random part the delays begin with the initial one and are multiplied, up to the maximum. */
  lemma DelaysMultiply(o: Settings, exponent: nat)
    ensures Unrounded(o, 0, 0.0) == Min(o.initialDelay, o.maxDelay)
    ensures Unrounded(o, exponent + 1, 0.0) == Min(Unrounded(o, exponent, 0.0) * o.multiplier, o.maxDelay)
  {
    NominalPositive(o, exponent);
    NominalPositive(o, exponent + 1);
    NextNominal(o, exponent);
    NoExtra(o, Nominal(o, exponent));
    NoExtra(o, Nominal(o, exponent + 1));
    NoExtra(o, o.initialDelay);
    assert Nominal(o, 0) == o.initialDelay * Pow(o.multiplier, 0) == o.initialDelay;
    if Nominal(o, exponent) > o.maxDelay {
      MulMonotone(1.0, o.multiplier, o.maxDelay);
      MulMonotone(1.0, o.multiplier, Nominal(o, exponent));
    }
  }

  lemma NoExtra(o: Settings, nominal: real)
    requires nominal > 0.0
    ensures Limited(nominal, o, 0.0) == Min(nominal, o.maxDelay)
  {
    assert Extra(Min(nominal, o.maxDelay), 0.0, o.jitter) == 0.0;
  }

  /** Jitter adds to the least delay, in proportion to the random value, up to the maximum. */
  lemma JitterAdds(o: Settings, exponent: nat, random: Random)
    ensures var least := Unrounded(o, exponent, 0.0);
      Unrounded(o, exponent, random) == Min(least + random * (least * o.jitter), o.maxDelay)
  {
    NominalPositive(o, exponent);
    NoExtra(o, Nominal(o, exponent));
    var least := Unrounded(o, exponent, 0.0);
    assert random * least * o.jitter == random * (least * o.jitter);
  }

  // ------------------------------------------------------- growth and jitter

  /** A jitter not above the growth: the least of one delay is at least the most of the one before. */
  predicate Steady(o: Settings) { 1.0 + o.jitter <= o.multiplier }

  /** The second delay is already the longest one. */
  predicate SaturatesAtOnce(o: Settings) { o.initialDelay * o.multiplier >= o.maxDelay }

  /** The delay after `exponent`, with these random values, is not below the one at `exponent`. */
  predicate GrowsAt(o: Settings, exponent: nat, r0: Random, r1: Random) {
    Unrounded(o, exponent, r0) <= Unrounded(o, exponent + 1, r1)
  }

  lemma GrowthCoversJitter(nominal: real, most: real, o: Settings)
    requires nominal > 0.0 && most == nominal * o.jitter && Steady(o)
    ensures nominal + most <= nominal * o.multiplier
  {
    MulMonotone(1.0 + o.jitter, o.multiplier, nominal);
    assert (1.0 + o.jitter) * nominal == nominal + nominal * o.jitter;
  }

  lemma LimitedGrows(nominal: real, most: real, next: real, o: Settings, r0: Random, r1: Random)
    requires nominal > 0.0 && next > 0.0 && most == nominal * o.jitter
    requires nominal + most <= next || next >= o.maxDelay
    ensures Limited(nominal, o, r0) <= Limited(next, o, r1)
  {
    LimitedBounds(nominal, most, o, r0);
    LimitedBounds(next, next * o.jitter, o, r1);
  }

  lemma NextNominal(o: Settings, exponent: nat)
    ensures Nominal(o, exponent + 1) == Nominal(o, exponent) * o.multiplier
    ensures Nominal(o, exponent + 1) >= o.initialDelay * o.multiplier
  {
    var p := Pow(o.multiplier, exponent);
    assert Pow(o.multiplier, exponent + 1) == p * o.multiplier;
    assert o.initialDelay * (p * o.multiplier) == o.initialDelay * p * o.multiplier;
    NominalPositive(o, exponent);
    MulMonotone(o.initialDelay, o.initialDelay * p, o.multiplier);
  }

  lemma UnroundedGrows(o: Settings, exponent: nat, r0: Random, r1: Random)
    requires Steady(o) || SaturatesAtOnce(o)
    ensures GrowsAt(o, exponent, r0, r1)
  {
    var nominal, next := Nominal(o, exponent), Nominal(o, exponent + 1);
    NominalPositive(o, exponent);
    NominalPositive(o, exponent + 1);
    NextNominal(o, exponent);
    hide Nominal, Limited, Pow;
    if Steady(o) {
      GrowthCoversJitter(nominal, nominal * o.jitter, o);
    }
    LimitedGrows(nominal, nominal * o.jitter, next, o, r0, r1);
  }

  lemma FirstTwo(o: Settings, r0: Random)
    requires o.initialDelay * o.multiplier < o.maxDelay && o.jitter > 0.0
    requires r0 * o.jitter > o.multiplier - 1.0
    ensures Unrounded(o, 0, r0) > o.initialDelay * o.multiplier == Unrounded(o, 1, 0.0)
  {
    var first, second := o.initialDelay, o.initialDelay * o.multiplier;
    assert Nominal(o, 0) == first * Pow(o.multiplier, 0) == first;
    NextNominal(o, 0);
    assert second - first == (o.multiplier - 1.0) * first > 0.0;
    var surplus := r0 * o.jitter - (o.multiplier - 1.0);
    assert Extra(first, r0, o.jitter) - (second - first) == surplus * first > 0.0;
    assert Unrounded(o, 0, r0) == Min(first + Extra(first, r0, o.jitter), o.maxDelay) > second;
    assert Extra(second, 0.0, o.jitter) == 0.0;
    assert Unrounded(o, 1, 0.0) == second;
  }

  lemma UnroundedMayShrink(o: Settings)
    requires !Steady(o) && !SaturatesAtOnce(o)
    ensures exists r0: Random :: !GrowsAt(o, 0, r0, 0.0)
  {
    var r0 := RandomAbove(o.multiplier - 1.0, o.jitter);
    FirstTwo(o, r0);
    assert !GrowsAt(o, 0, r0, 0.0);
  }

  /** Before rounding, no delay is ever below the one before it exactly for these settings. */
  lemma NeverShrinksExactly(o: Settings)
    ensures (forall exponent: nat, r0: Random, r1: Random :: GrowsAt(o, exponent, r0, r1)) <==>
      Steady(o) || SaturatesAtOnce(o)
  {
    if Steady(o) || SaturatesAtOnce(o) {
      forall exponent: nat, r0: Random, r1: Random
        ensures GrowsAt(o, exponent, r0, r1)
      {
        UnroundedGrows(o, exponent, r0, r1);
      }
    } else {
      UnroundedMayShrink(o);
    }
  }

  /** No delay is negative or above `round(maxDelay)`. */
  lemma NeverAboveMax(o: Settings, attempts: nat, random: Random)
    ensures 0 <= Calc(o, attempts, random) <= Round(o.maxDelay)
  {
    if !(o.immediateFirstRetry && attempts == 0) {
      var exponent: nat := if o.immediateFirstRetry then attempts - 1 else attempts;
      NominalPositive(o, exponent);
      LimitedBounds(Nominal(o, exponent), Nominal(o, exponent) * o.jitter, o, random);
    }
  }

  /** With such settings the delays, rounded, never get shorter either. */
  lemma {:induction false} NeverShorter(o: Settings, k: nat, n: nat, r0: Random, r1: Random)
    requires Steady(o) || SaturatesAtOnce(o)
    requires k < n
    ensures Calc(o, k, r0) <= Calc(o, n, r1)
    decreases n
  {
    if k < n - 1 {
      NeverShorter(o, k, n - 1, r0, r1);
    }
    var r := if k < n - 1 then r1 else r0;
    if o.immediateFirstRetry && n == 1 {
      NeverAboveMax(o, n, r1);
    } else {
      var exponent: nat := if o.immediateFirstRetry then n - 2 else n - 1;
      UnroundedGrows(o, exponent, r, r1);
    }
  }

  /** With more jitter than growth they may: here from 199 to 150. */
  lemma JitterMayShorten()
    ensures var o := Options(100.0, 10000.0, 1.5, 1.0, false);
      Check(o) == Accepted && Calc(o, 1, 0.0) < Calc(o, 0, 0.99)
  {
    var o: Settings := Options(100.0, 10000.0, 1.5, 1.0, false);
    assert Pow(1.5, 0) == 1.0 && Pow(1.5, 1) == 1.5;
    assert Unrounded(o, 0, 0.99) == 199.0;
    assert Unrounded(o, 1, 0.0) == 150.0;
  }

  /** From this attempt on the delay is the longest one. */
  function Saturation(o: Settings): (n: nat)
    ensures n > 0
  {
    var ratio := o.maxDelay / o.initialDelay;
    2 + (ratio / (o.multiplier - 1.0)).Floor
  }

  lemma SaturationSuffices(o: Settings, exponent: nat)
    requires exponent + 1 >= Saturation(o)
    ensures Nominal(o, exponent) >= o.maxDelay
  {
    GrowsPast(o.initialDelay, o.multiplier, o.maxDelay, exponent);
  }

  /** Whatever the jitter, all delays from some attempt on are `round(maxDelay)`. */
  lemma EventuallyMax(o: Settings, attempts: nat, random: Random)
    requires attempts >= Saturation(o)
    ensures Calc(o, attempts, random) == Round(o.maxDelay)
  {
    var exponent: nat := if o.immediateFirstRetry then attempts - 1 else attempts;
    SaturationSuffices(o, exponent);
    NominalPositive(o, exponent);
    LimitedBounds(Nominal(o, exponent), Nominal(o, exponent) * o.jitter, o, random);
  }

  /** An immediate first retry puts a zero before the same delays. */
  lemma ImmediateFirstRetryShifts(o: Settings, attempts: nat, random: Random)
    requires o.immediateFirstRetry
    ensures Calc(o, 0, random) == 0
    ensures Calc(o, attempts + 1, random) == Calc(o.(immediateFirstRetry := false), attempts, random)
  {
    var later: Settings := o.(immediateFirstRetry := false);
    assert Nominal(later, attempts) == Nominal(o, attempts);
    assert Limited(Nominal(o, attempts), later, random) == Limited(Nominal(o, attempts), o, random);
  }

  // --------------------------------------------------------------------- runs

  datatype Op = Next(random: Random) | Reset

  /** How many times `next` has been called since the last reset. */
  function Attempts(ops: seq<Op>): nat {
    if ops == [] || ops[|ops| - 1].Reset? then 0 else 1 + Attempts(ops[..|ops| - 1])
  }

  function ValueAt(o: Settings, ops: seq<Op>, i: nat): int
    requires i < |ops| && ops[i].Next?
  {
    Calc(o, Attempts(ops[..i]), ops[i].random)
  }

  ghost predicate NoReset(ops: seq<Op>, i: nat, j: nat)
    requires i <= j <= |ops|
  {
    forall k :: i <= k < j ==> ops[k].Next?
  }

  lemma {:induction false} AttemptsAdd(ops: seq<Op>, i: nat, j: nat)
    requires i <= j <= |ops| && NoReset(ops, i, j)
    ensures Attempts(ops[..j]) == Attempts(ops[..i]) + j - i
    decreases j
  {
    if i < j {
      AttemptsAdd(ops, i, j - 1);
      assert ops[..j][..j - 1] == ops[..j - 1];
    }
  }

  /** In any run, between two resets the delays never get shorter, and stay at the maximum once there. */
  lemma DelaysOfARun(o: Settings, ops: seq<Op>, i: nat, j: nat)
    requires i < j < |ops| && ops[j].Next? && NoReset(ops, i, j)
    ensures Steady(o) || SaturatesAtOnce(o) ==> ValueAt(o, ops, i) <= ValueAt(o, ops, j)
    ensures j - i >= Saturation(o) ==> ValueAt(o, ops, j) == Round(o.maxDelay)
    ensures 0 <= ValueAt(o, ops, i) <= Round(o.maxDelay)
  {
    AttemptsAdd(ops, i, j);
    NeverAboveMax(o, Attempts(ops[..i]), ops[i].random);
    if Steady(o) || SaturatesAtOnce(o) {
      NeverShorter(o, Attempts(ops[..i]), Attempts(ops[..j]), ops[i].random, ops[j].random);
    }
    if j - i >= Saturation(o) {
      EventuallyMax(o, Attempts(ops[..j]), ops[j].random);
    }
  }

  class ExponentialBackoff {
    const options: Settings
    var attempts: nat
    ghost var ops: seq<Op>

    ghost predicate Valid()
      reads this
    {
      attempts == Attempts(ops)
    }

    constructor (options: Settings)
      ensures Valid() && this.options == options && ops == []
    {
      this.options, attempts, ops := options, 0, [];
    }

    method ResetAttempts()
      requires Valid()
      modifies this
      ensures Valid() && ops == old(ops) + [Reset] && attempts == 0
    {
      attempts := 0;
      ops := ops + [Reset];
    }

    method NextDelay(random: Random) returns (delay: int)
      requires Valid()
      modifies this
      ensures Valid() && ops == old(ops) + [Next(random)]
      ensures delay == ValueAt(options, ops, |ops| - 1)
    {
      delay := CalcDelay(random);
      assert (ops + [Next(random)])[..|ops|] == ops;
      attempts := attempts + 1;
      ops := ops + [Next(random)];
    }

    method CalcDelay(random: Random) returns (delay: int)
      ensures delay == Calc(options, attempts, random)
    {
      if options.immediateFirstRetry && attempts == 0 {
        return 0;
      }
      var exponent: nat := if options.immediateFirstRetry then attempts - 1 else attempts;
      var amount := Nominal(options, exponent);
      amount := Min(amount, options.maxDelay);
      if options.jitter > 0.0 {
        amount := amount + Extra(amount, random, options.jitter);
        amount := Min(amount, options.maxDelay);
      }
      return Round(amount);
    }
  }
}
