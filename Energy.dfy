/**
  Energy-to-power arithmetic of the powercap sensor (main.cpp:64-68, main.cpp:87-94).

  The kernel exposes a cumulative counter `energy_uj` (an unsigned 64-bit
  number of microjoules). Two samples of it, each stamped with a wall-clock
  second, are turned into a power value:

    energyDiff = (uint64)((new.energy_uj - last.energy_uj) / 1e6)
    timeDiff   = new.measurementTime - last.measurementTime
    power      = timeDiff <= 0 ? 0 : energyDiff / timeDiff

  The subtraction is unsigned 64-bit (it wraps when the counter goes down),
  the conversion back to `uint64_t` truncates to whole joules, and the final
  division is an integer division. The model computes all of this on exact
  integers. It agrees with the C++ while the microjoule delta is below 2^53,
  where the intermediate `double` holds the delta exactly, and while the
  result is below 2^24, where the returned `float` holds it exactly.
*/
module Energy {

  /** 2^64: the modulus of C++ `uint64_t` arithmetic. */
  const U64_MODULUS: int := 0x1_0000_0000_0000_0000

  /** Microjoules per joule: the `1e6` divisor. */
  const MICROJOULES_PER_JOULE: nat := 1_000_000

  newtype uint64 = x: int | 0 <= x < 0x1_0000_0000_0000_0000

  /** One sample of a powercap counter: `struct EnergyReading`.
      `measurementTime` is a `time_t` in whole seconds, taken as an unbounded integer. */
  datatype EnergyReading = EnergyReading(energyUj: uint64, measurementTime: int)

  /** `a - b` on `uint64_t`: the unique 64-bit value that, added to `b`, gives `a` modulo 2^64. */
  function WrappingSub(a: uint64, b: uint64): (d: uint64)
    ensures (b as int + d as int) % U64_MODULUS == a as int
    ensures b <= a ==> d as int == a as int - b as int
  {
    if b <= a then a - b else (a as int - b as int + U64_MODULUS) as uint64
  }

  /** The microjoules counted between two samples, as the unsigned subtraction gives them. */
  function EnergyDeltaUj(last: EnergyReading, newReading: EnergyReading): uint64
  {
    WrappingSub(newReading.energyUj, last.energyUj)
  }

  /** Whole seconds between two samples. */
  function TimeDiff(last: EnergyReading, newReading: EnergyReading): int
  {
    newReading.measurementTime - last.measurementTime
  }

  /** `energyDiff` of main.cpp:89: the delta truncated to whole joules. */
  function EnergyDiffJoules(last: EnergyReading, newReading: EnergyReading): (j: nat)
    ensures j * MICROJOULES_PER_JOULE <= EnergyDeltaUj(last, newReading) as int
    ensures EnergyDeltaUj(last, newReading) as int < (j + 1) * MICROJOULES_PER_JOULE
  {
    EnergyDeltaUj(last, newReading) as int / MICROJOULES_PER_JOULE
  }

  /** `calculatePowerUse`: whole joules per whole second, or 0 when no time has passed. */
  function CalculatePowerUse(last: EnergyReading, newReading: EnergyReading): (p: nat)
    ensures TimeDiff(last, newReading) <= 0 ==> p == 0
    ensures TimeDiff(last, newReading) >= 1 ==>
              p * TimeDiff(last, newReading) <= EnergyDiffJoules(last, newReading) <
              (p + 1) * TimeDiff(last, newReading)
    ensures p <= EnergyDiffJoules(last, newReading)
  {
    var timeDiff := TimeDiff(last, newReading);
    if timeDiff <= 0 then 0
    else
      var p := EnergyDiffJoules(last, newReading) / timeDiff;
      FloorDivBounds(EnergyDiffJoules(last, newReading), timeDiff);
      p
  }

  /** Floor division on naturals, stated as the two bounds that characterise it. */
  lemma FloorDivBounds(x: nat, t: int)
    requires t >= 1
    ensures x / t * t <= x < (x / t + 1) * t
    ensures x / t <= x
  {
    var q, r := x / t, x % t;
    assert x == q * t + r;
    assert 0 <= r < t;
    assert (q + 1) * t == q * t + t by { Distribute(q, t); }
    MulAtLeastSelf(q, t);
  }

  lemma Distribute(q: int, t: int)
    ensures (q + 1) * t == q * t + t
  {
  }

  lemma MulAtLeastSelf(q: nat, t: int)
    requires t >= 1
    ensures q <= q * t
  {
    assert q * t == q + q * (t - 1);
  }

  /** A reading taken no later than the previous one yields 0, whatever the counters say. */
  lemma NonPositiveIntervalYieldsZero(last: EnergyReading, newReading: EnergyReading)
    requires newReading.measurementTime <= last.measurementTime
    ensures CalculatePowerUse(last, newReading) == 0
  {
  }

  /** The reported power is the floor of the average power over the interval:
      whole watts, with every fraction (of a joule and of a watt) dropped. */
  lemma {:induction false} PowerIsFlooredAverage(last: EnergyReading, newReading: EnergyReading)
    requires TimeDiff(last, newReading) >= 1
    ensures var p, t, d := CalculatePowerUse(last, newReading), TimeDiff(last, newReading),
                          EnergyDeltaUj(last, newReading) as int;
            p * MICROJOULES_PER_JOULE * t <= d < (p + 1) * MICROJOULES_PER_JOULE * t
  {
    var p, t, d := CalculatePowerUse(last, newReading), TimeDiff(last, newReading),
                   EnergyDeltaUj(last, newReading) as int;
    var j := EnergyDiffJoules(last, newReading);
    var m := MICROJOULES_PER_JOULE;
    // p * t <= j  and  j + 1 <= (p + 1) * t
    assert p * t <= j;
    assert j + 1 <= (p + 1) * t;
    assert p * m * t == (p * t) * m;
    assert (p * t) * m <= j * m by { MulMono(p * t, j, m); }
    assert (j + 1) * m <= ((p + 1) * t) * m by { MulMono(j + 1, (p + 1) * t, m); }
    assert (p + 1) * m * t == ((p + 1) * t) * m;
    assert d < (j + 1) * m;
  }

  lemma MulMono(a: int, b: int, m: int)
    requires a <= b && m >= 0
    ensures a * m <= b * m
  {
    assert b * m - a * m == (b - a) * m;
  }

  /** A steady draw of exactly `w` watts over `t >= 1` seconds is reported as `w`. */
  lemma SteadyDrawIsExact(last: EnergyReading, newReading: EnergyReading, w: nat)
    requires TimeDiff(last, newReading) >= 1
    requires EnergyDeltaUj(last, newReading) as int == w * TimeDiff(last, newReading) * MICROJOULES_PER_JOULE
    ensures CalculatePowerUse(last, newReading) == w
  {
    var p, t := CalculatePowerUse(last, newReading), TimeDiff(last, newReading);
    var m := MICROJOULES_PER_JOULE;
    PowerIsFlooredAverage(last, newReading);
    // p*m*t <= w*t*m < (p+1)*m*t, so p <= w < p + 1
    assert p * (m * t) <= w * (m * t) < (p + 1) * (m * t);
    LessMulCancel(w, p + 1, m * t);
    LessMulCancel(p, w + 1, m * t) by { Distribute(w, m * t); }
  }

  lemma LessMulCancel(a: int, b: int, k: int)
    requires k >= 1 && a * k < b * k
    ensures a < b
  {
    if a >= b { MulMono(b, a, k); }
  }

  /** Less than one joule between two samples reports 0 W: the truncation drops it. */
  lemma SubJouleDeltaYieldsZero(last: EnergyReading, newReading: EnergyReading)
    requires EnergyDeltaUj(last, newReading) as int < MICROJOULES_PER_JOULE
    ensures CalculatePowerUse(last, newReading) == 0
  {
  }

  /** A counter that goes down (reset, suspend and resume) does not give a negative
      delta: the unsigned subtraction wraps, and the reported energy is at least
      what remained up to 2^64 from the old counter value. The joule bound holds for
      the exact-integer division modelled here; a wrapped delta lies far above 2^53,
      where the source's `double` quotient can come out one joule lower. */
  lemma {:induction false} DecreasingCounterWraps(last: EnergyReading, newReading: EnergyReading)
    requires newReading.energyUj < last.energyUj
    ensures EnergyDeltaUj(last, newReading) as int ==
            U64_MODULUS - (last.energyUj as int - newReading.energyUj as int)
    ensures EnergyDiffJoules(last, newReading) >= (U64_MODULUS - last.energyUj as int) / MICROJOULES_PER_JOULE
  {
    var d := EnergyDeltaUj(last, newReading) as int;
    var low := U64_MODULUS - last.energyUj as int;
    WrapValue(newReading.energyUj, last.energyUj, d);
    assert low <= d;
    DivMono(low, d, MICROJOULES_PER_JOULE);
  }

  lemma WrapValue(a: uint64, b: uint64, d: int)
    requires a < b && d == WrappingSub(a, b) as int
    ensures d == U64_MODULUS - (b as int - a as int)
  {
  }

  lemma DivMono(x: nat, y: nat, m: nat)
    requires x <= y && m >= 1
    ensures x / m <= y / m
  {
    FloorDivBounds(x, m);
    FloorDivBounds(y, m);
    LessMulCancel(x / m, y / m + 1, m);
  }

  /** The unsigned difference is the only 64-bit value that closes the sum modulo 2^64. */
  lemma WrappingSubUnique(a: uint64, b: uint64, d: uint64)
    requires (b as int + d as int) % U64_MODULUS == a as int
    ensures d == WrappingSub(a, b)
  {
    var w := WrappingSub(a, b);
    var x, y := b as int + d as int, b as int + w as int;
    assert 0 <= x < 2 * U64_MODULUS && 0 <= y < 2 * U64_MODULUS;
    assert x == a as int || x == a as int + U64_MODULUS;
    assert y == a as int || y == a as int + U64_MODULUS;
  }

  /** Adds a constant to a counter modulo 2^64, keeping the time stamp. */
  function Shifted(r: EnergyReading, c: uint64): EnergyReading
  {
    EnergyReading(((r.energyUj as int + c as int) % U64_MODULUS) as uint64, r.measurementTime)
  }

  /** Only the delta modulo 2^64 and the interval matter, not where the counter stands:
      shifting both samples by the same amount leaves the reported power as it was. */
  lemma {:induction false} PowerIgnoresCounterOffset(last: EnergyReading, newReading: EnergyReading, c: uint64)
    ensures CalculatePowerUse(Shifted(last, c), Shifted(newReading, c)) == CalculatePowerUse(last, newReading)
  {
    var a, b := newReading.energyUj as int, last.energyUj as int;
    var a', b' := Shifted(newReading, c).energyUj, Shifted(last, c).energyUj;
    var d := EnergyDeltaUj(last, newReading);
    var M := U64_MODULUS;
    // b + d == a (mod M), so (b + c) + d == a + c (mod M)
    assert (b + d as int) % M == a;
    ModAddCongruence(b, d as int, a, c as int);
    assert (b' as int + d as int) % M == a' as int;
    WrappingSubUnique(a', b', d);
  }

  lemma ModAddCongruence(b: int, d: int, a: int, c: int)
    requires 0 <= b < U64_MODULUS && 0 <= d < U64_MODULUS && 0 <= c < U64_MODULUS
    requires 0 <= a < U64_MODULUS && (b + d) % U64_MODULUS == a
    ensures ((b + c) % U64_MODULUS + d) % U64_MODULUS == (a + c) % U64_MODULUS
  {
    var M := U64_MODULUS;
    assert b + d == a || b + d == a + M;
    assert (b + c) % M == b + c || (b + c) % M == b + c - M;
    assert (a + c) % M == a + c || (a + c) % M == a + c - M;
  }

  /** The worked case: 1,000,000 uJ at t = 0 and 3,500,000 uJ at t = 2 give 1 W (not 1.25);
      repeating the second sample gives 0. */
  lemma WorkedExample()
    ensures CalculatePowerUse(EnergyReading(1_000_000, 0), EnergyReading(3_500_000, 2)) == 1
    ensures CalculatePowerUse(EnergyReading(3_500_000, 2), EnergyReading(3_500_000, 2)) == 0
  {
  }
}
