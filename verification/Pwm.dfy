/** The PWM driver's divider arithmetic: nanoseconds to timer registers and back. */
module Pwm {

  const WORD := 0x1_0000_0000
  const MAX_PERIOD := 65535
  const MIN_PERIOD := 3
  const MIN_PULSE := 2

  /** A time in nanoseconds as timer ticks, in the 32 bits of the driver's variable. */
  function Ticks(ns: nat, clock: nat): nat {
    ns * clock / 1000 % WORD
  }

  /** The divider for a period of `p` ticks. */
  function Divider(p: nat): (psc: nat)
    ensures psc >= 1
  {
    p / MAX_PERIOD + 1
  }

  function Max(a: nat, b: nat): nat {
    if a < b then b else a
  }

  /** Timer ticks in one period after `drv_pwm_set`. */
  function Reload(p: nat): nat {
    Max(p / Divider(p), MIN_PERIOD)
  }

  function Pulse(pulseNs: nat, clock: nat, p: nat): nat {
    var pulse := pulseNs * clock / Divider(p) / 1000 % WORD;
    if pulse < MIN_PULSE then MIN_PULSE else if pulse > Reload(p) then Reload(p) else pulse
  }

  // ----- nonlinear steps

  lemma DivBounds(a: nat, b: nat)
    requires b > 0
    ensures b * (a / b) <= a < b * (a / b) + b
  {
  }

  lemma DivBelow(a: nat, b: nat, q: nat)
    requires b > 0 && a < b * q
    ensures a / b < q
  {
    DivBounds(a, b);
    MulMono(q, a / b, b);
  }

  lemma MulMono(a: int, b: int, c: nat)
    ensures a <= b ==> c * a <= c * b
  {
  }

  lemma DivAtLeast(a: nat, b: nat, q: nat)
    requires b > 0 && b * q <= a
    ensures q <= a / b
  {
    DivBounds(a, b);
    MulMono(a / b + 1, q, b);
    assert b * (a / b + 1) == b * (a / b) + b;
  }

  // ----- the registers

  /** Whatever the period, the reload value fits its 16 bits; the prescaler does exactly for short enough periods. */
  lemma RegistersFit(p: nat)
    ensures MIN_PERIOD <= Reload(p) < MAX_PERIOD
    ensures Divider(p) - 1 < 0x10000 <==> p < MAX_PERIOD * 0x10000
  {
    DivBounds(p, MAX_PERIOD);
    DivBelow(p, Divider(p), MAX_PERIOD);
    if p < MAX_PERIOD * 0x10000 {
      DivBelow(p, MAX_PERIOD, 0x10000);
    } else {
      DivAtLeast(p, MAX_PERIOD, 0x10000);
    }
  }

  /** The effective period misses the wanted one by less than the divider, and never exceeds it, exactly when the
      wanted one is at least the minimum. */
  lemma EffectivePeriod(p: nat)
    ensures p >= MIN_PERIOD <==> Divider(p) * Reload(p) <= p
    ensures p >= MIN_PERIOD ==> p - Divider(p) < Divider(p) * Reload(p)
  {
    var psc := Divider(p);
    DivBounds(p, psc);
    if p >= MAX_PERIOD {
      DivBounds(p, MAX_PERIOD);
      assert psc * 3 <= p;
      DivAtLeast(p, psc, 3);
    }
  }

  /** The divider is the least one that brings the period below 65535 ticks. */
  lemma DividerLeast(p: nat, q: nat)
    requires q > 0
    ensures p / q < MAX_PERIOD <==> q >= Divider(p)
  {
    DivBounds(p, MAX_PERIOD);
    if q >= Divider(p) {
      MulMono(p / MAX_PERIOD + 1, q, MAX_PERIOD);
      assert MAX_PERIOD * (p / MAX_PERIOD + 1) == MAX_PERIOD * (p / MAX_PERIOD) + MAX_PERIOD && MAX_PERIOD * q == q * MAX_PERIOD;
      DivBelow(p, q, MAX_PERIOD);
    } else {
      MulMono(q, p / MAX_PERIOD, MAX_PERIOD);
      assert MAX_PERIOD * q == q * MAX_PERIOD;
      DivAtLeast(p, q, MAX_PERIOD);
    }
  }

  /** A pulse shorter than two ticks is lengthened to two, one longer than the period is cut to it. */
  lemma PulseClamped(pulseNs: nat, clock: nat, p: nat)
    requires pulseNs * clock < 1000 * WORD
    ensures var wanted := pulseNs * clock / Divider(p) / 1000;
            Pulse(pulseNs, clock, p) == if wanted < 2 then 2 else if wanted > Reload(p) then Reload(p) else wanted
  {
    hide Reload;
    DivMono(pulseNs * clock, Divider(p));
    DivBelow(pulseNs * clock / Divider(p), 1000, WORD);
    SmallMod(pulseNs * clock / Divider(p) / 1000);
  }

  lemma PulseInside(pulseNs: nat, clock: nat, p: nat)
    ensures MIN_PULSE <= Pulse(pulseNs, clock, p) <= Reload(p)
  {
  }

  /** Below 100 % the pulse is as exact as the period: it misses the wanted ticks by less than the divider. */
  lemma PulseExact(pulseNs: nat, clock: nat, p: nat)
    requires pulseNs * clock < 1000 * WORD
    ensures var q := pulseNs * clock / 1000;
            var psc := Divider(p);
            q / psc == pulseNs * clock / psc / 1000 &&
            (MIN_PULSE <= q / psc <= Reload(p) ==> q - psc < psc * Pulse(pulseNs, clock, p) <= q)
  {
    var q := pulseNs * clock / 1000;
    var psc := Divider(p);
    DivTwice(pulseNs * clock, 1000, psc);
    DivTwice(pulseNs * clock, psc, 1000);
    assert psc * 1000 == 1000 * psc;
    DivBounds(q, psc);
    DivBelow(pulseNs * clock, 1000, WORD);
    DivMono(q, psc);
  }

  lemma Grows(a: nat, b: nat)
    requires b > 0
    ensures a <= b * a
  {
    MulMono(1, b, a);
    assert a * b == b * a;
  }

  lemma DivMono(a: nat, b: nat)
    requires b > 0
    ensures a / b <= a
  {
    DivBounds(a, b);
    Grows(a / b, b);
  }

  lemma DivTwice(a: nat, b: nat, c: nat)
    requires b > 0 && c > 0
    ensures b * c > 0 && a / b / c == a / (b * c)
  {
    Positive(b, c);
    var q := a / b / c;
    DivTwiceLow(a, b, c, q);
    DivTwiceHigh(a, b, c, q);
    DivAtLeast(a, b * c, q);
    DivBelow(a, b * c, q + 1);
  }

  lemma Positive(b: nat, c: nat)
    requires b > 0 && c > 0
    ensures b * c > 0
  {
  }

  lemma DivTwiceLow(a: nat, b: nat, c: nat, q: nat)
    requires b > 0 && c > 0 && q == a / b / c
    ensures b * c * q <= a
  {
    DivBounds(a, b);
    DivBounds(a / b, c);
    MulMono(c * q, a / b, b);
    assert b * (c * q) == b * c * q;
  }

  lemma DivTwiceHigh(a: nat, b: nat, c: nat, q: nat)
    requires b > 0 && c > 0 && q == a / b / c
    ensures a < b * c * (q + 1)
  {
    var d := a / b;
    DivBounds(a, b);
    DivBounds(d, c);
    assert c * (q + 1) == c * q + c;
    MulMono(d + 1, c * (q + 1), b);
    assert b * (d + 1) == b * d + b;
    assert b * (c * (q + 1)) == b * c * (q + 1);
  }

  // ----- reading back

  /** What `drv_pwm_get` computes from a number of ticks, in 32 bits before the division. */
  function ReadBack(ticks: nat, clock: nat): nat
    requires clock > 0
  {
    ticks * 1000 % WORD / clock
  }

  /** The readback is the true duration exactly while a thousand times the ticks fits 32 bits. */
  lemma ReadBackExact(ticks: nat, clock: nat)
    requires 0 < clock <= WORD
    ensures ReadBack(ticks, clock) == ticks * 1000 / clock <==> ticks * 1000 < WORD
  {
    var x := ticks * 1000;
    if x >= WORD {
      DivBounds(x % WORD, clock);
      assert x % WORD <= x - WORD;
      DivLess(x % WORD, x, clock);
    }
  }

  lemma DivLess(a: nat, b: nat, c: nat)
    requires c > 0 && a + c <= b
    ensures a / c < b / c
  {
    DivBounds(a, c);
    assert c * (a / c + 1) == c * (a / c) + c;
    DivAtLeast(b, c, a / c + 1);
  }

  /** Setting a period and reading it back: never more than asked, and less than `psc * 1000 / clock + 1` short. */
  lemma SetThenGet(periodNs: nat, clock: nat)
    requires clock > 0 && periodNs * clock / 1000 < WORD
    requires var p := Ticks(periodNs, clock);
             p >= MIN_PERIOD && Divider(p) * Reload(p) * 1000 < WORD
    ensures var p := Ticks(periodNs, clock);
            var back := ReadBack(Divider(p) * Reload(p), clock);
            back <= periodNs && (periodNs - back - 1) * clock < Divider(p) * 1000
  {
    hide Divider, Reload;
    var p := Ticks(periodNs, clock);
    SmallMod(periodNs * clock / 1000);
    var psc := Divider(p);
    var ticks := psc * Reload(p);
    SmallMod(ticks * 1000);
    EffectivePeriod(p);
    Bounds(periodNs, clock, p, psc, ticks);
  }

  lemma SmallMod(x: nat)
    requires x < WORD
    ensures x % WORD == x
  {
  }

  lemma Bounds(periodNs: nat, clock: nat, p: nat, psc: nat, ticks: nat)
    requires clock > 0 && p == periodNs * clock / 1000 && p - psc < ticks <= p
    ensures ticks * 1000 / clock <= periodNs
    ensures (periodNs - ticks * 1000 / clock - 1) * clock < psc * 1000
  {
    var back := ticks * 1000 / clock;
    DivBounds(periodNs * clock, 1000);
    DivBounds(ticks * 1000, clock);
    assert ticks * 1000 <= periodNs * clock;
    assert periodNs * clock == clock * periodNs;
    MulMono(periodNs + 1, back, clock);
    assert clock * (periodNs + 1) == clock * periodNs + clock;
    assert (periodNs - back - 1) * clock == clock * periodNs - clock * back - clock;
  }

  // ----- the driver

  class Timer {
    const clock: nat
    var prescaler: nat
    var autoreload: nat
    var compare: nat
    var counter: nat

    constructor (clock: nat)
      requires clock > 0
      ensures this.clock == clock
    {
      this.clock := clock;
      prescaler := 0;
      autoreload := 0;
      compare := 0;
      counter := 0;
    }

    /** `drv_pwm_set` with the timer's clock in MHz; the prescaler register keeps 16 bits. */
    method Set(periodNs: nat, pulseNs: nat)
      modifies this
      ensures var p := Ticks(periodNs, clock);
              prescaler == (Divider(p) - 1) % 0x10000 && autoreload == Reload(p) - 1 && compare == Pulse(pulseNs, clock, p) - 1
      ensures autoreload < 0x10000 && 1 <= compare <= autoreload && counter == 0
      ensures Ticks(periodNs, clock) < MAX_PERIOD * 0x10000 ==> prescaler == Divider(Ticks(periodNs, clock)) - 1
    {
      var period := periodNs * clock / 1000 % WORD;
      RegistersFit(period);
      PulseInside(pulseNs, clock, period);
      var psc := period / MAX_PERIOD + 1;
      period := period / psc;
      prescaler := (psc - 1) % 0x10000;
      if period < MIN_PERIOD {
        period := MIN_PERIOD;
      }
      autoreload := period - 1;
      var pulse := pulseNs * clock / psc / 1000 % WORD;
      if pulse < MIN_PULSE {
        pulse := MIN_PULSE;
      } else if pulse > period {
        pulse := period;
      }
      compare := pulse - 1;
      counter := 0;
    }

    /** `drv_pwm_get`: the whole nanoseconds of the period and the pulse exactly while a thousand times their ticks
        fits 32 bits; a pulse inside the period then never reads longer than it. */
    method Get() returns (periodNs: nat, pulseNs: nat)
      requires clock > 0
      ensures periodNs == ReadBack((autoreload + 1) * (prescaler + 1), clock)
      ensures pulseNs == ReadBack((compare + 1) * (prescaler + 1), clock)
      ensures var ticks := (autoreload + 1) * (prescaler + 1);
              clock <= WORD ==> (clock * periodNs <= ticks * 1000 < clock * periodNs + clock <==> ticks * 1000 < WORD)
      ensures var ticks := (compare + 1) * (prescaler + 1);
              clock <= WORD ==> (clock * pulseNs <= ticks * 1000 < clock * pulseNs + clock <==> ticks * 1000 < WORD)
      ensures compare <= autoreload && (autoreload + 1) * (prescaler + 1) * 1000 < WORD ==> pulseNs <= periodNs
    {
      hide ReadBack;
      GetPart(autoreload + 1, prescaler + 1, clock);
      GetPart(compare + 1, prescaler + 1, clock);
      GetOrder(compare + 1, autoreload + 1, prescaler + 1, clock);
      ReadBackIs((autoreload + 1) * (prescaler + 1), clock);
      ReadBackIs((compare + 1) * (prescaler + 1), clock);
      periodNs := (autoreload + 1) * (prescaler + 1) * 1000 % WORD / clock;
      pulseNs := (compare + 1) * (prescaler + 1) * 1000 % WORD / clock;
    }
  }

  lemma ReadBackIs(ticks: nat, clock: nat)
    requires clock > 0
    ensures ReadBack(ticks, clock) == ticks * 1000 % WORD / clock
  {
  }

  lemma GetPart(reload: nat, psc: nat, clock: nat)
    requires clock > 0
    ensures var ticks := reload * psc;
            var ns := ReadBack(ticks, clock);
            clock <= WORD ==> (clock * ns <= ticks * 1000 < clock * ns + clock <==> ticks * 1000 < WORD)
  {
    var ticks := reload * psc;
    hide ReadBack;
    FloorExactly(ticks * 1000, ReadBack(ticks, clock), clock);
    if clock <= WORD {
      ReadBackExact(ticks, clock);
    }
  }

  /** The quotient is the one number between which and the next the dividend lies. */
  lemma FloorExactly(x: nat, q: nat, c: nat)
    requires c > 0
    ensures c * q <= x < c * q + c <==> q == x / c
  {
    DivBounds(x, c);
    MulMono(q + 1, x / c, c);
    MulMono(x / c + 1, q, c);
    assert c * (q + 1) == c * q + c && c * (x / c + 1) == c * (x / c) + c;
  }

  lemma GetOrder(a: nat, b: nat, psc: nat, clock: nat)
    requires clock > 0
    ensures a <= b && b * psc * 1000 < WORD ==> ReadBack(a * psc, clock) <= ReadBack(b * psc, clock)
  {
    if a <= b && b * psc * 1000 < WORD {
      Ordered(a, b, psc);
      ReadBackMono(a * psc, b * psc, clock);
    }
  }

  /** The driver's own round trip. */
  method SetAndGet(timer: Timer, periodNs: nat, pulseNs: nat) returns (back: nat, backPulse: nat)
    requires timer.clock > 0 && periodNs * timer.clock / 1000 < MAX_PERIOD * 0x10000
    requires var p := Ticks(periodNs, timer.clock);
             p >= MIN_PERIOD && Divider(p) * Reload(p) * 1000 < WORD
    modifies timer
    ensures back <= periodNs && (periodNs - back - 1) * timer.clock < Divider(Ticks(periodNs, timer.clock)) * 1000
    ensures backPulse <= back
  {
    hide Divider, Reload, Pulse, Ticks;
    ghost var p := Ticks(periodNs, timer.clock);
    assert p < MAX_PERIOD * 0x10000 by { TicksBound(periodNs, timer.clock); }
    timer.Set(periodNs, pulseNs);
    SetThenGet(periodNs, timer.clock);
    Ordered(timer.compare + 1, timer.autoreload + 1, timer.prescaler + 1);
    ReadBackMono((timer.compare + 1) * (timer.prescaler + 1), (timer.autoreload + 1) * (timer.prescaler + 1), timer.clock);
    back, backPulse := timer.Get();
  }

  lemma Ordered(a: nat, b: nat, c: nat)
    requires a <= b
    ensures a * c <= b * c && b * c == c * b
  {
  }

  lemma TicksBound(periodNs: nat, clock: nat)
    requires periodNs * clock / 1000 < MAX_PERIOD * 0x10000
    ensures Ticks(periodNs, clock) == periodNs * clock / 1000
  {
    SmallMod(periodNs * clock / 1000);
  }

  lemma ReadBackMono(a: nat, b: nat, clock: nat)
    requires a <= b && b * 1000 < WORD && clock > 0
    ensures ReadBack(a, clock) <= ReadBack(b, clock)
  {
    SmallMod(a * 1000);
    SmallMod(b * 1000);
    DivBounds(a * 1000, clock);
    DivAtLeast(b * 1000, clock, a * 1000 / clock);
  }
}
