/**
 * The PC programmable interval timer driver (platform/pc/pit.c): the i8254
 * divisor chosen for a tick frequency, the 32.32 fixed-point millisecond
 * clock advanced on every tick, and the one-shot and periodic trigger that
 * decides on each tick whether the platform timer callback runs.
 *
 * The driver's statics are the fields of PitTimer; uint64_t arithmetic is
 * written out modulo 2^64. The callback itself, its argument and what it
 * returns, the platform's current_time(), interrupt registration and the
 * spinlock are outside the model: the callback is present or absent, and a
 * tick reports whether it would run.
 */
module Pit {
  import opened Lk

  /** INTERNAL_FREQ and INTERNAL_FREQ_3X: the i8254 input clock in Hz, and three times it. */
  const InternalFreq: int := 1193182
  const InternalFreq3x: int := 3579546

  /** The factor of the 32.32 tick length, scaled up by 2^10. */
  const TickScale: int := 3685982306

  /** The i8254 control word: counter 0, LSB then MSB, mode 2, binary. */
  const PitControlWord: int := 0x34

  /** A write to the i8254: the control register or the counter 0 data register. */
  datatype PortWrite = Control(value: nat) | Data(value: nat)

  // The divisor

  /** The count set_pit_frequency computes, as written. */
  function CountAsWritten(frequency: nat): nat
  {
    if frequency <= 18 then 0xffff
    else if frequency >= InternalFreq then 1
    else
      var c0 := InternalFreq3x / frequency;
      var c1 := if InternalFreq3x % frequency >= InternalFreq3x / 2 then c0 + 1 else c0;
      var c2 := c1 / 3;
      if c2 % 3 >= 1 then c2 + 1 else c2
  }

  /**
   * The count set_pit_frequency evidently means: 3579546 / frequency rounded
   * to nearest, then that divided by three rounded to nearest.
   */
  function Count(frequency: nat): nat
  {
    if frequency <= 18 then 0xffff
    else if frequency >= InternalFreq then 1
    else
      var c1 := if 2 * (InternalFreq3x % frequency) >= frequency then InternalFreq3x / frequency + 1
                else InternalFreq3x / frequency;
      if c1 % 3 >= 2 then c1 / 3 + 1 else c1 / 3
  }

  /** As written, the first rounding never happens: the remainder is below the frequency, far below 3579546 / 2. */
  lemma FirstRoundingNeverFires(frequency: nat)
    requires 18 < frequency < InternalFreq
    ensures InternalFreq3x % frequency < InternalFreq3x / 2
    ensures CountAsWritten(frequency) ==
              if (InternalFreq3x / frequency / 3) % 3 >= 1 then InternalFreq3x / frequency / 3 + 1
              else InternalFreq3x / frequency / 3
  {
  }

  /**
   * As written, 1000 Hz gets count 1194 where 1193 is nearest to
   * 1193182 / 1000, 100 Hz gets 11931 where 11932 is nearest, and 1193181 Hz
   * gets 2, twice the nearest.
   */
  lemma CountAsWrittenMissesNearest()
    ensures CountAsWritten(1000) == 1194 && Count(1000) == 1193
    ensures 2 * (1194 * 1000 - InternalFreq) > 1000
    ensures CountAsWritten(100) == 11931 && Count(100) == 11932
    ensures 2 * (InternalFreq - 11931 * 100) > 100
    ensures CountAsWritten(1193181) == 2 && Count(1193181) == 1
  {
  }

  /** Rounding 3579546 / f to nearest leaves c1 * f within half of f of 3579546. */
  lemma FirstRoundingNearest(f: nat, c1: nat)
    requires 0 < f && c1 == if 2 * (InternalFreq3x % f) >= f then InternalFreq3x / f + 1 else InternalFreq3x / f
    ensures -(f as int) <= 2 * (c1 * f - InternalFreq3x) <= f
  {
    var q, r := InternalFreq3x / f, InternalFreq3x % f;
    assert InternalFreq3x == q * f + r;
    if 2 * r >= f {
      assert c1 * f == q * f + f;
    }
  }

  /** Rounding c1 / 3 to nearest then keeps c * f within half of f of 1193182. */
  lemma SecondRoundingNearest(f: nat, c1: nat, c: nat)
    requires -(f as int) <= 2 * (c1 * f - InternalFreq3x) <= f
    requires c == if c1 % 3 >= 2 then c1 / 3 + 1 else c1 / 3
    ensures -(f as int) <= 2 * (c * f - InternalFreq) <= f
  {
    var d := 3 * c - c1;
    assert -1 <= d <= 1;
    var e1 := c1 * f - InternalFreq3x;
    assert 3 * (c * f) == d * f + c1 * f by {
      assert 3 * (c * f) == (3 * c) * f;
      assert (3 * c) * f == (d + c1) * f;
    }
    if d == 1 {
      assert d * f == f;
    } else if d == -1 {
      assert d * f == -(f as int);
    } else {
      assert d * f == 0;
    }
  }

  /** A count within half a frequency of 1193182, for 18 < f < 1193182, is a 16-bit divisor. */
  lemma NearestFitsDivisor(f: nat, c: nat)
    requires 18 < f < InternalFreq && -(f as int) <= 2 * (c * f - InternalFreq) <= f
    ensures 1 <= c <= 0xffff
  {
    if c > 0xffff {
      MulAtLeast(c - 0xffff, f);
    }
  }

  /**
   * The count is a 16-bit divisor, the clamped one outside 19 .. 1193181 Hz,
   * and between them the one whose period is nearest to the frequency's:
   * count * frequency is within half a frequency of 1193182.
   */
  lemma CountIsNearest(frequency: nat)
    ensures 1 <= Count(frequency) <= 0xffff
    ensures frequency <= 18 ==> Count(frequency) == 0xffff
    ensures frequency >= InternalFreq ==> Count(frequency) == 1
    ensures 18 < frequency < InternalFreq ==>
              -(frequency as int) <= 2 * (Count(frequency) * frequency - InternalFreq) <= frequency
  {
    if 18 < frequency < InternalFreq {
      var f := frequency;
      var c1 := if 2 * (InternalFreq3x % f) >= f then InternalFreq3x / f + 1 else InternalFreq3x / f;
      FirstRoundingNearest(f, c1);
      SecondRoundingNearest(f, c1, Count(f));
      NearestFitsDivisor(f, Count(f));
    }
  }

  /**
   * The divisor as written is still a 16-bit divisor, and between 19 and
   * 1193181 Hz its period misses the frequency asked for by less than one
   * whole frequency step: count * frequency lies in (1193182 - f,
   * 1193182 + f], against half a step for Count.
   */
  lemma CountAsWrittenWithinOne(frequency: nat)
    ensures 1 <= CountAsWritten(frequency) <= 0xffff
    ensures 18 < frequency < InternalFreq ==>
              -(frequency as int) < CountAsWritten(frequency) * frequency - InternalFreq <= frequency
  {
    if 18 < frequency < InternalFreq {
      var f := frequency;
      var q := InternalFreq3x / f;
      FirstRoundingNeverFires(f);
      ThirdOfQuotient(f, q, InternalFreq3x % f);
      var c2 := q / 3;
      if c2 >= 0xfffe {
        MulAtLeast(c2 - 0xfffe + 1, f);
      }
      assert (c2 + 1) * f == c2 * f + f;
    }
  }

  /** A third of the quotient 3579546 / f, rounded down, misses 1193182 by less than one f. */
  lemma ThirdOfQuotient(f: nat, q: nat, r: nat)
    requires 0 < f && r < f && q * f + r == InternalFreq3x
    ensures -(f as int) < (q / 3) * f - InternalFreq <= 0
  {
    var c2, m := q / 3, q % 3;
    assert q * f == 3 * (c2 * f) + m * f by {
      assert q == 3 * c2 + m;
      assert q * f == (3 * c2 + m) * f;
    }
    if m == 1 {
      assert m * f == f;
    } else if m == 2 {
      assert m * f == 2 * f;
    } else {
      assert m * f == 0;
    }
  }

  /** The divisor arithmetic of set_pit_frequency, step by step as written. */
  method PitCount(frequency: nat) returns (count: nat)
    ensures count == CountAsWritten(frequency)
  {
    if frequency <= 18 {
      count := 0xffff;
    } else if frequency >= InternalFreq {
      count := 1;
    } else {
      var c: int := InternalFreq3x / frequency;
      var remainder := InternalFreq3x % frequency;
      if remainder >= InternalFreq3x / 2 {
        c := c + 1;
      }
      c := c / 3;
      remainder := c % 3;
      if remainder >= 1 {
        c := c + 1;
      }
      count := c;
    }
  }

  /** No count of any size gives a period nearer the frequency's than Count does. */
  lemma CountIsBest(frequency: nat, other: int)
    requires 18 < frequency < InternalFreq
    ensures var e, e' := Count(frequency) * frequency - InternalFreq, other * frequency - InternalFreq;
            (if e < 0 then -e else e) <= (if e' < 0 then -e' else e')
  {
    var f, c := frequency, Count(frequency);
    CountIsNearest(f);
    if other > c {
      MulAtLeast(other - c, f);
      assert other * f == (other - c) * f + c * f;
    } else if other < c {
      MulAtLeast(c - other, f);
      assert c * f == (c - other) * f + other * f;
    }
  }

  /** timer_delta_time: the length of count input-clock periods in 32.32 milliseconds. */
  function DeltaTime(count: nat): nat
  {
    (TickScale * count) / 1024
  }

  /**
   * The tick length is the hardware period to within 0.28 parts per million:
   * delta * 1193182 is count * 1000 * 2^32 (count periods in 32.32
   * milliseconds, times the frequency) less at most 1193182 and plus at most
   * count * 1199936.
   */
  lemma DeltaTracksPeriod(count: nat)
    ensures count * 1000 * U32 - InternalFreq < DeltaTime(count) * InternalFreq
    ensures DeltaTime(count) * InternalFreq <= count * 1000 * U32 + count * 1199936
  {
    var d := DeltaTime(count);
    assert d * 1024 <= TickScale * count < d * 1024 + 1024;
    assert TickScale * InternalFreq == 1000 * U32 * 1024 + 1228733692;
    assert (d * 1024) * InternalFreq <= (TickScale * count) * InternalFreq;
    assert (TickScale * count) * InternalFreq < (d * 1024 + 1024) * InternalFreq;
    assert (TickScale * count) * InternalFreq == count * (1000 * U32 * 1024 + 1228733692);
  }

  // The trigger

  /**
   * The timer as the tick sees it: timer_current_time, timer_delta_time,
   * next_trigger_time, next_trigger_delta (0 for a one-shot) and whether a
   * callback is installed.
   */
  datatype TimerState = TimerState(current: nat, delta: nat, next: nat, period: nat, callback: bool)

  predicate Wf(s: TimerState)
  {
    s.current < U64 && s.delta < U64 && s.next < U64 && s.period < U64
  }

  /**
   * pit_timer_tick: the clock advances by one tick; the callback runs when
   * one is installed, a trigger is set and the clock has reached it. A
   * periodic trigger moves on by its period less the overshoot, a one-shot
   * trigger is cleared.
   */
  function Tick(s: TimerState): (TimerState, bool)
  {
    var cur := (s.current + s.delta) % U64;
    if s.callback && s.next != 0 && cur >= s.next then
      var next := if s.period != 0 then (cur + s.period - (cur - s.next)) % U64 else 0;
      (s.(current := cur, next := next), true)
    else
      (s.(current := cur), false)
  }

  /** The state after n ticks, and how many of them ran the callback. */
  function Ticks(s: TimerState, n: nat): (TimerState, nat)
    decreases n
  {
    if n == 0 then (s, 0)
    else
      var (t, fired) := Tick(s);
      var (u, k) := Ticks(t, n - 1);
      (u, k + if fired then 1 else 0)
  }

  /**
   * One tick: the callback runs exactly when one is installed, a trigger is
   * set and the advanced clock has reached it; a periodic trigger then moves
   * on by exactly one period, whatever the overshoot, and a one-shot trigger
   * is cleared; the trigger is kept otherwise.
   */
  lemma TickRearms(s: TimerState)
    requires Wf(s)
    ensures var (t, fired) := Tick(s);
            Wf(t) && t.delta == s.delta && t.period == s.period && t.callback == s.callback
            && t.current == (s.current + s.delta) % U64
            && (fired <==> s.callback && s.next != 0 && t.current >= s.next)
            && (fired && s.period != 0 ==> t.next == (s.next + s.period) % U64)
            && (fired && s.period == 0 ==> t.next == 0)
            && (!fired ==> t.next == s.next)
  {
  }

  /** A sum taken modulo 2^64 part way gives the same residue. */
  lemma ModAddLeft(a: nat, b: nat)
    ensures (a % U64 + b) % U64 == (a + b) % U64
  {
    DivModUnique(a + b, U64, a / U64 + (a % U64 + b) / U64, (a % U64 + b) % U64);
  }

  /** Over any ticks the clock advances by one delta per tick, modulo 2^64. */
  lemma {:induction false} TicksAdvance(s: TimerState, n: nat)
    requires Wf(s)
    ensures Wf(Ticks(s, n).0) && Ticks(s, n).0.current == (s.current + n * s.delta) % U64
    ensures Ticks(s, n).0.delta == s.delta && Ticks(s, n).0.period == s.period
    ensures Ticks(s, n).1 <= n
    decreases n
  {
    if n > 0 {
      var t := Tick(s).0;
      TickRearms(s);
      TicksAdvance(t, n - 1);
      ModAddLeft(s.current + s.delta, (n - 1) * s.delta);
      assert s.current + s.delta + (n - 1) * s.delta == s.current + n * s.delta;
    } else {
      assert s.current % U64 == s.current;
    }
  }

  /** The trigger a moved on by k periods p, one at a time, each modulo 2^64. */
  function Advance(a: nat, p: nat, k: nat): nat
    decreases k
  {
    if k == 0 then a else (Advance(a, p, k - 1) + p) % U64
  }

  /** Moving on by one period and then k more is moving on by k + 1. */
  lemma {:induction false} AdvanceShift(a: nat, p: nat, k: nat)
    ensures Advance((a + p) % U64, p, k) == Advance(a, p, k + 1)
    decreases k
  {
    if k > 0 {
      AdvanceShift(a, p, k - 1);
    }
  }

  /** k periods one at a time are k * p at once, modulo 2^64. */
  lemma {:induction false} AdvanceIsMul(a: nat, p: nat, k: nat)
    requires a < U64
    ensures Advance(a, p, k) == (a + k * p) % U64
    decreases k
  {
    if k == 0 {
      assert a % U64 == a;
    } else {
      AdvanceIsMul(a, p, k - 1);
      ModAddLeft(a + (k - 1) * p, p);
      MulSucc(k - 1, p);
    }
  }

  /** Over any ticks, a periodic trigger moves on by one period for each time the callback runs. */
  lemma {:induction false} PeriodicAdvances(s: TimerState, n: nat)
    requires Wf(s) && s.period != 0
    ensures Ticks(s, n).0.next == Advance(s.next, s.period, Ticks(s, n).1)
    decreases n
  {
    if n > 0 {
      var (t, fired) := Tick(s);
      TicksUnfold(s, n);
      TickRearms(s);
      PeriodicAdvances(t, n - 1);
      if fired {
        AdvanceShift(s.next, s.period, Ticks(t, n - 1).1);
      }
    }
  }

  /**
   * A periodic trigger does not drift: after any ticks it is the first
   * trigger plus one period for each time the callback ran, modulo 2^64.
   */
  lemma PeriodicNoDrift(s: TimerState, n: nat)
    requires Wf(s) && s.period != 0
    ensures Ticks(s, n).0.next == (s.next + Ticks(s, n).1 * s.period) % U64
  {
    PeriodicAdvances(s, n);
    AdvanceIsMul(s.next, s.period, Ticks(s, n).1);
  }

  /** n ticks are one tick and n - 1 more. */
  lemma TicksUnfold(s: TimerState, n: nat)
    requires n > 0
    ensures Ticks(s, n) == (Ticks(Tick(s).0, n - 1).0, Ticks(Tick(s).0, n - 1).1 + if Tick(s).1 then 1 else 0)
  {
  }

  /** One more copy of p. */
  lemma MulSucc(k: nat, p: nat)
    ensures (k + 1) * p == k * p + p
  {
  }

  /** A one-shot trigger runs the callback at most once, and never when no trigger is set. */
  lemma {:induction false} OneShotAtMostOnce(s: TimerState, n: nat)
    requires s.period == 0
    ensures Ticks(s, n).1 <= 1
    ensures s.next == 0 ==> Ticks(s, n).1 == 0
    decreases n
  {
    if n > 0 {
      var (t, fired) := Tick(s);
      OneShotAtMostOnce(t, n - 1);
      if fired {
        assert t.next == 0;
      }
    }
  }

  /**
   * Without wrap-around, a one-shot trigger ahead of the clock runs the
   * callback once over n ticks exactly when n ticks take the clock to it.
   */
  lemma {:induction false} OneShotFiresWhenDue(s: TimerState, n: nat)
    requires Wf(s) && s.period == 0 && s.callback && s.current < s.next
    requires s.current + n * s.delta < U64
    ensures Ticks(s, n).1 == if s.current + n * s.delta >= s.next then 1 else 0
    decreases n
  {
    if n > 0 {
      var rest := (n - 1) * s.delta;
      MulSucc(n - 1, s.delta);
      assert s.current + n * s.delta == s.current + s.delta + rest;
      OneShotTick(s);
      var t := Tick(s).0;
      TicksUnfold(s, n);
      if Tick(s).1 {
        OneShotAtMostOnce(t, n - 1);
      } else {
        assert t.current + (n - 1) * t.delta == s.current + s.delta + rest;
        OneShotFiresWhenDue(t, n - 1);
      }
    }
  }

  /** One tick of a pending one-shot without wrap-around: it fires exactly when the clock reaches the trigger. */
  lemma OneShotTick(s: TimerState)
    requires Wf(s) && s.period == 0 && s.callback && s.current < s.next && s.current + s.delta < U64
    ensures Tick(s).0 == s.(current := s.current + s.delta, next := if Tick(s).1 then 0 else s.next)
    ensures Tick(s).1 <==> s.current + s.delta >= s.next
  {
  }

  /**
   * pit_set_periodic_timer and pit_set_oneshot_timer on the trigger: the
   * trigger is interval milliseconds (interval << 32 in 32.32) past the
   * clock, modulo 2^64; the period is that interval, or 0 for a one-shot.
   */
  function Arm(s: TimerState, interval: nat, periodic: bool, callback: bool): TimerState
  {
    s.(next := (s.current + interval * U32) % U64, period := if periodic then interval * U32 else 0,
       callback := callback)
  }

  /**
   * A one-shot armed for interval milliseconds, with a callback and without
   * wrap-around, runs the callback once over n ticks exactly when n ticks
   * make at least interval milliseconds of clock time.
   */
  lemma OneShotFiresAfterInterval(s: TimerState, interval: nat, n: nat)
    requires Wf(s) && 0 < interval < U32
    requires s.current + interval * U32 < U64 && s.current + n * s.delta < U64
    ensures Ticks(Arm(s, interval, false, true), n).1 == if n * s.delta >= interval * U32 then 1 else 0
  {
    var a := Arm(s, interval, false, true);
    assert a.next == s.current + interval * U32;
    OneShotFiresWhenDue(a, n);
  }

  // The time read back

  /** pit_current_time: the whole milliseconds of the 32.32 clock. */
  function Millis(current: nat): (r: nat)
    requires current < U64
    ensures r < U32
  {
    current / U32
  }

  /** pit_current_time_hires: microseconds, from the clock shifted right by 22, times 1000, shifted right by 10. */
  function Micros(current: nat): nat
  {
    ((current / 0x40_0000) * 1000) % U64 / 1024
  }

  /** The microsecond clock never wraps and agrees with the millisecond clock on the whole milliseconds. */
  lemma MicrosAgreesWithMillis(current: nat)
    requires current < U64
    ensures Micros(current) == (current / 0x40_0000) * 1000 / 1024
    ensures Micros(current) / 1000 == Millis(current)
  {
    var x := current / 0x40_0000;
    var q, r := x / 1024, x % 1024;
    assert x * 1000 < U64;
    assert x * 1000 == 1024 * (1000 * q) + 1000 * r;
    DivModUnique(x * 1000, 1024, 1000 * q + (1000 * r) / 1024, (1000 * r) % 1024);
    DivModUnique(x * 1000 / 1024, 1000, q, (1000 * r) / 1024);
    var r1 := current % 0x40_0000;
    assert current == U32 * q + (0x40_0000 * r + r1);
    DivModUnique(current, U32, q, 0x40_0000 * r + r1);
  }

  /** The driver's statics. */
  class PitTimer {
    var currentTime: nat
    var deltaTime: nat
    var nextTriggerTime: nat
    var nextTriggerDelta: nat
    var ticksPerMs: nat
    /** Whether t_callback is set. */
    var hasCallback: bool
    /** Whether INT_PIT is unmasked. */
    var unmasked: bool

    function State(): TimerState
      reads this
    {
      TimerState(currentTime, deltaTime, nextTriggerTime, nextTriggerDelta, hasCallback)
    }

    predicate Valid()
      reads this
    {
      Wf(State())
    }

    /** The statics as the loader leaves them: all zero. */
    constructor ()
      ensures Valid() && State() == TimerState(0, 0, 0, 0, false)
      ensures ticksPerMs == 0 && !unmasked
    {
      currentTime, deltaTime, nextTriggerTime, nextTriggerDelta := 0, 0, 0, 0;
      ticksPerMs := 0;
      hasCallback, unmasked := false, false;
    }

    /**
     * set_pit_frequency: the count of its two rounding steps as written,
     * the tick length of that count, and the control word and the
     * divisor's two bytes written to the i8254.
     */
    method SetPitFrequency(frequency: nat) returns (writes: seq<PortWrite>)
      requires Valid() && frequency < U32
      modifies this
      ensures Valid() && deltaTime == DeltaTime(CountAsWritten(frequency))
      ensures writes == [Control(PitControlWord), Data(CountAsWritten(frequency) % 256), Data(CountAsWritten(frequency) / 256)]
      ensures writes[1].value + 256 * writes[2].value == CountAsWritten(frequency)
      ensures currentTime == old(currentTime) && nextTriggerTime == old(nextTriggerTime)
      ensures nextTriggerDelta == old(nextTriggerDelta) && hasCallback == old(hasCallback)
      ensures ticksPerMs == old(ticksPerMs) && unmasked == old(unmasked)
    {
      var count := PitCount(frequency);
      CountAsWrittenWithinOne(frequency);
      var divisor := count % 0x1_0000;
      deltaTime := (TickScale * count) / 1024;
      writes := [Control(PitControlWord), Data(divisor % 256), Data(divisor / 256)];
    }

    /** pit_init: the clock restarts at 0 and the timer is set to 1000 Hz, which as written programs divisor 1194. */
    method Init() returns (writes: seq<PortWrite>)
      requires Valid()
      modifies this
      ensures Valid() && currentTime == 0 && ticksPerMs == InternalFreq / 1000
      ensures deltaTime == DeltaTime(1194)
      ensures writes == [Control(PitControlWord), Data(0xaa), Data(0x04)]
      ensures nextTriggerTime == old(nextTriggerTime) && nextTriggerDelta == old(nextTriggerDelta)
      ensures hasCallback == old(hasCallback) && unmasked == old(unmasked)
    {
      currentTime := 0;
      ticksPerMs := InternalFreq / 1000;
      writes := SetPitFrequency(1000);
      CountAsWrittenMissesNearest();
    }

    /** pit_timer_tick: fired says whether the callback runs. */
    method TimerTick() returns (fired: bool)
      requires Valid()
      modifies this
      ensures Valid() && (State(), fired) == Tick(old(State()))
      ensures ticksPerMs == old(ticksPerMs) && unmasked == old(unmasked)
    {
      currentTime := (currentTime + deltaTime) % U64;
      if hasCallback && nextTriggerTime != 0 && currentTime >= nextTriggerTime {
        if nextTriggerDelta != 0 {
          var delta := currentTime - nextTriggerTime;
          nextTriggerTime := (currentTime + nextTriggerDelta - delta) % U64;
        } else {
          nextTriggerTime := 0;
        }
        fired := true;
      } else {
        fired := false;
      }
    }

    /** pit_set_periodic_timer, with callback saying whether the callback given is non-null. */
    method SetPeriodicTimer(callback: bool, interval: nat)
      requires Valid() && interval < U32
      modifies this
      ensures Valid() && State() == Arm(old(State()), interval, true, callback) && unmasked
      ensures ticksPerMs == old(ticksPerMs)
    {
      hasCallback := callback;
      nextTriggerDelta := interval * U32;
      nextTriggerTime := (currentTime + nextTriggerDelta) % U64;
      unmasked := true;
    }

    /** pit_set_oneshot_timer. */
    method SetOneshotTimer(callback: bool, interval: nat)
      requires Valid() && interval < U32
      modifies this
      ensures Valid() && State() == Arm(old(State()), interval, false, callback) && unmasked
      ensures ticksPerMs == old(ticksPerMs)
    {
      hasCallback := callback;
      nextTriggerDelta := 0;
      nextTriggerTime := (currentTime + interval * U32) % U64;
      unmasked := true;
    }

    /** pit_stop_timer: masks the interrupt and leaves the trigger as it is. */
    method StopTimer()
      modifies this
      ensures !unmasked && State() == old(State()) && ticksPerMs == old(ticksPerMs)
    {
      unmasked := false;
    }
  }
}
