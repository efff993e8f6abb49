/**
 * The time accumulator of the i8254 programmable interval timer driver,
 * as pure functions over a snapshot of the driver's state record.
 *
 * The hardware counter runs in the 8254's Mode 2 (rate generator): it
 * counts down from the programmed divisor `periodCntr` to 1, reloads and
 * raises an interrupt. The driver turns successive latched readings of
 * that counter into a monotonic pair (seconds, ticks modulo TIMER_FREQ).
 * The class in module PitDriver is proved to change its fields exactly
 * as the functions here say; the lemmas here state what that achieves.
 */
module PitClock {

  /** Input clock of the i8254 in Hz (TIMER_FREQ). */
  const TIMER_FREQ: nat := 1193182

  type byte = x: int | 0 <= x < 0x100
  type uint16 = x: int | 0 <= x < 0x1_0000
  type uint32 = x: int | 0 <= x < 0x1_0000_0000

  /** Conversion to uint16_t: C arithmetic on uint16_t wraps modulo 2^16. */
  function U16(x: int): uint16 { x % 0x1_0000 }

  /** Conversion to uint32_t. */
  function U32(x: int): uint32 { x % 0x1_0000_0000 }

  /**
   * The assumption the carry in `Incremented` rests on: every increment
   * is a uint16_t, so it is below TIMER_FREQ and one subtraction of
   * TIMER_FREQ restores the bound; and the uint32_t sum cannot wrap.
   */
  lemma FreqExceedsIncrement()
    ensures 0xFFFF < TIMER_FREQ
    ensures TIMER_FREQ + 0xFFFF < 0x1_0000_0000
  {
  }

  // ---------------------------------------------------------------------
  // Bytes on the wire

  /** The byte written second to TIMER_CNTR0: `x >> 8`, the number of whole 256s in x. */
  function HighByte(x: uint16): (h: byte)
    ensures h * 0x100 <= x < h * 0x100 + 0x100
  {
    x / 0x100
  }

  /** The byte written first to TIMER_CNTR0: `x & 0xff`, what the high byte leaves over. */
  function LowByte(x: uint16): (b: byte)
    ensures b + HighByte(x) * 0x100 == x
  {
    x % 0x100
  }

  /**
   * Reassembly of the two latched bytes: `lo | hi << 8`. Both bytes are
   * recovered from the value they assemble to.
   */
  function Assemble(lo: byte, hi: byte): (r: uint16)
    ensures LowByte(r) == lo && HighByte(r) == hi
  {
    lo + hi * 0x100
  }

  /** The arithmetic reassembly agrees with the source's `lo | hi << 8` on 16-bit words. */
  lemma BitOrIsAssemble(lo: bv16, hi: bv16)
    requires lo < 0x100 && hi < 0x100
    ensures (lo | (hi << 8)) as int == Assemble(lo as int, hi as int)
  {
  }

  /** Splitting a divisor into the two bytes and reassembling gives it back. */
  lemma SplitThenAssemble(x: uint16)
    ensures Assemble(LowByte(x), HighByte(x)) == x
  {
  }

  /** The arithmetic forms above agree with the source's bit operations. */
  lemma BitOperationsAgree(x: bv16)
    ensures (x & 0xff) as int == LowByte(x as int)
    ensures (x >> 8) as int == HighByte(x as int)
  {
    ShiftConverts(x);
    MaskConverts(x);
  }

  /** `>> 8` on a 16-bit word, read as an integer: the quotient by 256. */
  lemma ShiftConverts(x: bv16)
    ensures (x >> 8) as int == x as int / 0x100
  {
  }

  /** `& 0xff` on a 16-bit word, read as an integer: what `>> 8` leaves over. */
  lemma MaskConverts(x: bv16)
    ensures (x & 0xff) as int == x as int - (x >> 8) as int * 0x100
  {
  }

  /**
   * pit_get_counter's result: the descending count (n down to 1) turned
   * into an ascending one (0 up to n-1), computed in uint16_t.
   */
  function Ascending(period: uint16, count: uint16): (now: uint16)
    ensures 1 <= count <= period ==> now == period - count && now < period
  {
    U16(period - count)
  }

  /** A later (smaller) descending count gives a larger ascending value. */
  lemma AscendingReversesOrder(period: uint16, c1: uint16, c2: uint16)
    requires 1 <= c2 <= c1 <= period
    ensures Ascending(period, c1) <= Ascending(period, c2)
    ensures Ascending(period, c2) - Ascending(period, c1) == c1 - c2
  {
  }

  // ---------------------------------------------------------------------
  // The state record and the clock it denotes

  /** The fields of pit_state_t that the accumulator uses. */
  datatype TimerState = TimerState(
    noticedOverflow: bool, // a wrap was seen since the last interrupt
    periodCntr: uint16,    // counter ticks in one period (the divisor)
    prevCntr16: uint16,    // ascending counter value at the last read
    cntrModulo: uint32,    // counter ticks modulo TIMER_FREQ
    sec: nat)              // whole seconds

  /** The bound the driver asserts after every update. */
  predicate Normal(s: TimerState)
  {
    s.cntrModulo < TIMER_FREQ
  }

  /** All counter ticks accounted for since the timer was started. */
  function Ticks(s: TimerState): nat
  {
    s.sec * TIMER_FREQ + s.cntrModulo
  }

  /** Lexicographic order on (sec, cntrModulo). */
  predicate ClockLeq(a: TimerState, b: TimerState)
  {
    a.sec < b.sec || (a.sec == b.sec && a.cntrModulo <= b.cntrModulo)
  }

  /** Strict lexicographic order on (sec, cntrModulo), as asserted in pit_update_time. */
  predicate ClockLess(a: TimerState, b: TimerState)
  {
    a.sec < b.sec || (a.sec == b.sec && a.cntrModulo < b.cntrModulo)
  }

  /**
   * On normal states the lexicographic order on (sec, cntrModulo) is the
   * order of the tick totals, so "never goes back" can be argued on Ticks.
   */
  lemma ClockOrderIsTickOrder(a: TimerState, b: TimerState)
    requires Normal(a) && Normal(b)
    ensures ClockLeq(a, b) <==> Ticks(a) <= Ticks(b)
    ensures ClockLess(a, b) <==> Ticks(a) < Ticks(b)
  {
    if a.sec < b.sec {
      assert (a.sec + 1) * TIMER_FREQ <= b.sec * TIMER_FREQ;
    } else if b.sec < a.sec {
      assert (b.sec + 1) * TIMER_FREQ <= a.sec * TIMER_FREQ;
    }
  }

  // ---------------------------------------------------------------------
  // The operations

  /** The fields as pit_timer_start leaves them. */
  function Started(counter: uint16): (s: TimerState)
    ensures Normal(s) && Ticks(s) == 0
    ensures !s.noticedOverflow && s.prevCntr16 == 0 && s.periodCntr == counter
  {
    TimerState(false, counter, 0, 0, 0)
  }

  /** pit_incr_cntr: add `ticks` and carry at most once into the seconds. */
  function Incremented(s: TimerState, ticks: uint16): (r: TimerState)
    ensures r.noticedOverflow == s.noticedOverflow
    ensures r.periodCntr == s.periodCntr && r.prevCntr16 == s.prevCntr16
    ensures Normal(s) ==> Normal(r) && Ticks(r) == Ticks(s) + ticks
  {
    var m := U32(s.cntrModulo + ticks);
    if m >= TIMER_FREQ then s.(cntrModulo := m - TIMER_FREQ, sec := s.sec + 1)
    else s.(cntrModulo := m)
  }

  /**
   * The uint16_t `ticks_passed` of pit_update_time: the difference of the
   * two readings, plus one period when the reading went down (a wrap).
   * Without a drop in the reading, it is the difference; after a drop from
   * a reading inside the period, the uint16_t sum does not wrap and gives
   * the ticks up to the reload plus those after it.
   */
  function TicksPassed(prev: uint16, now: uint16, period: uint16): (ticks: uint16)
    ensures prev <= now ==> ticks == now - prev
    ensures now < prev < period ==> ticks == (period - prev) + now && 0 < ticks < period
  {
    var t := U16(now - prev);
    if prev > now then U16(t + period) else t
  }

  /**
   * A proof step, not a property: it unfolds TicksPassed into the two
   * assignments pit_update_time makes, so that the method's proof need not
   * unfold it among the facts about the counter read.
   */
  lemma TicksPassedInTwoSteps(prev: uint16, now: uint16, period: uint16, ticks: uint16)
    requires ticks == if prev > now then U16(U16(now - prev) + period) else U16(now - prev)
    ensures ticks == TicksPassed(prev, now, period)
  {
  }

  /** pit_update_time, given the ascending value `now` that pit_get_counter returned. */
  function Updated(s: TimerState, now: uint16): (r: TimerState)
    ensures r.prevCntr16 == now && r.periodCntr == s.periodCntr
    ensures s.prevCntr16 > now ==> r.noticedOverflow
    ensures s.prevCntr16 <= now ==> r.noticedOverflow == s.noticedOverflow
    ensures Normal(s) ==> Normal(r)
    ensures Normal(s) ==> Ticks(r) == Ticks(s) + TicksPassed(s.prevCntr16, now, s.periodCntr)
  {
    var ticks := TicksPassed(s.prevCntr16, now, s.periodCntr);
    var flagged := if s.prevCntr16 > now then s.(noticedOverflow := true) else s;
    Incremented(flagged.(prevCntr16 := now), ticks)
  }

  /**
   * pit_intr: update, credit one more period unless a wrap was noticed
   * since the last interrupt, and clear the flag.
   */
  function Interrupted(s: TimerState, now: uint16): (r: TimerState)
    ensures !r.noticedOverflow
    ensures r.prevCntr16 == now && r.periodCntr == s.periodCntr
    ensures Normal(s) ==> Normal(r)
  {
    var u := Updated(s, now);
    var v := if !u.noticedOverflow then Incremented(u, u.periodCntr) else u;
    v.(noticedOverflow := false)
  }

  // ---------------------------------------------------------------------
  // Properties of one update and one interrupt

  /**
   * pit_update_time never makes the clock go back, and it moves it
   * strictly forward whenever some ticks passed.
   */
  lemma UpdateNeverGoesBack(s: TimerState, now: uint16)
    requires Normal(s)
    ensures ClockLeq(s, Updated(s, now))
    ensures TicksPassed(s.prevCntr16, now, s.periodCntr) > 0 ==> ClockLess(s, Updated(s, now))
  {
    ClockOrderIsTickOrder(s, Updated(s, now));
  }

  /**
   * The strict increase asserted in pit_update_time does not hold when
   * the counter reads the same value twice in a row: no tick passed, and
   * the clock stays where it was.
   */
  lemma RepeatedReadBreaksStrictAssertion(s: TimerState)
    requires Normal(s)
    ensures !ClockLess(s, Updated(s, s.prevCntr16))
    ensures Updated(s, s.prevCntr16).sec == s.sec
    ensures Updated(s, s.prevCntr16).cntrModulo == s.cntrModulo
  {
    ClockOrderIsTickOrder(s, Updated(s, s.prevCntr16));
  }

  /**
   * With both readings inside the period, a wrap between them is counted
   * exactly once: the ticks from `prev` up to the reload plus the ticks
   * from the reload up to `now`.
   */
  lemma WrapCountedOnce(s: TimerState, now: uint16)
    requires Normal(s)
    requires s.prevCntr16 < s.periodCntr && now < s.prevCntr16
    ensures Updated(s, now).noticedOverflow
    ensures Ticks(Updated(s, now)) == Ticks(s) + (s.periodCntr - s.prevCntr16) + now
  {
  }

  /**
   * pit_intr credits one extra period exactly when no wrap was noticed
   * since the previous interrupt, this interrupt's own update included.
   */
  lemma InterruptCreditsPeriodUnlessWrapNoticed(s: TimerState, now: uint16)
    requires Normal(s)
    ensures Updated(s, now).noticedOverflow <==> s.noticedOverflow || s.prevCntr16 > now
    ensures Ticks(Interrupted(s, now)) == Ticks(Updated(s, now)) +
              (if Updated(s, now).noticedOverflow then 0 else s.periodCntr)
  {
  }

  // ---------------------------------------------------------------------
  // Interleavings of gettime and the interrupt handler

  /** One call into the accumulator, with the ascending counter value it reads. */
  datatype Event =
    | Read(now: uint16)      // pit_timer_gettime
    | Interrupt(now: uint16) // pit_intr

  /**
   * One call: it records the value it read, leaves the divisor alone, and
   * an interrupt leaves the wrap flag clear.
   */
  function Step(s: TimerState, e: Event): (r: TimerState)
    ensures r.prevCntr16 == e.now && r.periodCntr == s.periodCntr
    ensures e.Interrupt? ==> !r.noticedOverflow
  {
    match e
    case Read(now) => Updated(s, now)
    case Interrupt(now) => Interrupted(s, now)
  }

  /**
   * The state after a sequence of calls, in order: the last value read is
   * the one recorded, and the divisor is left alone.
   */
  function Run(s: TimerState, events: seq<Event>): (r: TimerState)
    ensures r.periodCntr == s.periodCntr
    ensures events != [] ==> r.prevCntr16 == events[|events| - 1].now
    decreases |events|
  {
    if events == [] then s else Run(Step(s, events[0]), events[1..])
  }

  lemma {:induction false} RunAppend(s: TimerState, a: seq<Event>, b: seq<Event>)
    ensures Run(s, a + b) == Run(Run(s, a), b)
    decreases |a|
  {
    if a == [] {
      assert a + b == b;
    } else {
      assert a + b != [];
      assert Run(s, a + b) == Run(Step(s, (a + b)[0]), (a + b)[1..]);
      assert Run(s, a) == Run(Step(s, a[0]), a[1..]);
      assert (a + b)[0] == a[0];
      assert (a + b)[1..] == a[1..] + b;
      RunAppend(Step(s, a[0]), a[1..], b);
    }
  }

  /**
   * Whatever counter values are read, in whatever interleaving of gettime
   * and interrupts, the clock never goes back, the sub-second part stays
   * below TIMER_FREQ and the divisor is left alone.
   */
  lemma {:induction false} RunNeverGoesBack(s: TimerState, events: seq<Event>)
    requires Normal(s)
    ensures Normal(Run(s, events))
    ensures ClockLeq(s, Run(s, events))
    ensures Run(s, events).periodCntr == s.periodCntr
    decreases |events|
  {
    if events != [] {
      var t := Step(s, events[0]);
      assert Normal(t) && Ticks(s) <= Ticks(t) && t.periodCntr == s.periodCntr by {
        match events[0]
        case Read(now) =>
        case Interrupt(now) => InterruptCreditsPeriodUnlessWrapNoticed(s, now);
      }
      RunNeverGoesBack(t, events[1..]);
      ClockOrderIsTickOrder(s, t);
      ClockOrderIsTickOrder(t, Run(t, events[1..]));
      ClockOrderIsTickOrder(s, Run(t, events[1..]));
    }
  }

  // ---------------------------------------------------------------------
  // Exactness between two interrupts

  /**
   * Reads on a time line. The Mode-2 counter was loaded with p at tick 0
   * and counts p, p-1, ..., 1, p, ..., so at absolute tick t it shows the
   * descending count p - t % p, and t / p periods have been completed.
   * pit_get_counter's conversion turns that count into the position
   * t % p within the period.
   */
  function ReadsAt(times: seq<nat>, p: uint16): (events: seq<Event>)
    requires p > 0
    ensures |events| == |times|
    ensures forall i :: 0 <= i < |times| ==> events[i] == Read(times[i] % p)
  {
    seq(|times|, i requires 0 <= i < |times| => Read(Ascending(p, p - times[i] % p)))
  }

  /** Each read comes after the one before it, and less than a period later. */
  predicate ReadChain(start: nat, times: seq<nat>, p: nat)
    decreases |times|
  {
    times == [] || (start <= times[0] < start + p && ReadChain(times[0], times[1..], p))
  }

  /**
   * Two reads less than a period apart: the update counts exactly the
   * ticks between them, and it notices a wrap exactly when a reload
   * happened in between.
   */
  lemma ReadStep(a: nat, b: nat, p: uint16)
    requires 0 < p && a <= b < a + p
    ensures b / p == a / p || b / p == a / p + 1
    ensures a % p > b % p <==> b / p == a / p + 1
    ensures TicksPassed(a % p, b % p, p) == b - a
  {
    DivMonotone(a, b, p);
    NextPeriodStart(a, p);
    DivMonotone(b, a + p, p);
    if b / p == a / p {
      SamePeriodDistance(a, b, p);
    } else {
      NextPeriodDistance(a, b, p);
    }
  }

  /** One period later is in the next period. */
  lemma NextPeriodStart(a: nat, p: nat)
    requires 0 < p
    ensures (a + p) / p == a / p + 1
  {
    assert a == a / p * p + a % p;
    assert (a / p + 1) * p == a / p * p + p;
    DivUnique(a + p, p, a / p + 1, a % p);
  }

  /** Division by a positive divisor is determined by quotient and remainder. */
  lemma DivUnique(x: nat, p: nat, q: nat, r: nat)
    requires 0 < p && r < p && x == q * p + r
    ensures x / p == q && x % p == r
  {
    var q', r' := x / p, x % p;
    assert x == q' * p + r';
    if q' < q {
      MulStep(q', q, p);
    } else if q < q' {
      MulStep(q, q', p);
    }
  }

  /** A larger factor adds at least one more multiple of p. */
  lemma {:induction false} MulStep(m: nat, n: nat, p: nat)
    requires m < n
    ensures m * p + p <= n * p
    decreases n - m
  {
    if n == m + 1 {
      assert n * p == m * p + p;
    } else {
      MulStep(m, n - 1, p);
      assert n * p == (n - 1) * p + p;
    }
  }

  lemma DivMonotone(a: nat, b: nat, p: nat)
    requires 0 < p && a <= b
    ensures a / p <= b / p
  {
    var qa, qb := a / p, b / p;
    assert a == qa * p + a % p && b == qb * p + b % p;
    if qb < qa {
      MulStep(qb, qa, p);
    }
  }

  /**
   * A chain of gettime reads, starting from the read at tick `a` in
   * period k or k+1, keeps three facts: the last value read, a wrap flag
   * that is set exactly when period k+1 has been entered, and a tick
   * total that grew by exactly the time elapsed.
   */
  lemma {:induction false} ReadsTrackTime(u: TimerState, a: nat, times: seq<nat>, k: nat, bound: nat)
    requires 0 < u.periodCntr && Normal(u)
    requires a / u.periodCntr == k || a / u.periodCntr == k + 1
    requires u.prevCntr16 == a % u.periodCntr
    requires u.noticedOverflow <==> a / u.periodCntr == k + 1
    requires ReadChain(a, times, u.periodCntr)
    requires bound / u.periodCntr == k + 1
    requires forall i :: 0 <= i < |times| ==> times[i] <= bound
    ensures var last := if times == [] then a else times[|times| - 1];
            var v := Run(u, ReadsAt(times, u.periodCntr));
            && Normal(v) && v.periodCntr == u.periodCntr
            && (last / u.periodCntr == k || last / u.periodCntr == k + 1)
            && v.prevCntr16 == last % u.periodCntr
            && (v.noticedOverflow <==> last / u.periodCntr == k + 1)
            && Ticks(v) == Ticks(u) + (last - a)
    decreases |times|
  {
    var p := u.periodCntr;
    if times != [] {
      var b := times[0];
      ReadStep(a, b, p);
      DivMonotone(b, bound, p);
      var w := Updated(u, b % p);
      assert ReadsAt(times, p) == [Read(b % p)] + ReadsAt(times[1..], p);
      assert Run(u, ReadsAt(times, p)) == Run(w, ReadsAt(times[1..], p));
      ReadsTrackTime(w, b, times[1..], k, bound);
    }
  }

  /**
   * The interrupt that reads at tick t1, in period k+1, after a last read
   * at tick c in period k or k+1: it accounts exactly the ticks since c,
   * whether the wrap was noticed by an earlier read, by its own update,
   * or not at all (then the period it credits stands for the reload).
   */
  lemma InterruptStep(v: TimerState, c: nat, t1: nat, k: nat)
    requires 0 < v.periodCntr && Normal(v)
    requires c <= t1
    requires c / v.periodCntr == k || c / v.periodCntr == k + 1
    requires t1 / v.periodCntr == k + 1
    requires v.prevCntr16 == c % v.periodCntr
    requires v.noticedOverflow <==> c / v.periodCntr == k + 1
    ensures Ticks(Interrupted(v, t1 % v.periodCntr)) == Ticks(v) + (t1 - c)
  {
    var p := v.periodCntr;
    InterruptCreditsPeriodUnlessWrapNoticed(v, t1 % p);
    if c / p == k + 1 {
      SamePeriodDistance(c, t1, p);
    } else {
      NextPeriodDistance(c, t1, p);
    }
  }

  /** Two ticks in the same period are as far apart as their counter values. */
  lemma SamePeriodDistance(a: nat, b: nat, p: nat)
    requires 0 < p && a / p == b / p
    ensures b - a == b % p - a % p
  {
    assert a == a / p * p + a % p && b == b / p * p + b % p;
  }

  /** A tick in the next period is one period further on than its counter value says. */
  lemma NextPeriodDistance(a: nat, b: nat, p: nat)
    requires 0 < p && b / p == a / p + 1
    ensures b - a == p + b % p - a % p
  {
    assert a == a / p * p + a % p && b == b / p * p + b % p;
    assert (a / p + 1) * p == a / p * p + p;
  }

  /**
   * Between two interrupts the accumulator is exact. Suppose the previous
   * interrupt read the counter at tick t0 in period k and left the flag
   * clear, every gettime since then read less than a period after the read
   * before it, and this interrupt reads at tick t1 in period k+1. Then the
   * tick total grows by exactly t1 - t0, and the state is again one that
   * an interrupt leaves. Outside these assumptions a period can be lost or
   * counted twice, as the comment at pit_intr warns.
   */
  lemma InterruptIntervalIsExact(s: TimerState, t0: nat, gets: seq<nat>, t1: nat)
    requires 0 < s.periodCntr && Normal(s) && !s.noticedOverflow
    requires s.prevCntr16 == t0 % s.periodCntr
    requires t1 / s.periodCntr == t0 / s.periodCntr + 1
    requires ReadChain(t0, gets, s.periodCntr)
    requires forall i :: 0 <= i < |gets| ==> gets[i] <= t1
    ensures var r := Run(s, ReadsAt(gets, s.periodCntr) + [Interrupt(t1 % s.periodCntr)]);
            && Ticks(r) == Ticks(s) + (t1 - t0)
            && Normal(r) && !r.noticedOverflow && r.periodCntr == s.periodCntr
            && r.prevCntr16 == t1 % s.periodCntr
  {
    var p := s.periodCntr;
    var k := t0 / p;
    var getEvents := ReadsAt(gets, p);
    var last := [Interrupt(t1 % p)];
    ReadsTrackTime(s, t0, gets, k, t1);
    var v := Run(s, getEvents);
    var c := if gets == [] then t0 else gets[|gets| - 1];
    assert c <= t1 by {
      if gets == [] && t1 < t0 {
        DivMonotone(t1, t0, p);
      }
    }
    InterruptStep(v, c, t1, k);
    RunThenInterrupt(s, getEvents, t1 % p);
  }

  /** Calls followed by an interrupt end in the interrupt's state. */
  lemma RunThenInterrupt(s: TimerState, events: seq<Event>, now: uint16)
    ensures Run(s, events + [Interrupt(now)]) == Interrupted(Run(s, events), now)
  {
    RunAppend(s, events, [Interrupt(now)]);
    assert Run(Run(s, events), [Interrupt(now)])
        == Run(Interrupted(Run(s, events), now), []);
  }
}
