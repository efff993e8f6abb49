/**
 * The i8254 driver's state record as an object whose methods update its
 * fields in place, as the driver does through its `pit` argument. Port
 * output is recorded in `ports`; the bytes the device returns on a read
 * are parameters. Every method is proved against the functions of
 * PitClock.
 */
module PitDriver {
  import opened PitClock

  /** Register offsets used in the device's I/O window. */
  datatype Register = TimerCntr0 | TimerMode

  /** One byte written to a register (outb). */
  datatype PortWrite = Outb(reg: Register, value: byte)

  // Control-word fields of the 8254: counter select in bits 7-6,
  // read/write access in bits 5-4, counting mode in bits 3-1, BCD in bit 0.
  const TIMER_SEL0: byte := 0x00     // counter 0
  const TIMER_LATCH: byte := 0x00    // counter-latch command
  const TIMER_16BIT: byte := 0x30    // low byte, then high byte
  const TIMER_RATEGEN: byte := 0x04  // mode 2, rate generator

  /** TIMER_SEL0 | TIMER_16BIT | TIMER_RATEGEN: the fields are disjoint, so | is +. */
  const RATEGEN_COMMAND: byte := TIMER_SEL0 + TIMER_16BIT + TIMER_RATEGEN

  /** TIMER_SEL0 | TIMER_LATCH. */
  const LATCH_COMMAND: byte := TIMER_SEL0 + TIMER_LATCH

  /** The control word decoded into the datasheet's fields. */
  datatype ControlWord = ControlWord(counter: nat, access: nat, mode: nat, bcd: bool)

  function Decode(w: byte): ControlWord
  {
    ControlWord(w / 0x40, (w / 0x10) % 4, (w / 2) % 8, w % 2 == 1)
  }

  /** The two commands the driver sends select counter 0, in mode 2 and as a latch. */
  lemma CommandsSelectCounter0()
    ensures Decode(RATEGEN_COMMAND) == ControlWord(0, 3, 2, false)
    ensures Decode(LATCH_COMMAND).counter == 0 && Decode(LATCH_COMMAND).access == 0
  {
  }

  /** Flags of a timer start request (TMF_PERIODIC, TMF_ONESHOT). */
  const TMF_PERIODIC: bv32 := 1
  const TMF_ONESHOT: bv32 := 2

  /** What an interrupt filter reports. */
  datatype IntrFilter = IF_STRAY | IF_FILTERED | IF_DELEGATE

  /** The writes of pit_set_frequency for a divisor. */
  function FrequencyWrites(period: uint16): (w: seq<PortWrite>)
    ensures |w| == 3 && w[0] == Outb(TimerMode, RATEGEN_COMMAND)
    ensures w[1].reg == TimerCntr0 && w[2].reg == TimerCntr0
    ensures Assemble(w[1].value, w[2].value) == period
  {
    SplitThenAssemble(period);
    [Outb(TimerMode, RATEGEN_COMMAND), Outb(TimerCntr0, LowByte(period)),
     Outb(TimerCntr0, HighByte(period))]
  }

  class PitState {
    var noticedOverflow: bool
    var periodCntr: uint16
    var prevCntr16: uint16
    var cntrModulo: uint32
    var sec: nat
    /** Every byte written to the device, in order. */
    var ports: seq<PortWrite>

    /** The accumulator fields as a value. */
    function State(): TimerState
      reads this
    {
      TimerState(noticedOverflow, periodCntr, prevCntr16, cntrModulo, sec)
    }

    /** The driver's invariant: the sub-second count stays below TIMER_FREQ. */
    predicate Valid()
      reads this
    {
      Normal(State())
    }

    /** The zero-filled state record the device framework hands the driver. */
    constructor ()
      ensures Valid()
      ensures State() == TimerState(false, 0, 0, 0, 0) && ports == []
    {
      noticedOverflow, periodCntr, prevCntr16, cntrModulo, sec := false, 0, 0, 0, 0;
      ports := [];
    }

    /** pit_set_frequency: program mode 2 and the divisor, low byte first. */
    method SetFrequency()
      modifies this`ports
      ensures ports == old(ports) + FrequencyWrites(periodCntr)
    {
      ports := ports + [Outb(TimerMode, RATEGEN_COMMAND)];
      ports := ports + [Outb(TimerCntr0, LowByte(periodCntr))];
      ports := ports + [Outb(TimerCntr0, HighByte(periodCntr))];
    }

    /**
     * pit_get_counter: latch counter 0, then take the two bytes the device
     * returns (`lo` first) and turn the descending count into an
     * ascending one.
     */
    method GetCounter(lo: byte, hi: byte) returns (now: uint16)
      modifies this`ports
      ensures ports == old(ports) + [Outb(TimerMode, LATCH_COMMAND)]
      ensures now == Ascending(periodCntr, Assemble(lo, hi))
    {
      ports := ports + [Outb(TimerMode, LATCH_COMMAND)];
      var count: uint16 := 0;
      count := lo;                 // count |= lo
      count := count + hi * 0x100; // count |= hi << 8, disjoint from the low byte
      assert count == Assemble(lo, hi);
      now := U16(periodCntr - count);
      assert now == Ascending(periodCntr, count);
    }

    /** pit_incr_cntr. */
    method IncrCntr(ticks: uint16)
      requires Valid()
      modifies this`cntrModulo, this`sec
      ensures Valid()
      ensures State() == Incremented(old(State()), ticks)
      ensures Ticks(State()) == Ticks(old(State())) + ticks
    {
      cntrModulo := U32(cntrModulo + ticks);
      if cntrModulo >= TIMER_FREQ {
        cntrModulo := cntrModulo - TIMER_FREQ;
        sec := sec + 1;
      }
    }

    /**
     * pit_update_time: read the counter, count the ticks since the last
     * read (noticing a wrap), and add them. The clock never goes back;
     * the strict increase the source asserts is proved only when some
     * tick passed.
     */
    method UpdateTime(lo: byte, hi: byte)
      requires Valid()
      modifies this
      ensures Valid()
      ensures State() == Updated(old(State()), Ascending(old(periodCntr), Assemble(lo, hi)))
      ensures ports == old(ports) + [Outb(TimerMode, LATCH_COMMAND)]
      ensures ClockLeq(old(State()), State())
    {
      ghost var before := State();
      var nowCntr16 := GetCounter(lo, hi);
      var ticksPassed: uint16 := U16(nowCntr16 - prevCntr16);
      if prevCntr16 > nowCntr16 {
        noticedOverflow := true;
        ticksPassed := U16(ticksPassed + periodCntr);
      }
      TicksPassedInTwoSteps(prevCntr16, nowCntr16, periodCntr, ticksPassed);
      prevCntr16 := nowCntr16;
      ghost var flagged := State();
      IncrCntr(ticksPassed);
      assert State() == Incremented(flagged, ticksPassed) == Updated(before, nowCntr16);
      UpdateNeverGoesBack(before, nowCntr16);
      assert ClockLeq(before, State());
      assert cntrModulo < TIMER_FREQ;
    }

    /**
     * pit_intr: update, credit a period unless a wrap was noticed since
     * the last interrupt, clear the flag. The call that notifies the
     * clock framework is not part of this model.
     */
    method Intr(lo: byte, hi: byte) returns (r: IntrFilter)
      requires Valid()
      modifies this
      ensures Valid()
      ensures State() == Interrupted(old(State()), Ascending(old(periodCntr), Assemble(lo, hi)))
      ensures ports == old(ports) + [Outb(TimerMode, LATCH_COMMAND)]
      ensures !noticedOverflow && r == IF_FILTERED
    {
      UpdateTime(lo, hi);
      if !noticedOverflow {
        IncrCntr(periodCntr);
      }
      noticedOverflow := false;
      r := IF_FILTERED;
    }

    /**
     * pit_timer_start, with the divisor `counter` already computed from
     * the requested period: periodic only, and the divisor must fit.
     * Registering the interrupt handler is not part of this model.
     */
    method TimerStart(flags: bv32, counter: nat) returns (r: int)
      requires flags & TMF_PERIODIC != 0
      requires flags & TMF_ONESHOT == 0
      requires counter <= 0xFFFF
      modifies this
      ensures Valid()
      ensures State() == Started(counter)
      ensures ports == old(ports) + FrequencyWrites(counter)
      ensures r == 0
    {
      sec := 0;
      cntrModulo := 0;
      prevCntr16 := 0;
      periodCntr := counter;
      noticedOverflow := false;
      SetFrequency();
      r := 0;
    }

    /**
     * pit_timer_gettime up to the conversion into a bintime: update, then
     * take (sec, cntr_modulo) as they are after the update.
     */
    method TimerGettime(lo: byte, hi: byte) returns (s: nat, m: uint32)
      requires Valid()
      modifies this
      ensures Valid()
      ensures State() == Updated(old(State()), Ascending(old(periodCntr), Assemble(lo, hi)))
      ensures ports == old(ports) + [Outb(TimerMode, LATCH_COMMAND)]
      ensures s == sec && m == cntrModulo && m < TIMER_FREQ
      ensures ClockLeq(old(State()), State())
    {
      UpdateTime(lo, hi);
      s := sec;
      m := cntrModulo;
    }
  }
}
